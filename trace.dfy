/** The reporting backend seen as the sequence of calls the reporter makes on it, and the
    plan by which `startMetaSteps` brings the open meta-step chain up to date. */
module Trace {
  import opened Common
  import opened Statuses
  import opened MetaSteps

  datatype ItemType = SuiteItem | TestItem | StepItem

  /** One call on the reporting client. A call that starts something is answered with a
      fresh id: the position of the call in the trace. */
  datatype Action =
    | StartLaunch
    | StartItem(name: string, kind: ItemType, parent: Option<Id>, hasStats: bool)
    | FinishItem(id: Option<Id>, status: Option<string>)
    | FinishLaunch(launch: Id, launchStatus: string)

  /** `hasStats` in `startTestItem`: every item but a step counts in the statistics. */
  function HasStats(kind: ItemType): (r: bool)
    ensures r <==> kind == SuiteItem || kind == TestItem
  {
    kind != StepItem
  }

  /** `id` names an item of kind `kind` started before position `before` of `t`. */
  ghost predicate Opened(t: seq<Action>, id: Option<Id>, kind: ItemType, before: int)
  {
    id.Some? && id.value < before <= |t| && t[id.value].StartItem? && t[id.value].kind == kind
  }

  /** The item started at `k` hangs where the tree allows: a suite at the top, a test
      under a suite, a step under a test or under another step, the parent always
      started earlier. */
  ghost predicate ParentFits(t: seq<Action>, k: nat)
    requires k < |t| && t[k].StartItem?
  {
    match t[k].kind
    case SuiteItem => t[k].parent.None?
    case TestItem => Opened(t, t[k].parent, SuiteItem, k)
    case StepItem => Opened(t, t[k].parent, TestItem, k) || Opened(t, t[k].parent, StepItem, k)
  }

  /** The call at position `k` of `t`, if it starts an item, carries the right
      `hasStats` flag and a parent that fits. */
  ghost predicate StartFits(t: seq<Action>, k: nat)
    requires k < |t|
  {
    t[k].StartItem? ==> t[k].hasStats == HasStats(t[k].kind) && ParentFits(t, k)
  }

  /** Every start in `t` fits. */
  ghost predicate WellFormed(t: seq<Action>)
  {
    forall k {:trigger StartFits(t, k)} :: 0 <= k < |t| ==> StartFits(t, k)
  }

  /** `finishStep` of one present step. */
  function Finish(s: Step): Action
    reads s
  {
    FinishItem(s.tempId, RpStatus(s.status))
  }

  /** The calls `finishStep` makes for `steps`, in order; an absent step makes none. */
  function FinishSteps(steps: seq<Step>): (r: seq<Action>)
    reads steps
    ensures |r| == |steps|
  {
    if |steps| == 0 then []
    else FinishSteps(steps[..|steps| - 1]) + [Finish(steps[|steps| - 1])]
  }

  /** The k-th finishing call finishes the k-th step with its translated status. */
  lemma {:induction false} FinishStepsCalls(steps: seq<Step>)
    ensures forall k :: 0 <= k < |steps| ==>
      FinishSteps(steps)[k] == FinishItem(steps[k].tempId, RpStatus(steps[k].status))
  {
    if |steps| > 0 {
      FinishStepsCalls(steps[..|steps| - 1]);
    }
  }

  /** The calls `finishStep` makes for the held slots from `lo` up to `hi`, in order; a
      deleted slot makes none. */
  function FinishRange(slots: seq<Step?>, lo: nat, hi: nat): (r: seq<Action>)
    requires hi <= |slots|
    reads slots
    decreases hi
  {
    if hi <= lo then []
    else FinishRange(slots, lo, hi - 1) + (if slots[hi - 1] == null then [] else [Finish(slots[hi - 1])])
  }

  lemma {:induction false} FinishRangeAllPresent(steps: seq<Step>, lo: nat, hi: nat)
    requires lo <= hi <= |steps|
    decreases hi
    ensures FinishRange(steps, lo, hi) == FinishSteps(steps[lo..hi])
  {
    if lo < hi {
      FinishRangeAllPresent(steps, lo, hi - 1);
      assert steps[lo..hi][..hi - 1 - lo] == steps[lo..hi - 1];
    }
  }

  lemma {:induction false} FinishRangeAllDeleted(slots: seq<Step?>, lo: nat, hi: nat)
    requires hi <= |slots|
    requires forall k :: lo <= k < hi ==> slots[k] == null
    decreases hi
    ensures FinishRange(slots, lo, hi) == []
  {
    if lo < hi {
      FinishRangeAllDeleted(slots, lo, hi - 1);
    }
  }

  /** The calls that start `chain` as STEP items, the first one under `first`, each later
      one under the item started just before it; the k-th start is answered with id
      `base + k`. */
  function StartSteps(chain: seq<Step>, base: nat, first: Option<Id>): (r: seq<Action>)
    ensures |r| == |chain|
  {
    if |chain| == 0 then []
    else
      var n := |chain| - 1;
      StartSteps(chain[..n], base, first)
        + [StartItem(chain[n].text, StepItem, if n == 0 then first else Some(base + n - 1), false)]
  }

  /** The k-th start reports the k-th entry as a STEP item without statistics, under
      `first` for the outermost entry and under the start just before it otherwise. */
  lemma {:induction false} StartStepsCalls(chain: seq<Step>, base: nat, first: Option<Id>)
    ensures forall k :: 0 <= k < |chain| ==>
      StartSteps(chain, base, first)[k]
        == StartItem(chain[k].text, StepItem, if k == 0 then first else Some(base + k - 1), false)
  {
    if |chain| > 0 {
      StartStepsCalls(chain[..|chain| - 1], base, first);
    }
  }

  /** The held entry at position `i`, `undefined` past the end. */
  function At(open: seq<Step?>, i: nat): Step?
  {
    if i < |open| then open[i] else null
  }

  /** The first position at which `chain` and the open chain disagree, or `|chain|`
      when they agree all along `chain`. */
  function FirstMismatch(chain: seq<Step>, open: seq<Step>): (m: nat)
    ensures m <= |chain| && m <= |open|
    ensures m < |chain| ==> !IsEqualMetaStep(chain[m], At(open, m))
  {
    if |chain| == 0 || |open| == 0 then 0
    else if IsEqualMetaStep(chain[0], open[0]) then 1 + FirstMismatch(chain[1..], open[1..])
    else 0
  }

  /** Before the first mismatch the two chains agree position by position. */
  lemma {:induction false} FirstMismatchAgrees(chain: seq<Step>, open: seq<Step>, i: nat)
    requires i < FirstMismatch(chain, open)
    ensures IsEqualMetaStep(chain[i], open[i])
  {
    if i > 0 {
      FirstMismatchAgrees(chain[1..], open[1..], i - 1);
    }
  }

  /** The open entries `startMetaSteps` finishes: everything from the first mismatch on,
      and nothing at all when `chain` matches throughout. */
  function Stale(chain: seq<Step>, open: seq<Step>): seq<Step>
  {
    var m := FirstMismatch(chain, open);
    if m < |chain| then open[m..] else []
  }

  /** The trace after `startMetaSteps` runs on `chain` with `open` held, starting from
      trace `t`, in a test started as `test`. */
  function Reconcile(chain: seq<Step>, open: seq<Step>, t: seq<Action>, test: Option<Id>): seq<Action>
    reads open
  {
    var stale := Stale(chain, open);
    t + FinishSteps(stale) + StartSteps(chain[FirstMismatch(chain, open)..], |t| + |stale|, test)
  }

  /** The retained prefix and the finished entries make up the open chain, each entry
      exactly once; when nothing mismatches, nothing is finished and any longer open
      tail is silently dropped. */
  lemma StaleSplitsOpen(chain: seq<Step>, open: seq<Step>)
    ensures var m := FirstMismatch(chain, open);
      (m < |chain| ==> open[..m] + Stale(chain, open) == open) &&
      (m == |chain| ==> Stale(chain, open) == [])
  {
    var m := FirstMismatch(chain, open);
    assert open[..m] + open[m..] == open;
  }

  /** What `startMetaSteps` finishes slot by slot from the first mismatch on is what
      `finishStep` makes of the stale entries; when nothing mismatches, that is nothing. */
  lemma StaleFinishes(chain: seq<Step>, open: seq<Step>)
    ensures var m := FirstMismatch(chain, open);
      (m < |chain| ==> FinishRange(open, m, |open|) == FinishSteps(Stale(chain, open))) &&
      (m == |chain| ==> FinishSteps(Stale(chain, open)) == [])
  {
    var m := FirstMismatch(chain, open);
    if m < |chain| {
      FinishRangeAllPresent(open, m, |open|);
      assert open[m..|open|] == Stale(chain, open);
    }
  }

  /** The plan is the trace so far, the finishing calls for the stale entries, then the
      starts of the new entries from the first mismatch on. */
  lemma PlanSplits(chain: seq<Step>, open: seq<Step>, t: seq<Action>, test: Option<Id>)
    ensures var m, stale := FirstMismatch(chain, open), FinishSteps(Stale(chain, open));
      Reconcile(chain, open, t, test) == t + stale + StartSteps(chain[m..], |t| + |stale|, test)
  {
  }

  /** The retained prefix is the longest prefix on which the two chains agree. */
  lemma RetainedPrefixIsLongest(chain: seq<Step>, open: seq<Step>, p: nat)
    requires p <= |chain| && p <= |open|
    requires forall i :: 0 <= i < p ==> IsEqualMetaStep(chain[i], open[i])
    ensures p <= FirstMismatch(chain, open)
  {
  }

  /** Appending a call that starts nothing keeps a trace well formed. */
  lemma WellFormedAppendFinish(t: seq<Action>, a: Action)
    requires WellFormed(t) && !a.StartItem?
    ensures WellFormed(t + [a])
  {
    var u := t + [a];
    forall k | 0 <= k < |u|
      ensures StartFits(u, k)
    {
      if k < |t| {
        assert u[k] == t[k] && StartFits(t, k);
      }
    }
  }

  /** Appending calls that start nothing keeps a trace well formed. */
  lemma {:induction false} WellFormedAppendNonStarts(t: seq<Action>, acts: seq<Action>)
    requires WellFormed(t)
    requires forall k :: 0 <= k < |acts| ==> !acts[k].StartItem?
    ensures WellFormed(t + acts)
  {
    if |acts| > 0 {
      var n := |acts| - 1;
      WellFormedAppendNonStarts(t, acts[..n]);
      WellFormedAppendFinish(t + acts[..n], acts[n]);
      assert t + acts == t + acts[..n] + [acts[n]];
    } else {
      assert t + acts == t;
    }
  }

  /** Appending a start whose flag and parent fit keeps a trace well formed. */
  lemma WellFormedAppendStart(t: seq<Action>, a: Action)
    requires WellFormed(t) && a.StartItem? && a.hasStats == HasStats(a.kind)
    requires ParentFits(t + [a], |t|)
    ensures WellFormed(t + [a])
  {
    var u := t + [a];
    forall k | 0 <= k < |u|
      ensures StartFits(u, k)
    {
      if k < |t| {
        assert u[k] == t[k] && StartFits(t, k);
      }
    }
  }

  /** Starting a chain of steps under a test (or a step) keeps a trace well formed: every
      started step hangs under an item started before it. */
  lemma {:induction false} WellFormedAppendStarts(t: seq<Action>, chain: seq<Step>, first: Option<Id>)
    requires WellFormed(t)
    requires Opened(t, first, TestItem, |t|) || Opened(t, first, StepItem, |t|)
    ensures WellFormed(t + StartSteps(chain, |t|, first))
  {
    if |chain| > 0 {
      var n := |chain| - 1;
      var u := t + StartSteps(chain[..n], |t|, first);
      WellFormedAppendStarts(t, chain[..n], first);
      StartStepsCalls(chain[..n], |t|, first);
      var a := StartItem(chain[n].text, StepItem, if n == 0 then first else Some(|t| + n - 1), false);
      assert StartSteps(chain, |t|, first) == StartSteps(chain[..n], |t|, first) + [a];
      if n > 0 {
        assert u[|t| + n - 1] == StartSteps(chain[..n], |t|, first)[n - 1];
      }
      assert ParentFits(u + [a], |u|);
      WellFormedAppendStart(u, a);
      assert t + StartSteps(chain, |t|, first) == u + [a];
    } else {
      assert t + StartSteps(chain, |t|, first) == t;
    }
  }

  /** Finishing calls followed by the starts of a chain under the test keep a
      well-formed trace well formed. */
  lemma PlanWellFormed(t: seq<Action>, stale: seq<Action>, chain: seq<Step>, test: Option<Id>)
    requires WellFormed(t) && Opened(t, test, TestItem, |t|)
    requires forall k :: 0 <= k < |stale| ==> !stale[k].StartItem?
    ensures WellFormed(t + stale + StartSteps(chain, |t| + |stale|, test))
  {
    WellFormedAppendNonStarts(t, stale);
    var u := t + stale;
    assert Opened(u, test, TestItem, |u|);
    WellFormedAppendStarts(u, chain, test);
  }

  /** What `startMetaSteps` adds to a well-formed trace keeps it well formed, and what was
      there before is left alone. */
  lemma ReconcileKeepsWellFormed(chain: seq<Step>, open: seq<Step>, t: seq<Action>, test: Option<Id>)
    requires WellFormed(t) && Opened(t, test, TestItem, |t|)
    ensures WellFormed(Reconcile(chain, open, t, test))
    ensures Reconcile(chain, open, t, test)[..|t|] == t
  {
    FinishStepsCalls(Stale(chain, open));
    PlanWellFormed(t, FinishSteps(Stale(chain, open)), chain[FirstMismatch(chain, open)..], test);
  }

  /** The calls `startMetaSteps` has made once it has handled every position of `chain`
      before `i`, `m` being where it first diverged from the open chain and `stale` the
      finishing calls it made there: the starts of `chain[m..i]`, each under the one
      before it and the first under the test. */
  function Progress(t: seq<Action>, stale: seq<Action>, chain: seq<Step>, m: nat, test: Option<Id>, i: nat): (r: seq<Action>)
    requires m <= i <= |chain|
    decreases i
    ensures |r| == |t| + |stale| + i - m
  {
    if i == m then t + stale
    else
      Progress(t, stale, chain, m, test, i - 1)
        + [StartItem(chain[i - 1].text, StepItem, if i - 1 == m then test else Some(|t| + |stale| + i - 2 - m), false)]
  }

  /** Handling position `i` past the divergence adds one start. */
  lemma ProgressNext(t: seq<Action>, stale: seq<Action>, chain: seq<Step>, m: nat, test: Option<Id>, i: nat)
    requires m <= i < |chain|
    ensures Progress(t, stale, chain, m, test, i + 1) == Progress(t, stale, chain, m, test, i)
      + [StartItem(chain[i].text, StepItem, if i == m then test else Some(|t| + |stale| + i - 1 - m), false)]
  {
  }

  /** Once every position is handled, the calls made are exactly the plan. */
  lemma {:induction false} ProgressIsPlan(t: seq<Action>, stale: seq<Action>, chain: seq<Step>, m: nat, test: Option<Id>, i: nat)
    requires m <= i <= |chain|
    ensures Progress(t, stale, chain, m, test, i) == t + stale + StartSteps(chain[m..i], |t| + |stale|, test)
  {
    if i > m {
      ProgressIsPlan(t, stale, chain, m, test, i - 1);
      assert chain[m..i][..i - 1 - m] == chain[m..i - 1];
    } else {
      assert StartSteps(chain[m..i], |t| + |stale|, test) == [];
    }
  }

  /** The entries of `chain` from `m` on carry the ids `base`, `base + 1`, ... in order:
      the ids the plan gives the steps it starts. */
  ghost predicate Renumbered(chain: seq<Step>, m: nat, base: nat)
    reads chain
  {
    forall k :: m <= k < |chain| ==> chain[k].tempId == Some(base + k - m)
  }

  /** A chain that only grows below the open one finishes nothing and starts the new
      entry under the test, not under the retained entry that wraps it. */
  lemma GrownChainStartsUnderTest(a: Step, b: Step, held: Step, t: seq<Action>, test: Option<Id>)
    requires IsEqualMetaStep(a, held)
    ensures Reconcile([a, b], [held], t, test) == t + [StartItem(b.text, StepItem, test, false)]
  {
    assert FirstMismatch([b], []) == 0;
    assert FirstMismatch([a, b], [held]) == 1 by {
      assert [a, b][1..] == [b] && [held][1..] == [];
    }
    assert [a, b][1..] == [b];
  }

  /** A mismatch at the top finishes the whole open chain outermost first, then starts
      the new chain. */
  lemma MismatchFinishesOutermostFirst(c: Step, a: Step, b: Step, t: seq<Action>, test: Option<Id>)
    requires !IsEqualMetaStep(c, a)
    ensures Reconcile([c], [a, b], t, test)
      == t + [Finish(a), Finish(b), StartItem(c.text, StepItem, test, false)]
  {
    assert FinishSteps([a, b]) == FinishSteps([a]) + [Finish(b)] by {
      assert [a, b][..1] == [a];
    }
  }

  /** A chain that agrees with the open one all along makes no call at all, even where
      its entries are other objects than the held ones. Such an entry is started nowhere
      and never gets an id of its own, although it is held from then on. */
  lemma MatchingChainStartsNothing(chain: seq<Step>, open: seq<Step>, t: seq<Action>, test: Option<Id>)
    requires |chain| <= |open|
    requires forall i :: 0 <= i < |chain| ==> IsEqualMetaStep(chain[i], open[i])
    ensures FirstMismatch(chain, open) == |chain|
    ensures Reconcile(chain, open, t, test) == t
  {
    RetainedPrefixIsLongest(chain, open, |chain|);
    assert chain[|chain|..] == [];
  }

  /** The simplest case: the same unwrapped action twice in a row (`I.click('a')` after
      `I.click('a')`). The second step is reported nowhere. */
  lemma RepeatedStepStartsNothing(first: Step, second: Step, t: seq<Action>, test: Option<Id>)
    requires second.actor == first.actor && second.name == first.name && second.args == first.args
    ensures Reconcile([second], [first], t, test) == t
  {
    MatchingChainStartsNothing([second], [first], t, test);
  }
}
