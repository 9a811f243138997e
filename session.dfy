/** The reporter plugin of one run: the state its event handlers share and the handlers
    themselves, each one atomic. */
module Session {
  import opened Common
  import opened Statuses
  import opened MetaSteps
  import opened Trace

  /** A suite or test object of the runner; the reporter writes its backend id into it. */
  class Item {
    const title: string
    var tempId: Option<Id>

    constructor (title: string)
      ensures this.title == title && tempId == None
    {
      this.title := title;
      tempId := None;
    }
  }

  /** The variables the plugin's handlers close over, and the calls made on the client. */
  class Reporter {
    /** Every call made on the reporting client so far. */
    var trace: seq<Action>
    /** `launchObj.tempId`, `suiteObj.tempId`, `testObj.tempId`. */
    var launchId: Option<Id>
    var suiteId: Option<Id>
    var testId: Option<Id>
    var suiteStatus: string
    var launchStatus: string
    /** The meta-step chain currently open in the backend, outermost first. */
    var currentMetaSteps: seq<Step>

    ghost predicate Valid()
      reads this
    {
      WellFormed(trace) &&
      (launchId.Some? ==> launchId.value < |trace| && trace[launchId.value] == StartLaunch) &&
      (suiteId.Some? ==> Opened(trace, suiteId, SuiteItem, |trace|)) &&
      (testId.Some? ==> Opened(trace, testId, TestItem, |trace|)) &&
      (suiteStatus == PASSED || suiteStatus == FAILED) &&
      (launchStatus == PASSED || launchStatus == FAILED)
    }

    /** The plugin as created from its configuration: nothing reported yet. */
    constructor ()
      ensures Valid()
      ensures trace == [] && launchId == None && suiteId == None && testId == None
      ensures suiteStatus == PASSED && launchStatus == PASSED && currentMetaSteps == []
    {
      trace := [];
      launchId, suiteId, testId := None, None, None;
      suiteStatus, launchStatus := PASSED, PASSED;
      currentMetaSteps := [];
    }

    /** `startTestItem`: start an item, STEP items without statistics. */
    method StartTestItem(title: string, kind: ItemType, parent: Option<Id>) returns (id: Id)
      requires Valid()
      requires ParentFits(trace + [StartItem(title, kind, parent, HasStats(kind))], |trace|)
      modifies this`trace
      ensures Valid()
      ensures id == |old(trace)|
      ensures trace == old(trace) + [StartItem(title, kind, parent, HasStats(kind))]
    {
      id := |trace|;
      var a := StartItem(title, kind, parent, HasStats(kind));
      WellFormedAppendStart(trace, a);
      trace := trace + [a];
    }

    /** Append a call that starts nothing. */
    method Call(a: Action)
      requires Valid() && !a.StartItem?
      modifies this`trace
      ensures Valid()
      ensures trace == old(trace) + [a]
    {
      WellFormedAppendFinish(trace, a);
      trace := trace + [a];
    }

    /** `finishStep`: finish a present step with its translated status; an absent one
        (a deleted slot) is ignored. */
    method FinishStep(step: Step?)
      requires Valid()
      modifies this`trace
      ensures Valid()
      ensures step == null ==> trace == old(trace)
      ensures step != null ==> trace == old(trace) + [FinishItem(step.tempId, RpStatus(step.status))]
    {
      if step == null {
        return;
      }
      Call(Finish(step));
    }

    /** `event.all.before`: start the launch. */
    method AllBefore()
      requires Valid()
      modifies this
      ensures Valid()
      ensures launchId == Some(|old(trace)|) && trace == old(trace) + [StartLaunch]
      ensures suiteId == old(suiteId) && testId == old(testId)
      ensures suiteStatus == old(suiteStatus) && launchStatus == old(launchStatus)
      ensures currentMetaSteps == old(currentMetaSteps)
    {
      launchId := Some(|trace|);
      trace := trace + [StartLaunch];
      WellFormedAppendFinish(old(trace), StartLaunch);
    }

    /** `event.suite.before`: start the suite at the top of the tree and give it a fresh
        PASSED status; the launch status is left as it is. */
    method SuiteBefore(suite: Item)
      requires Valid() && launchId.Some?
      modifies this, suite
      ensures Valid()
      ensures trace == old(trace) + [StartItem(suite.title, SuiteItem, None, true)]
      ensures suiteId == Some(|old(trace)|) && suite.tempId == suiteId
      ensures suiteStatus == PASSED && launchStatus == old(launchStatus)
      ensures launchId == old(launchId) && testId == old(testId)
      ensures currentMetaSteps == old(currentMetaSteps)
    {
      var id := StartTestItem(suite.title, SuiteItem, None);
      suiteId := Some(id);
      suite.tempId := suiteId;
      suiteStatus := PASSED;
    }

    /** `event.test.before`: forget the open chain without finishing any of it, then start
        the test under the current suite. */
    method TestBefore(test: Item)
      requires Valid() && launchId.Some? && suiteId.Some?
      modifies this, test
      ensures Valid()
      ensures currentMetaSteps == []
      ensures trace == old(trace) + [StartItem(test.title, TestItem, suiteId, true)]
      ensures testId == Some(|old(trace)|) && test.tempId == testId
      ensures launchId == old(launchId) && suiteId == old(suiteId)
      ensures suiteStatus == old(suiteStatus) && launchStatus == old(launchStatus)
    {
      currentMetaSteps := [];
      var id := StartTestItem(test.title, TestItem, suiteId);
      testId := Some(id);
      test.tempId := testId;
    }

    /** `startMetaSteps`, all that `event.step.before` does: collect the chain of `step`,
        then bring the open chain up to it. Only the entries from the first mismatch on
        get new ids: the frame leaves the others alone. */
    method StartMetaSteps(step: Step)
      requires Valid() && launchId.Some? && testId.Some? && Linked(step)
      modifies this`trace, this`currentMetaSteps
      modifies Chain(step)[FirstMismatch(Chain(step), currentMetaSteps)..]`tempId
      ensures Valid()
      ensures currentMetaSteps == Chain(step)
      ensures trace == old(Reconcile(Chain(step), currentMetaSteps, trace, testId))
    {
      var metaSteps := MetaStepsToArray(step);
      SwitchChain(metaSteps);
    }

    /** The body of `startMetaSteps` once the chain is collected: compare it with the open
        one position by position; at the first mismatch finish every open entry from there
        on, outermost first, and start every new entry from there on, outermost first, the
        first under the test and each later one under the one started before it; then hold
        the new chain. The new entries are numbered in order.
        The source deletes slots of the held array during the loop and assigns the new
        chain after it. Here the loop works on a local copy `held` of the held chain, and
        the field takes the new chain before the loop. No step of the loop reads the
        field, so the calls made and the final state are the same. */
    method SwitchChain(metaSteps: seq<Step>)
      requires Valid() && testId.Some?
      requires forall k :: 0 <= k < |metaSteps| ==> metaSteps[k].depth == k
      modifies this`trace, this`currentMetaSteps
      modifies metaSteps[FirstMismatch(metaSteps, currentMetaSteps)..]`tempId
      ensures Valid()
      ensures currentMetaSteps == metaSteps
      ensures trace == old(Reconcile(metaSteps, currentMetaSteps, trace, testId))
      ensures Renumbered(metaSteps, FirstMismatch(metaSteps, old(currentMetaSteps)),
                         |old(trace)| + |Stale(metaSteps, old(currentMetaSteps))|)
    {
      ghost var t0 := trace;
      ghost var open := currentMetaSteps;
      ghost var m := FirstMismatch(metaSteps, open);
      ghost var staleActs := FinishSteps(Stale(metaSteps, open));
      PlanSplits(metaSteps, open, t0, testId);
      Planned(metaSteps, open, m, staleActs);
      var held := currentMetaSteps;
      currentMetaSteps := metaSteps;
      var cur, lastId := Walk(metaSteps, held, open, t0, staleActs, m);
      ProgressedToTheEnd(metaSteps, cur, lastId, open, t0, staleActs, m);
    }

    /** Before the loop of `startMetaSteps` nothing has happened yet. */
    lemma Planned(metaSteps: seq<Step>, open: seq<Step>, m: nat, staleActs: seq<Action>)
      requires Valid() && testId.Some? && open == currentMetaSteps
      requires m == FirstMismatch(metaSteps, open) && staleActs == FinishSteps(Stale(metaSteps, open))
      ensures Progressed(metaSteps, 0, open, None, open, trace, staleActs, m)
    {
      StaleFinishes(metaSteps, open);
    }

    /** The loop of `startMetaSteps`, one position of the new chain at a time. */
    method Walk(metaSteps: seq<Step>, held: seq<Step>, ghost open: seq<Step>, ghost t0: seq<Action>,
                ghost staleActs: seq<Action>, ghost m: nat)
      returns (cur: seq<Step?>, lastId: Option<Id>)
      requires Progressed(metaSteps, 0, held, None, open, t0, staleActs, m)
      requires m == FirstMismatch(metaSteps, open)
      requires forall k :: 0 <= k < |metaSteps| ==> metaSteps[k].depth == k
      modifies this`trace, metaSteps[m..]`tempId
      ensures Progressed(metaSteps, |metaSteps|, cur, lastId, open, t0, staleActs, m)
    {
      cur, lastId := held, None;
      var i := 0;
      while i < |metaSteps|
        invariant Progressed(metaSteps, i, cur, lastId, open, t0, staleActs, m)
      {
        cur, lastId := Visit(metaSteps, i, cur, lastId, open, t0, staleActs, m);
        i := i + 1;
      }
    }

    /** Where `startMetaSteps` stands once it has handled the positions of `metaSteps`
        before `i`: up to the first mismatch `m` nothing has happened; after it the held
        slots from `m` on are deleted, the stale entries are finished, the entries from
        `m` to `i` are started in order, and the last of them is the parent of the next. */
    ghost predicate Progressed(metaSteps: seq<Step>, i: nat, cur: seq<Step?>, lastId: Option<Id>,
                               open: seq<Step>, t0: seq<Action>, staleActs: seq<Action>, m: nat)
      reads this, metaSteps, open
    {
      var base := |t0| + |staleActs|;
      Valid() && testId.Some? && i <= |metaSteps| && |cur| == |open| && m <= |metaSteps| &&
      (i <= m ==> cur == open && trace == t0 && lastId == None) &&
      (i <= m < |metaSteps| ==> FinishRange(open, m, |open|) == staleActs) &&
      (m == |metaSteps| ==> staleActs == []) &&
      (m < i ==>
        (forall k :: 0 <= k < |cur| ==> cur[k] == if k < m then open[k] else null) &&
        trace == Progress(t0, staleActs, metaSteps, m, testId, i) &&
        lastId == Some(base + i - 1 - m) && Opened(trace, lastId, StepItem, |trace|)) &&
      (forall k :: m <= k < i ==> metaSteps[k].tempId == Some(base + k - m))
    }

    /** When every position is handled, the calls made are those of the plan. */
    lemma ProgressedToTheEnd(metaSteps: seq<Step>, cur: seq<Step?>, lastId: Option<Id>,
                             open: seq<Step>, t0: seq<Action>, staleActs: seq<Action>, m: nat)
      requires Progressed(metaSteps, |metaSteps|, cur, lastId, open, t0, staleActs, m)
      ensures trace == t0 + staleActs + StartSteps(metaSteps[m..], |t0| + |staleActs|, testId)
      ensures Renumbered(metaSteps, m, |t0| + |staleActs|)
    {
      if m < |metaSteps| {
        ProgressIsPlan(t0, staleActs, metaSteps, m, testId, |metaSteps|);
        assert metaSteps[m..|metaSteps|] == metaSteps[m..];
      } else {
        assert StartSteps(metaSteps[m..], |t0| + |staleActs|, testId) == [];
      }
    }

    /** One pass of the loop of `startMetaSteps`: an entry that matches the held slot is
        left alone (that only happens before the first mismatch), any other is started. */
    method Visit(metaSteps: seq<Step>, i: nat, cur: seq<Step?>, lastId: Option<Id>,
                 ghost open: seq<Step>, ghost t0: seq<Action>, ghost staleActs: seq<Action>, ghost m: nat)
      returns (next: seq<Step?>, nextId: Option<Id>)
      requires Progressed(metaSteps, i, cur, lastId, open, t0, staleActs, m)
      requires i < |metaSteps| && m == FirstMismatch(metaSteps, open)
      requires forall k :: 0 <= k < |metaSteps| ==> metaSteps[k].depth == k
      modifies this`trace, metaSteps[m..]`tempId
      ensures Progressed(metaSteps, i + 1, next, nextId, open, t0, staleActs, m)
    {
      if IsEqualMetaStep(metaSteps[i], At(cur, i)) {
        next, nextId := cur, lastId;
      } else {
        if i < m {
          FirstMismatchAgrees(metaSteps, open, i);
        }
        next, nextId := StartNext(metaSteps, i, cur, lastId, open, t0, staleActs, m);
      }
    }

    /** One pass of the loop of `startMetaSteps` at a position from the first mismatch on:
        the next entry is started and recorded. */
    method StartNext(metaSteps: seq<Step>, i: nat, cur: seq<Step?>, lastId: Option<Id>,
                     ghost open: seq<Step>, ghost t0: seq<Action>, ghost staleActs: seq<Action>, ghost m: nat)
      returns (closed: seq<Step?>, started: Option<Id>)
      requires Progressed(metaSteps, i, cur, lastId, open, t0, staleActs, m)
      requires m <= i < |metaSteps|
      requires forall k :: 0 <= k < |metaSteps| ==> metaSteps[k].depth == k
      modifies this`trace, metaSteps[i..i + 1]`tempId
      ensures Progressed(metaSteps, i + 1, closed, started, open, t0, staleActs, m)
    {
      ghost var base := |t0| + |staleActs|;
      ghost var finishes := FinishRange(cur, i, |cur|);
      if i > m {
        FinishRangeAllDeleted(cur, i, |cur|);
      }
      assert trace + finishes == Progress(t0, staleActs, metaSteps, m, testId, i);
      ProgressNext(t0, staleActs, metaSteps, m, testId, i);
      closed, started := Renew(cur, i, metaSteps[i], lastId);
      assert trace == Progress(t0, staleActs, metaSteps, m, testId, i + 1);
      assert forall k :: m <= k < i ==> metaSteps[k] != metaSteps[i];
    }

    /** The body of `startMetaSteps` at a mismatch at position `i`: close the held slots
        from `i` on, then start `metaStep` under the step started before it, or under the
        test when it is the first, and record its id on it. */
    method Renew(cur: seq<Step?>, i: nat, metaStep: Step, lastId: Option<Id>)
      returns (closed: seq<Step?>, started: Option<Id>)
      requires Valid() && testId.Some?
      requires lastId.Some? ==> Opened(trace, lastId, StepItem, |trace|)
      modifies this`trace, metaStep`tempId
      ensures Valid()
      ensures |closed| == |cur|
      ensures forall k :: 0 <= k < |cur| ==> closed[k] == if k < i then cur[k] else null
      ensures trace == old(trace + FinishRange(cur, i, |cur|))
        + [StartItem(metaStep.text, StepItem, if lastId.Some? then lastId else testId, false)]
      ensures started == Some(|trace| - 1) && Opened(trace, started, StepItem, |trace|)
      ensures metaStep.tempId == started
    {
      closed := CloseCurrent(cur, i);
      var id := StartTestItem(metaStep.text, StepItem, if lastId.Some? then lastId else testId);
      started := Some(id);
      metaStep.tempId := started;
    }

    /** The inner loop of `startMetaSteps`: finish every held slot from `lo` on and
        delete it; deleted slots are finished no more. */
    method CloseCurrent(cur: seq<Step?>, lo: nat) returns (closed: seq<Step?>)
      requires Valid()
      modifies this`trace
      ensures Valid()
      ensures |closed| == |cur|
      ensures forall k :: 0 <= k < |cur| ==> closed[k] == if k < lo then cur[k] else null
      ensures trace == old(trace) + FinishRange(cur, lo, |cur|)
    {
      closed := cur;
      var j := lo;
      while j < |cur|
        invariant lo <= j && |closed| == |cur|
        invariant forall k :: 0 <= k < |cur| ==> closed[k] == if lo <= k < j then null else cur[k]
        invariant Valid()
        invariant trace == old(trace) + FinishRange(cur, lo, if j < |cur| then j else |cur|)
      {
        FinishStep(closed[j]);
        closed := closed[j := null];
        j := j + 1;
      }
    }

    /** `event.step.after`: finish the step itself. */
    method StepAfter(step: Step)
      requires Valid() && launchId.Some?
      modifies this`trace
      ensures Valid()
      ensures trace == old(trace) + [FinishItem(step.tempId, RpStatus(step.status))]
    {
      FinishStep(step);
    }

    /** `event.step.failed`: mark every open entry `failed`. */
    method StepFailed()
      requires Valid()
      modifies currentMetaSteps
      ensures forall k :: 0 <= k < |currentMetaSteps| ==> currentMetaSteps[k].status == Some(STEP_FAILED)
      ensures forall k :: 0 <= k < |currentMetaSteps| ==>
        currentMetaSteps[k].tempId == old(currentMetaSteps[k].tempId)
    {
      for i := 0 to |currentMetaSteps|
        invariant forall k :: 0 <= k < i ==> currentMetaSteps[k].status == Some(STEP_FAILED)
        invariant forall k :: 0 <= k < |currentMetaSteps| ==>
          currentMetaSteps[k].tempId == old(currentMetaSteps[k].tempId)
      {
        currentMetaSteps[i].status := Some(STEP_FAILED);
      }
    }

    /** `event.step.passed`: mark every open entry `passed`, whatever it was before. */
    method StepPassed()
      requires Valid()
      modifies currentMetaSteps
      ensures forall k :: 0 <= k < |currentMetaSteps| ==> currentMetaSteps[k].status == Some(STEP_PASSED)
      ensures forall k :: 0 <= k < |currentMetaSteps| ==>
        currentMetaSteps[k].tempId == old(currentMetaSteps[k].tempId)
    {
      for i := 0 to |currentMetaSteps|
        invariant forall k :: 0 <= k < i ==> currentMetaSteps[k].status == Some(STEP_PASSED)
        invariant forall k :: 0 <= k < |currentMetaSteps| ==>
          currentMetaSteps[k].tempId == old(currentMetaSteps[k].tempId)
      {
        currentMetaSteps[i].status := Some(STEP_PASSED);
      }
    }

    /** `event.test.failed`: the suite and the launch have failed; finish the test FAILED. */
    method TestFailed(test: Item)
      requires Valid() && launchId.Some?
      modifies this
      ensures Valid()
      ensures suiteStatus == FAILED && launchStatus == FAILED
      ensures trace == old(trace) + [FinishItem(test.tempId, Some(FAILED))]
      ensures launchId == old(launchId) && suiteId == old(suiteId) && testId == old(testId)
      ensures currentMetaSteps == old(currentMetaSteps)
    {
      launchStatus := FAILED;
      suiteStatus := FAILED;
      Call(FinishItem(test.tempId, Some(FAILED)));
    }

    /** `event.test.passed`: finish the test PASSED; no status is raised back. */
    method TestPassed(test: Item)
      requires Valid() && launchId.Some?
      modifies this`trace
      ensures Valid()
      ensures trace == old(trace) + [FinishItem(test.tempId, Some(PASSED))]
    {
      Call(FinishItem(test.tempId, Some(PASSED)));
    }

    /** `event.test.after`: finish every entry of the open chain, outermost first, and
        keep holding the chain. */
    method TestAfter()
      requires Valid() && launchId.Some?
      modifies this`trace
      ensures Valid()
      ensures trace == old(trace) + FinishSteps(currentMetaSteps)
    {
      for i := 0 to |currentMetaSteps|
        invariant Valid()
        invariant trace == old(trace) + FinishSteps(currentMetaSteps[..i])
      {
        assert currentMetaSteps[..i + 1][..i] == currentMetaSteps[..i];
        FinishStep(currentMetaSteps[i]);
      }
      assert currentMetaSteps[..|currentMetaSteps|] == currentMetaSteps;
    }

    /** `event.suite.after`: finish the suite with its translated status. */
    method SuiteAfter(suite: Item)
      requires Valid() && launchId.Some?
      modifies this`trace
      ensures Valid()
      ensures trace == old(trace) + [FinishItem(suite.tempId, RpStatus(Some(suiteStatus)))]
    {
      Call(FinishItem(suite.tempId, RpStatus(Some(suiteStatus))));
    }

    /** `event.all.result`: finish the current suite (again) with its status, then the
        launch with the launch status. Without a suite the queued work fails on the missing
        suite before making any call, and the launch stays open. */
    method AllResult()
      requires Valid() && launchId.Some?
      modifies this`trace
      ensures Valid()
      ensures suiteId.None? ==> trace == old(trace)
      ensures suiteId.Some? ==>
        trace == old(trace) + [FinishItem(suiteId, Some(suiteStatus)), FinishLaunch(launchId.value, launchStatus)]
    {
      if suiteId.None? {
        return;
      }
      Call(FinishItem(suiteId, Some(suiteStatus)));
      Call(FinishLaunch(launchId.value, launchStatus));
    }
  }
}
