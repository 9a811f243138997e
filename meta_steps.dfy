/** CodeceptJS steps, the `metaStep` links that wrap them, the linearizer that unwinds
    those links, and the identity test that decides whether two steps are the same. */
module MetaSteps {
  import opened Common

  /** A step or meta-step object of the test runner. What identifies it (actor, name,
      arguments) and what wraps it (`metaStep`) never change; the reporter writes the
      backend id into `tempId` and the runner and reporter write `status`. */
  class Step {
    const actor: string
    const name: string
    /** The arguments, each as `Array.prototype.join` renders it. */
    const args: seq<string>
    /** What `toString()` gives: the name the item is reported under. */
    const text: string
    const metaStep: Step?
    /** Number of wrappers above this step; only there to show that the links end and
        that a chain holds no step twice. */
    ghost const depth: nat
    var tempId: Option<Id>
    var status: Option<string>

    constructor (actor: string, name: string, args: seq<string>, text: string, metaStep: Step?)
      requires metaStep != null ==> Linked(metaStep)
      ensures this.actor == actor && this.name == name && this.args == args
      ensures this.text == text && this.metaStep == metaStep
      ensures tempId == None && status == None
      ensures Linked(this)
    {
      this.actor := actor;
      this.name := name;
      this.args := args;
      this.text := text;
      this.metaStep := metaStep;
      this.depth := if metaStep == null then 0 else metaStep.depth + 1;
      tempId := None;
      status := None;
    }
  }

  /** The `metaStep` links above `s` are finite and acyclic. */
  ghost predicate Linked(s: Step)
    decreases s.depth
  {
    if s.metaStep == null then s.depth == 0
    else s.depth == s.metaStep.depth + 1 && Linked(s.metaStep)
  }

  /** Number of `metaStep` links above `s`. */
  function Links(s: Step): nat
    requires Linked(s)
    decreases s.depth
  {
    if s.metaStep == null then 0 else 1 + Links(s.metaStep)
  }

  /** The steps `iterateMetaSteps` hands to its callback, in the order it hands them:
      the outermost wrapper first, `s` itself last. */
  function Chain(s: Step): (r: seq<Step>)
    requires Linked(s)
    decreases s.depth
    ensures |r| == Links(s) + 1
    ensures r[|r| - 1] == s
    ensures r[0].metaStep == null
    ensures forall i {:trigger r[i].metaStep} :: 0 < i < |r| ==> r[i - 1] == r[i].metaStep
    ensures forall i :: 0 <= i < |r| ==> r[i].depth == i
  {
    if s.metaStep == null then [s] else Chain(s.metaStep) + [s]
  }

  /** `iterateMetaSteps(step, fn)` with `fn` pushing onto an array that already holds
      `visited`: first the wrappers of `step` are visited, then `step` is pushed. */
  method IterateMetaSteps(step: Step, visited: seq<Step>) returns (pushed: seq<Step>)
    requires Linked(step)
    decreases step.depth
    ensures pushed == visited + Chain(step)
  {
    pushed := visited;
    if step.metaStep != null {
      pushed := IterateMetaSteps(step.metaStep, pushed);
    }
    pushed := pushed + [step];
  }

  /** `metaStepsToArray`: collect what `iterateMetaSteps` visits into a fresh array. */
  method MetaStepsToArray(step: Step) returns (metaSteps: seq<Step>)
    requires Linked(step)
    ensures metaSteps == Chain(step)
  {
    metaSteps := [];
    metaSteps := IterateMetaSteps(step, metaSteps);
  }

  /** `Array.prototype.join(',')` on rendered arguments. */
  function Join(args: seq<string>): string
  {
    if |args| == 0 then ""
    else if |args| == 1 then args[0]
    else args[0] + "," + Join(args[1..])
  }

  predicate CommaFree(s: string)
  {
    forall i :: 0 <= i < |s| ==> s[i] != ','
  }

  /** `isEqualMetaStep`: two absent steps are equal, an absent and a present one are
      not, and two present ones are equal when actor, name and joined arguments agree. */
  predicate IsEqualMetaStep(a: Step?, b: Step?)
  {
    if a == null && b == null then true
    else if a == null || b == null then false
    else a.actor == b.actor && a.name == b.name && Join(a.args) == Join(b.args)
  }

  lemma IsEqualMetaStepAbsent(a: Step?, b: Step?)
    ensures a == null && b == null ==> IsEqualMetaStep(a, b)
    ensures (a == null) != (b == null) ==> !IsEqualMetaStep(a, b)
  {
  }

  /** On present steps the identity test is an equivalence relation. */
  lemma IsEqualMetaStepEquivalence(a: Step, b: Step, c: Step)
    ensures IsEqualMetaStep(a, a)
    ensures IsEqualMetaStep(a, b) == IsEqualMetaStep(b, a)
    ensures IsEqualMetaStep(a, b) && IsEqualMetaStep(b, c) ==> IsEqualMetaStep(a, c)
  {
  }

  /** Comparing joined arguments confuses a comma inside an argument with the separator:
      `['a,b']` is the same as `['a', 'b']`. */
  lemma IsEqualMetaStepCommaCollision(a: Step, b: Step)
    requires a.actor == b.actor && a.name == b.name
    requires a.args == ["a,b"] && b.args == ["a", "b"]
    ensures IsEqualMetaStep(a, b)
  {
    assert Join(b.args) == "a" + "," + Join(["b"]);
  }

  /** ... and no arguments at all is the same as one empty argument. */
  lemma IsEqualMetaStepEmptyCollision(a: Step, b: Step)
    requires a.actor == b.actor && a.name == b.name
    requires a.args == [] && b.args == [""]
    ensures IsEqualMetaStep(a, b)
  {
  }

  /** Position of the first comma in `s`, or `|s|` when there is none. */
  function FirstComma(s: string): (r: nat)
    ensures r <= |s|
  {
    if |s| == 0 then 0 else if s[0] == ',' then 0 else 1 + FirstComma(s[1..])
  }

  lemma {:induction false} FirstCommaAfter(x: string, u: string)
    requires CommaFree(x)
    requires u == [] || u[0] == ','
    ensures FirstComma(x + u) == |x|
  {
    if |x| > 0 {
      assert (x + u)[1..] == x[1..] + u;
      FirstCommaAfter(x[1..], u);
    }
  }

  lemma CommaFreeHeadsAgree(x: string, y: string, u: string, v: string)
    requires CommaFree(x) && CommaFree(y)
    requires u == [] || u[0] == ','
    requires v == [] || v[0] == ','
    requires x + u == y + v
    ensures x == y && u == v
  {
    FirstCommaAfter(x, u);
    FirstCommaAfter(y, v);
    assert x == (x + u)[..|x|] && y == (y + v)[..|y|];
    assert u == (x + u)[|x|..] && v == (y + v)[|y|..];
  }

  /** Without commas inside arguments, and with at least one argument each, joining
      loses nothing: equal joins mean equal argument lists. */
  lemma {:induction false} JoinInjective(a: seq<string>, b: seq<string>)
    requires |a| >= 1 && |b| >= 1
    requires forall i :: 0 <= i < |a| ==> CommaFree(a[i])
    requires forall i :: 0 <= i < |b| ==> CommaFree(b[i])
    ensures Join(a) == Join(b) <==> a == b
  {
    if Join(a) == Join(b) {
      var u := if |a| == 1 then "" else "," + Join(a[1..]);
      var v := if |b| == 1 then "" else "," + Join(b[1..]);
      assert Join(a) == a[0] + u;
      assert Join(b) == b[0] + v;
      CommaFreeHeadsAgree(a[0], b[0], u, v);
      if |a| > 1 && |b| > 1 {
        assert Join(a[1..]) == u[1..] && Join(b[1..]) == v[1..];
        JoinInjective(a[1..], b[1..]);
        assert a == [a[0]] + a[1..] && b == [b[0]] + b[1..];
      }
    }
  }

  /** So for such arguments the identity test is exact: same actor, name and arguments. */
  lemma IsEqualMetaStepExact(a: Step, b: Step)
    requires |a.args| >= 1 && |b.args| >= 1
    requires forall i :: 0 <= i < |a.args| ==> CommaFree(a.args[i])
    requires forall i :: 0 <= i < |b.args| ==> CommaFree(b.args[i])
    ensures IsEqualMetaStep(a, b) <==> a.actor == b.actor && a.name == b.name && a.args == b.args
  {
    JoinInjective(a.args, b.args);
  }
}
