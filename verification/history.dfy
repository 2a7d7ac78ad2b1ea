/**
 The list of board states kept by an engine and the loop that extends it:
 each iteration appends the step of the most recent state. The step is a
 parameter, so the same loop serves the tuple engine and the `Point` engine.
 */
module History {
  import opened Exceptions
  import Iteration

  /** The state at index `i` of a history is the step of the state before it. */
  ghost predicate SteppedAt<S>(states: seq<S>, i: int, step: S -> S)
    requires 0 < i < |states|
  {
    states[i] == step(states[i - 1])
  }

  /**
   The history after `iterations` more rounds. A count of zero or less appends
   nothing; taking the last state of an empty history throws.
   */
  function RunIterations<S>(states: seq<S>, iterations: int, step: S -> S): (r: Result<seq<S>>)
    ensures iterations <= 0 ==> r == Success(states)
    ensures iterations > 0 && |states| == 0 ==> r == Throws(EmptySequence)
    ensures iterations > 0 && |states| > 0 ==>
      && r.Success?
      && |r.value| == |states| + iterations
      && r.value[..|states|] == states
      && forall i :: |states| <= i < |r.value| ==> SteppedAt(r.value, i, step)
    decreases iterations
  {
    if iterations <= 0 then Success(states)
    else if |states| == 0 then Throws(EmptySequence)
    else
      var next := states + [step(states[|states| - 1])];
      var r := RunIterations(next, iterations - 1, step);
      assert r.value[..|next|] == next;
      assert r.value[..|states|] == next[..|states|];
      r
  }

  /** Running `a` and then `b` iterations gives the same history as running `a + b`. */
  lemma {:induction false} RunIterationsCompose<S>(states: seq<S>, a: nat, b: nat, step: S -> S)
    requires |states| > 0
    ensures RunIterations(states, a, step).Success?
    ensures RunIterations(states, a + b, step) == RunIterations(RunIterations(states, a, step).value, b, step)
    decreases a
  {
    if a > 0 {
      var next := states + [step(states[|states| - 1])];
      RunIterationsCompose(next, a - 1, b, step);
      assert RunIterations(states, a + b, step) == RunIterations(next, a - 1 + b, step);
    }
  }

  /** A state the step leaves unchanged repeats in every appended position. */
  lemma {:induction false} FixedPointRepeats<S>(states: seq<S>, iterations: int, step: S -> S)
    requires |states| > 0 && step(states[|states| - 1]) == states[|states| - 1]
    ensures RunIterations(states, iterations, step).Success?
    ensures var r := RunIterations(states, iterations, step).value;
      forall i :: |states| <= i < |r| ==> r[i] == states[|states| - 1]
  {
    var r := RunIterations(states, iterations, step).value;
    forall i | |states| <= i < |r|
      ensures r[i] == states[|states| - 1]
    {
      FixedPointAt(states, iterations, step, i);
    }
  }

  /** One position of `FixedPointRepeats`, by induction on the position. */
  lemma {:induction false} FixedPointAt<S>(states: seq<S>, iterations: int, step: S -> S, i: int)
    requires |states| > 0 && step(states[|states| - 1]) == states[|states| - 1]
    requires |states| - 1 <= i < |states| + iterations
    ensures RunIterations(states, iterations, step).Success?
    ensures RunIterations(states, iterations, step).value[i] == states[|states| - 1]
    decreases i
  {
    var r := RunIterations(states, iterations, step).value;
    if i == |states| - 1 {
      if iterations > 0 {
        assert r[i] == r[..|states|][i];
      }
    } else {
      FixedPointAt(states, iterations, step, i - 1);
      assert SteppedAt(r, i, step);
    }
  }

  /**
   Seen through `view`, a history whose step maps onto `next` runs `next`:
   the `j`-th appended state shows `next` applied `j` times to the last given one,
   as long as that state is `good` and the step keeps states good.
   */
  lemma {:induction false} RunIterationsView<S, T>(states: seq<S>, iterations: int, step: S -> S,
                                                   view: S -> T, next: T -> T, good: S -> bool, j: nat)
    requires |states| > 0 && j <= iterations
    requires good(states[|states| - 1])
    requires forall s :: good(s) ==> good(step(s)) && view(step(s)) == next(view(s))
    ensures RunIterations(states, iterations, step).Success?
    ensures var r := RunIterations(states, iterations, step).value;
      good(r[|states| - 1 + j]) && view(r[|states| - 1 + j]) == Iteration.Iterate(next, view(states[|states| - 1]), j)
  {
    var r := RunIterations(states, iterations, step).value;
    var k := |states| - 1 + j;
    if j == 0 {
      if iterations > 0 {
        assert r[k] == r[..|states|][k];
      }
    } else {
      RunIterationsView(states, iterations, step, view, next, good, j - 1);
      assert SteppedAt(r, k, step);
    }
  }
}
