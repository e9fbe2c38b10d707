/** Runs of a step system: states in a row, each following from the one before by
    a step. */
module Runs {

  ghost predicate IsSegment<S, T>(next: (S, T, S) -> bool, states: seq<S>, steps: seq<T>) {
    |states| == |steps| + 1 && forall i | 0 <= i < |steps| :: next(states[i], steps[i], states[i + 1])
  }

  ghost predicate IsInductive<S(!new), T(!new)>(next: (S, T, S) -> bool, inv: S -> bool) {
    forall s, step, s' :: inv(s) && next(s, step, s') ==> inv(s')
  }

  // What the steps keep holds all along the run.
  lemma {:induction false} SegmentKeeps<S(!new), T(!new)>(next: (S, T, S) -> bool, inv: S -> bool, states: seq<S>, steps: seq<T>, i: nat)
    requires IsSegment(next, states, steps) && IsInductive(next, inv) && inv(states[0]) && i < |states|
    ensures inv(states[i])
  {
    if i > 0 {
      SegmentKeeps(next, inv, states, steps, i - 1);
      assert next(states[i - 1], steps[i - 1], states[i - 1 + 1]);
    }
  }
}
