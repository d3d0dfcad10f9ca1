/** Runs of a state machine, given by the relation between a state, a step and the next state. */
module Runs {
  predicate StepAt<S, T>(next: (S, T, S) -> bool, states: seq<S>, steps: seq<T>, k: nat)
    requires k < |steps| && |states| == |steps| + 1
  {
    next(states[k], steps[k], states[k + 1])
  }

  /** `states[k]` takes `steps[k]` to `states[k + 1]`. */
  predicate IsRun<S, T>(next: (S, T, S) -> bool, states: seq<S>, steps: seq<T>) {
    |states| == |steps| + 1 && forall k | 0 <= k < |steps| :: StepAt(next, states, steps, k)
  }

  ghost predicate Reaches<S(!new), T(!new)>(next: (S, T, S) -> bool, s: S, t: S) {
    exists states: seq<S>, steps: seq<T> :: IsRun(next, states, steps) && states[0] == s && states[|steps|] == t
  }

  lemma ReachesSelf<S(!new), T(!new)>(next: (S, T, S) -> bool, s: S)
    ensures Reaches(next, s, s)
  {
    assert IsRun(next, [s], []);
  }

  lemma RunGrows<S, T>(next: (S, T, S) -> bool, states: seq<S>, steps: seq<T>, step: T, t: S)
    requires IsRun(next, states, steps) && next(states[|steps|], step, t)
    ensures IsRun(next, states + [t], steps + [step])
  {
    var states', steps' := states + [t], steps + [step];
    forall k | 0 <= k < |steps'| ensures StepAt(next, states', steps', k) {
      assert k < |steps| ==> StepAt(next, states, steps, k);
    }
  }

  lemma ReachesOn<S(!new), T(!new)>(next: (S, T, S) -> bool, s: S, t: S, step: T, u: S)
    requires Reaches(next, s, t) && next(t, step, u)
    ensures Reaches(next, s, u)
  {
    var states: seq<S>, steps: seq<T> :| IsRun(next, states, steps) && states[0] == s && states[|steps|] == t;
    RunGrows(next, states, steps, step, u);
    assert (states + [u])[|steps + [step]|] == u;
  }
}
