/** Runs of a transition system, which is given by what a step makes of a state: None when it is not enabled. */
module StateMachine {
  import opened Wrappers

  predicate Runs<S, T>(next: (S, T) -> Option<S>, s: S, steps: seq<T>)
    decreases |steps|
  {
    steps == [] || (next(s, steps[0]).Some? && Runs(next, next(s, steps[0]).value, steps[1..]))
  }

  function After<S, T>(next: (S, T) -> Option<S>, s: S, steps: seq<T>): S
    requires Runs(next, s, steps)
    decreases |steps|
  {
    if steps == [] then s else After(next, next(s, steps[0]).value, steps[1..])
  }

  lemma {:induction false} AfterBoth<S, T>(next: (S, T) -> Option<S>, s: S, a: seq<T>, b: seq<T>)
    requires Runs(next, s, a + b)
    ensures Runs(next, s, a) && Runs(next, After(next, s, a), b)
    ensures After(next, s, a + b) == After(next, After(next, s, a), b)
    decreases |a|
  {
    if a == [] {
      assert a + b == b;
    } else {
      assert (a + b)[1..] == a[1..] + b;
      AfterBoth(next, next(s, a[0]).value, a[1..], b);
    }
  }

  lemma {:induction false} OneMore<S, T>(next: (S, T) -> Option<S>, s: S, steps: seq<T>, step: T)
    requires Runs(next, s, steps) && next(After(next, s, steps), step).Some?
    ensures Runs(next, s, steps + [step])
    ensures After(next, s, steps + [step]) == next(After(next, s, steps), step).value
    decreases |steps|
  {
    if steps == [] {
      assert [step][1..] == [] && [] + [step] == [step];
    } else {
      assert (steps + [step])[1..] == steps[1..] + [step];
      OneMore(next, next(s, steps[0]).value, steps[1..], step);
    }
  }

  lemma NoSteps<S, T>(next: (S, T) -> Option<S>, s: S)
    ensures Runs(next, s, []) && After(next, s, []) == s
  {}
}
