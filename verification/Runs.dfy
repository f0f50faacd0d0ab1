/**
 Runs of a state machine: a step is None when the action cannot happen in the state.
 */
module Runs {
  import opened Wrappers

  predicate Possible<S, A>(step: (S, A) -> Option<S>, s: S, actions: seq<A>)
    decreases |actions|
  {
    actions == [] ||
    (step(s, actions[0]).Some? && Possible(step, step(s, actions[0]).value, actions[1..]))
  }

  function After<S, A>(step: (S, A) -> Option<S>, s: S, actions: seq<A>): S
    requires Possible(step, s, actions)
    decreases |actions|
  {
    if actions == [] then s else After(step, step(s, actions[0]).value, actions[1..])
  }

  /** What every step keeps, every run keeps. */
  lemma {:induction false} Keeps<S(!new), A(!new)>(step: (S, A) -> Option<S>, inv: S -> bool, s: S, actions: seq<A>)
    requires inv(s) && Possible(step, s, actions)
    requires forall t, a :: inv(t) && step(t, a).Some? ==> inv(step(t, a).value)
    ensures inv(After(step, s, actions))
    decreases |actions|
  {
    if actions != [] {
      Keeps(step, inv, step(s, actions[0]).value, actions[1..]);
    }
  }

  lemma Nothing<S, A>(step: (S, A) -> Option<S>, s: S)
    ensures Possible(step, s, []) && After(step, s, []) == s
  {
  }

  lemma Prepend<S, A>(step: (S, A) -> Option<S>, s: S, a: A, more: seq<A>)
    requires step(s, a).Some?
    ensures Possible(step, s, [a] + more) <==> Possible(step, step(s, a).value, more)
    ensures Possible(step, s, [a] + more) ==> After(step, s, [a] + more) == After(step, step(s, a).value, more)
  {
    assert ([a] + more)[1..] == more;
  }

  lemma {:induction false} Append<S, A>(step: (S, A) -> Option<S>, s: S, before: seq<A>, more: seq<A>)
    requires Possible(step, s, before)
    ensures Possible(step, s, before + more) <==> Possible(step, After(step, s, before), more)
    ensures Possible(step, s, before + more) ==>
              After(step, s, before + more) == After(step, After(step, s, before), more)
    decreases |before|
  {
    if before == [] {
      assert before + more == more;
    } else {
      assert (before + more)[1..] == before[1..] + more;
      Append(step, step(s, before[0]).value, before[1..], more);
    }
  }

  // ---------------------------------------------------------------------------------------
  // Goals.

  predicate Reaches<S, A>(step: (S, A) -> Option<S>, goal: S -> bool, s: S, actions: seq<A>) {
    Possible(step, s, actions) && goal(After(step, s, actions))
  }

  /** Some run leads to the goal. */
  ghost predicate CanReach<S(!new), A(!new)>(step: (S, A) -> Option<S>, goal: S -> bool, s: S) {
    exists actions: seq<A> :: Reaches(step, goal, s, actions)
  }

  lemma AlreadyThere<S(!new), A(!new)>(step: (S, A) -> Option<S>, goal: S -> bool, s: S)
    requires goal(s)
    ensures CanReach(step, goal, s)
  {
    assert Reaches(step, goal, s, []);
  }

  /** An action that leads to a state from which the goal can be reached. */
  lemma Toward<S(!new), A(!new)>(step: (S, A) -> Option<S>, goal: S -> bool, s: S, a: A)
    requires step(s, a).Some? && CanReach(step, goal, step(s, a).value)
    ensures CanReach(step, goal, s)
  {
    var more :| Reaches(step, goal, step(s, a).value, more);
    Prepend(step, s, a, more);
    assert Reaches(step, goal, s, [a] + more);
  }

  /** A run that leads to such a state. */
  lemma TowardRun<S(!new), A(!new)>(step: (S, A) -> Option<S>, goal: S -> bool, s: S, actions: seq<A>)
    requires Possible(step, s, actions) && CanReach(step, goal, After(step, s, actions))
    ensures CanReach(step, goal, s)
  {
    var more :| Reaches(step, goal, After(step, s, actions), more);
    Append(step, s, actions, more);
    assert Reaches(step, goal, s, actions + more);
  }

  /** What every step keeps, and what excludes the goal, excludes it for ever. */
  lemma NeverThere<S(!new), A(!new)>(step: (S, A) -> Option<S>, inv: S -> bool, goal: S -> bool, s: S)
    requires inv(s) && forall t :: inv(t) ==> !goal(t)
    requires forall t, a :: inv(t) && step(t, a).Some? ==> inv(step(t, a).value)
    ensures !CanReach(step, goal, s)
  {
    forall actions: seq<A> | Possible(step, s, actions)
      ensures !goal(After(step, s, actions))
    {
      Keeps(step, inv, s, actions);
    }
  }

  lemma ThreeSteps<S, A>(step: (S, A) -> Option<S>, s: S, a: A, b: A, c: A)
    requires step(s, a).Some? && step(step(s, a).value, b).Some?
    requires step(step(step(s, a).value, b).value, c).Some?
    ensures var run := [a] + ([b] + ([c] + []));
            Possible(step, s, run) && After(step, s, run) == step(step(step(s, a).value, b).value, c).value
  {
    hide Possible, After;
    var t, u := step(s, a).value, step(step(s, a).value, b).value;
    Nothing(step, step(u, c).value);
    Prepend(step, u, c, []);
    Prepend(step, t, b, [c] + []);
    Prepend(step, s, a, [b] + ([c] + []));
  }
}
