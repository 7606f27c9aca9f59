/** Runs of a step relation, and two ways to reason about all of them. */
module Runs {

  ghost predicate Run<S(!new), E(!new)>(step: (S, E, S) -> bool, states: seq<S>, events: seq<E>) {
    && |states| == |events| + 1
    && forall i :: 0 <= i < |events| ==> Taken(step, states, events, i)
  }

  /** Event i leads from state i to the next. */
  ghost predicate Taken<S(!new), E(!new)>(step: (S, E, S) -> bool, states: seq<S>, events: seq<E>, i: nat)
    requires i < |events| && |states| == |events| + 1
  {
    step(states[i], events[i], states[i + 1])
  }

  /** A run goes on with any step from its last state. */
  lemma Snoc<S(!new), E(!new)>(step: (S, E, S) -> bool, states: seq<S>, events: seq<E>, e: E, s: S)
    requires Run(step, states, events) && step(states[|events|], e, s)
    ensures Run(step, states + [s], events + [e])
  {
    var states', events' := states + [s], events + [e];
    forall i | 0 <= i < |events'| ensures Taken(step, states', events', i) {
      assert i < |events| ==> Taken(step, states, events, i);
    }
  }

  /** What one step keeps, every run keeps. */
  lemma {:induction false} Invariant<S(!new), E(!new)>(step: (S, E, S) -> bool, inv: S -> bool,
                                                      states: seq<S>, events: seq<E>, i: nat, j: nat)
    requires Run(step, states, events) && i <= j <= |events| && inv(states[i])
    requires forall m :: i <= m < j && inv(states[m]) && step(states[m], events[m], states[m + 1]) ==> inv(states[m + 1])
    ensures inv(states[j])
    decreases j - i
  {
    if i < j {
      assert Taken(step, states, events, i);
      Invariant(step, inv, states, events, i + 1, j);
    }
  }

  /** What every step keeps unless it loses it either lasts from i to j or is lost on the way. */
  lemma {:induction false} LostOrKept<S(!new), E(!new)>(step: (S, E, S) -> bool, p: S -> bool, loses: (S, E) -> bool,
                                                       states: seq<S>, events: seq<E>, i: nat, j: nat) returns (m: nat)
    requires Run(step, states, events) && i <= j <= |events| && p(states[i])
    requires forall s, e, s' :: p(s) && !loses(s, e) && step(s, e, s') ==> p(s')
    ensures i <= m <= j && p(states[m]) && (m < j ==> loses(states[m], events[m]))
    decreases j - i
  {
    m := i;
    if i < j {
      assert Taken(step, states, events, i);
      if !loses(states[i], events[i]) {
        m := LostOrKept(step, p, loses, states, events, i + 1, j);
      }
    }
  }

  /** Induction on the number of steps. */
  lemma {:induction false} Stepwise(p: nat -> bool, n: nat)
    requires p(0) && forall i: nat :: i < n && p(i) ==> p(i + 1)
    ensures p(n)
  {
    if n > 0 {
      Stepwise(p, n - 1);
    }
  }
}
