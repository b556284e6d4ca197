/** Runs of a transition system and the induction principle used for every state machine here. */
module Runs {

  /** A run starts in an initial state and every neighbouring pair is one step. */
  ghost predicate IsRun<S(!new)>(init: S -> bool, next: (S, S) -> bool, run: seq<S>) {
    && |run| > 0
    && init(run[0])
    && forall i :: 0 <= i < |run| - 1 ==> next(run[i], run[i + 1])
  }

  /** `s` is the last state of some run. */
  ghost predicate Reachable<S(!new)>(init: S -> bool, next: (S, S) -> bool, s: S) {
    exists run :: IsRun(init, next, run) && run[|run| - 1] == s
  }

  /** A property that holds initially and is kept by every step holds throughout every run. */
  lemma {:induction false} Throughout<S(!new)>(
    init: S -> bool, next: (S, S) -> bool, inv: S -> bool, run: seq<S>, k: nat)
    requires IsRun(init, next, run)
    requires forall s :: init(s) ==> inv(s)
    requires forall s, s' :: inv(s) && next(s, s') ==> inv(s')
    requires k < |run|
    ensures inv(run[k])
  {
    if k > 0 {
      Throughout(init, next, inv, run, k - 1);
      assert next(run[k - 1], run[k - 1 + 1]);
    }
  }

  /** A property that holds once, and that every step keeps while the run stays inside some states, holds on there. */
  lemma {:induction false} Onwards<S(!new)>(
    init: S -> bool, next: (S, S) -> bool, inside: S -> bool, inv: S -> bool, run: seq<S>, k: nat, m: nat)
    requires IsRun(init, next, run) && k <= m < |run| && inv(run[k])
    requires forall s, s' :: inv(s) && next(s, s') && inside(s') ==> inv(s')
    requires forall x :: k < x <= m ==> inside(run[x])
    ensures inv(run[m])
    decreases m
  {
    if k < m {
      Onwards(init, next, inside, inv, run, k, m - 1);
      assert next(run[m - 1], run[m - 1 + 1]);
    }
  }

  lemma ReachableInvariant<S(!new)>(init: S -> bool, next: (S, S) -> bool, inv: S -> bool, s: S)
    requires Reachable(init, next, s)
    requires forall s :: init(s) ==> inv(s)
    requires forall s, s' :: inv(s) && next(s, s') ==> inv(s')
    ensures inv(s)
  {
    var run :| IsRun(init, next, run) && run[|run| - 1] == s;
    Throughout(init, next, inv, run, |run| - 1);
  }

  /** A step from a reachable state leads to a reachable state. */
  lemma ReachableStep<S(!new)>(init: S -> bool, next: (S, S) -> bool, s: S, s': S)
    requires Reachable(init, next, s) && next(s, s')
    ensures Reachable(init, next, s')
  {
    var run :| IsRun(init, next, run) && run[|run| - 1] == s;
    var longer := run + [s'];
    assert forall i :: 0 <= i < |longer| - 1 ==> next(longer[i], longer[i + 1]);
    assert IsRun(init, next, longer) && longer[|longer| - 1] == s';
  }

  lemma ReachableInit<S(!new)>(init: S -> bool, next: (S, S) -> bool, s: S)
    requires init(s)
    ensures Reachable(init, next, s)
  {
    var run := [s];
    assert IsRun(init, next, run) && run[|run| - 1] == s;
  }
}
