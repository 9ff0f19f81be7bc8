/** Runs of a step system, and induction along them. */
module Runs {

  /** `steps[i]` leads from `run[i]` to `run[i + 1]`. */
  ghost predicate IsRun<S, T>(next: (S, T, S) -> bool, run: seq<S>, steps: seq<T>) {
    |run| == |steps| + 1 && forall i :: 0 <= i < |steps| ==> next(run[i], steps[i], run[i + 1])
  }

  ghost predicate Kept<S(!new), T(!new)>(next: (S, T, S) -> bool, inv: S -> bool) {
    forall s, t, s' :: inv(s) && next(s, t, s') ==> inv(s')
  }

  /** What holds at one point of a run and is kept by every step holds from there on. */
  lemma {:induction false} HoldsFrom<S(!new), T(!new)>(next: (S, T, S) -> bool, inv: S -> bool, run: seq<S>,
                                                       steps: seq<T>, j: nat, i: nat)
    requires IsRun(next, run, steps) && Kept(next, inv) && j <= i < |run| && inv(run[j])
    ensures inv(run[i])
  {
    if j < i {
      HoldsFrom(next, inv, run, steps, j, i - 1);
      assert next(run[i - 1], steps[i - 1], run[i - 1 + 1]);
    }
  }

  /** A run continued along a chain of states. */
  lemma Continue<S, T>(next: (S, T, S) -> bool, run: seq<S>, steps: seq<T>, states: nat -> S, moves: nat -> T, n: nat)
    returns (run': seq<S>, steps': seq<T>)
    requires IsRun(next, run, steps) && run[|run| - 1] == states(0)
    requires forall k: nat :: k < n ==> next(states(k), moves(k), states(k + 1))
    ensures IsRun(next, run', steps') && run <= run' && steps <= steps'
    ensures |run'| == |run| + n && run'[|run'| - 1] == states(n)
    ensures forall k :: |steps| <= k < |steps'| ==> steps'[k] == moves(k - |steps|)
  {
    run', steps' := run, steps;
    for k := 0 to n
      invariant IsRun(next, run', steps') && run <= run' && steps <= steps'
      invariant |run'| == |run| + k && run'[|run'| - 1] == states(k)
      invariant forall i :: |steps| <= i < |steps'| ==> steps'[i] == moves(i - |steps|)
    {
      run', steps' := run' + [states(k + 1)], steps' + [moves(k)];
    }
  }

  /** A stretch of a run: `n` moves along a chain of states. */
  datatype Phase<!S, !T> = Phase(states: nat -> S, moves: nat -> T, n: nat) {
    function Start(): S {
      states(0)
    }

    function End(): S {
      states(n)
    }
  }

  ghost predicate Valid<S, T>(next: (S, T, S) -> bool, good: T -> bool, p: Phase<S, T>) {
    forall k: nat :: k < p.n ==> next(p.states(k), p.moves(k), p.states(k + 1)) && good(p.moves(k))
  }

  /** Each phase begins where the one before it ended. */
  ghost predicate Linked<S, T>(next: (S, T, S) -> bool, good: T -> bool, phases: seq<Phase<S, T>>) {
    && (forall i :: 0 <= i < |phases| ==> Valid(next, good, phases[i]))
    && forall i :: 0 <= i < |phases| - 1 ==> phases[i].End() == phases[i + 1].Start()
  }

  ghost predicate GoodRun<S, T>(next: (S, T, S) -> bool, good: T -> bool, run: seq<S>, steps: seq<T>) {
    IsRun(next, run, steps) && forall k :: 0 <= k < |steps| ==> good(steps[k])
  }

  lemma {:induction false} RunOfPhases<S, T>(next: (S, T, S) -> bool, good: T -> bool, phases: seq<Phase<S, T>>)
    returns (run: seq<S>, steps: seq<T>)
    requires phases != [] && Linked(next, good, phases)
    ensures GoodRun(next, good, run, steps)
    ensures run[0] == phases[0].Start() && run[|run| - 1] == phases[|phases| - 1].End()
    decreases |phases|
  {
    var n := |phases| - 1;
    var p := phases[n];
    run, steps := [p.Start()], [];
    if n > 0 {
      assert forall i :: 0 <= i < n - 1 ==> phases[..n][i].End() == phases[i].End() == phases[i + 1].Start();
      run, steps := RunOfPhases(next, good, phases[..n]);
      assert phases[n - 1].End() == phases[n - 1 + 1].Start();
    }
    var was, did := run, steps;
    run, steps := Continue(next, run, steps, p.states, p.moves, p.n);
    forall k | 0 <= k < |steps| ensures good(steps[k]) {
      if k < |did| {
        assert steps[k] == did[k];
      } else {
        assert good(p.moves(k - |did|));
      }
    }
    assert run[0] == was[0];
  }

  lemma Join<S, T>(next: (S, T, S) -> bool, good: T -> bool, run: seq<S>, steps: seq<T>, run': seq<S>, steps': seq<T>)
    requires GoodRun(next, good, run, steps) && GoodRun(next, good, run', steps') && run[|run| - 1] == run'[0]
    ensures GoodRun(next, good, run + run'[1..], steps + steps')
  {
    var r, s := run + run'[1..], steps + steps';
    forall i | 0 <= i < |s| ensures next(r[i], s[i], r[i + 1]) && good(s[i]) {
      if i < |steps| {
        assert next(run[i], steps[i], run[i + 1]);
      } else {
        var k := i - |steps|;
        assert next(run'[k], steps'[k], run'[k + 1]);
      }
    }
  }

  lemma LinkedConcat<S, T>(next: (S, T, S) -> bool, good: T -> bool, a: seq<Phase<S, T>>, b: seq<Phase<S, T>>)
    requires a != [] && b != [] && Linked(next, good, a) && Linked(next, good, b) && a[|a| - 1].End() == b[0].Start()
    ensures Linked(next, good, a + b)
  {
    var all := a + b;
    forall i | 0 <= i < |all| - 1 ensures all[i].End() == all[i + 1].Start() {
      if i >= |a| {
        assert b[i - |a|].End() == b[i - |a| + 1].Start();
      }
    }
  }

  /** Two linked lists of phases in a row; `j` is where they meet. */
  lemma RunOfTwo<S, T>(next: (S, T, S) -> bool, good: T -> bool, a: seq<Phase<S, T>>, b: seq<Phase<S, T>>)
    returns (run: seq<S>, steps: seq<T>, j: nat)
    requires a != [] && b != [] && Linked(next, good, a) && Linked(next, good, b) && a[|a| - 1].End() == b[0].Start()
    ensures GoodRun(next, good, run, steps) && j < |run|
    ensures run[0] == a[0].Start() && run[j] == a[|a| - 1].End() && run[|run| - 1] == b[|b| - 1].End()
  {
    var first, moves := RunOfPhases(next, good, a);
    var second, more := RunOfPhases(next, good, b);
    Join(next, good, first, moves, second, more);
    run, steps, j := first + second[1..], moves + more, |first| - 1;
    assert |second| == 1 ==> second[0] == second[|second| - 1];
  }
}
