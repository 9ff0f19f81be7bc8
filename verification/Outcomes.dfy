/** What a read hands to the client, told from the answers alone. */
module Outcomes {
  import opened VClock
  import opened Siblings
  import opened ReadMerge
  import opened Lists
  import opened Quorum
  import Runs

  // ----- siblings by answer and position -----

  /** Answer `a` has a sibling at position `i`. */
  predicate Arrived(answers: seq<Answer>, a: nat, i: nat) {
    a < |answers| && answers[a].Answer? && i < |answers[a].siblings|
  }

  function SiblingAt(answers: seq<Answer>, a: nat, i: nat): Sibling
    requires Arrived(answers, a, i)
  {
    answers[a].siblings[i]
  }

  predicate Earlier(b: nat, j: nat, a: nat, i: nat) {
    b < a || (b == a && j < i)
  }

  /** No earlier sibling has the same counters. */
  ghost predicate ArrivesFirst(answers: seq<Answer>, a: nat, i: nat)
    requires Arrived(answers, a, i)
  {
    forall b: nat, j: nat :: Arrived(answers, b, j) && Earlier(b, j, a, i) ==>
      Counters(SiblingAt(answers, b, j).clock) != Counters(SiblingAt(answers, a, i).clock)
  }

  /** No sibling of any answer happens after `x`. */
  ghost predicate NothingAfter(answers: seq<Answer>, x: Sibling) {
    forall b: nat, j: nat :: Arrived(answers, b, j) ==>
      Compare(x.clock, SiblingAt(answers, b, j).clock) != Before
  }

  ghost predicate FirstOfItsClock(answers: seq<Answer>, x: Sibling) {
    exists a: nat, i: nat :: Arrived(answers, a, i) && SiblingAt(answers, a, i) == x && ArrivesFirst(answers, a, i)
  }

  /** A sibling that the client is to see. */
  ghost predicate Stands(answers: seq<Answer>, x: Sibling) {
    !x.tombstone && FirstOfItsClock(answers, x) && NothingAfter(answers, x)
  }

  function Replies(answers: seq<Answer>): set<int> {
    set i | 0 <= i < |answers| && answers[i].Answer?
  }

  /** The client is told that too few replicas answered exactly when fewer than `r` did, and otherwise gets each
      sibling that stands, once, or not-found when none does. */
  ghost predicate RightOutcome(r: nat, answers: seq<Answer>, outcome: ReadOutcome) {
    && (outcome.TooFewAnswers? <==> |Replies(answers)| < r)
    && (outcome.NotFound? <==> |Replies(answers)| >= r && forall x :: !Stands(answers, x))
    && (outcome.Found? ==>
          && (forall x :: x in outcome.siblings <==> Stands(answers, x))
          && Antichain(outcome.siblings))
  }

  // ----- places in the gathered sequence -----

  function Place(answers: seq<Answer>, a: nat, i: nat): nat
    requires Arrived(answers, a, i)
  {
    |AllSiblings(answers[..a])| + i
  }

  lemma {:induction false} PlaceHolds(answers: seq<Answer>, a: nat, i: nat)
    requires Arrived(answers, a, i)
    ensures Place(answers, a, i) < |AllSiblings(answers)|
    ensures AllSiblings(answers)[Place(answers, a, i)] == SiblingAt(answers, a, i)
  {
    var n := |answers| - 1;
    if a < n {
      PlaceHolds(answers[..n], a, i);
      assert answers[..n][..a] == answers[..a];
    }
  }

  lemma {:induction false} PlaceFound(answers: seq<Answer>, k: nat) returns (a: nat, i: nat)
    requires k < |AllSiblings(answers)|
    ensures Arrived(answers, a, i) && Place(answers, a, i) == k
  {
    var n := |answers| - 1;
    var before := |AllSiblings(answers[..n])|;
    if k < before {
      a, i := PlaceFound(answers[..n], k);
      assert answers[..n][..a] == answers[..a];
    } else {
      a, i := n, k - before;
    }
  }

  lemma {:induction false} GatheredGrows(answers: seq<Answer>, b: nat, a: nat)
    requires b < a <= |answers|
    ensures |AllSiblings(answers[..b])| + (if answers[b].Answer? then |answers[b].siblings| else 0)
            <= |AllSiblings(answers[..a])|
    decreases a
  {
    assert answers[..a][..a - 1] == answers[..a - 1];
    if b < a - 1 {
      GatheredGrows(answers, b, a - 1);
    }
  }

  lemma PlacesInOrder(answers: seq<Answer>, b: nat, j: nat, a: nat, i: nat)
    requires Arrived(answers, b, j) && Arrived(answers, a, i)
    ensures Place(answers, b, j) < Place(answers, a, i) <==> Earlier(b, j, a, i)
  {
    if b < a {
      GatheredGrows(answers, b, a);
    } else if a < b {
      GatheredGrows(answers, a, b);
    }
  }

  // ----- the merge, place by place -----

  lemma DominatedIff(answers: seq<Answer>, x: Sibling)
    ensures Dominated(x, AllSiblings(answers)) <==> !NothingAfter(answers, x)
  {
    var all := AllSiblings(answers);
    if Dominated(x, all) {
      var k :| 0 <= k < |all| && Compare(x.clock, all[k].clock) == Before;
      var b, j := PlaceFound(answers, k);
      PlaceHolds(answers, b, j);
    }
    if !NothingAfter(answers, x) {
      var b: nat, j: nat :| Arrived(answers, b, j) && Compare(x.clock, SiblingAt(answers, b, j).clock) == Before;
      PlaceHolds(answers, b, j);
    }
  }

  lemma NoneBeforeIff(answers: seq<Answer>, a: nat, i: nat)
    requires Arrived(answers, a, i)
    ensures Place(answers, a, i) < |AllSiblings(answers)|
    ensures NoneBefore(AllSiblings(answers), Place(answers, a, i)) <==> ArrivesFirst(answers, a, i)
  {
    var all, k, x := AllSiblings(answers), Place(answers, a, i), SiblingAt(answers, a, i);
    PlaceHolds(answers, a, i);
    if NoneBefore(all, k) {
      forall b: nat, j: nat | Arrived(answers, b, j) && Earlier(b, j, a, i)
        ensures Counters(SiblingAt(answers, b, j).clock) != Counters(x.clock)
      {
        PlaceHolds(answers, b, j);
        PlacesInOrder(answers, b, j, a, i);
        EqualIffSameCounters(x.clock, SiblingAt(answers, b, j).clock);
      }
    }
    if ArrivesFirst(answers, a, i) {
      forall l | 0 <= l < k ensures !SameCounters(all[k].clock, all[l].clock) {
        var b, j := PlaceFound(answers, l);
        PlaceHolds(answers, b, j);
        PlacesInOrder(answers, b, j, a, i);
        EqualIffSameCounters(x.clock, all[l].clock);
      }
    }
  }

  lemma IsFirstIff(answers: seq<Answer>, x: Sibling)
    ensures IsFirst(AllSiblings(answers), x) <==> FirstOfItsClock(answers, x)
  {
    var all := AllSiblings(answers);
    if IsFirst(all, x) {
      var k :| 0 <= k < |all| && all[k] == x && NoneBefore(all, k);
      var a, i := PlaceFound(answers, k);
      PlaceHolds(answers, a, i);
      NoneBeforeIff(answers, a, i);
    }
    if FirstOfItsClock(answers, x) {
      var a: nat, i: nat :|
        Arrived(answers, a, i) && SiblingAt(answers, a, i) == x && ArrivesFirst(answers, a, i);
      PlaceHolds(answers, a, i);
      NoneBeforeIff(answers, a, i);
    }
  }

  /** A first arrival that nothing dominates is itself merged, not just another sibling with its clock. */
  lemma FirstIsMerged(all: seq<Sibling>, x: Sibling)
    requires IsFirst(all, x) && !Dominated(x, all)
    ensures x in Maximal(all)
  {
    var m := Maximal(all);
    var k :| 0 <= k < |all| && all[k] == x && NoneBefore(all, k);
    MaximalRepresents(all, k);
    var p :| 0 <= p < |m| && SameCounters(x.clock, m[p].clock);
    MaximalKeepsFirst(all);
    assert m[p] in m && IsFirst(all, m[p]);
    var l :| 0 <= l < |all| && all[l] == m[p] && NoneBefore(all, l);
    assert SameCounters(all[l].clock, all[k].clock);
    assert k == l;
  }

  lemma MergedIff(answers: seq<Answer>, x: Sibling)
    ensures x in Maximal(AllSiblings(answers)) <==> FirstOfItsClock(answers, x) && NothingAfter(answers, x)
  {
    var all := AllSiblings(answers);
    DominatedIff(answers, x);
    IsFirstIff(answers, x);
    if x in Maximal(all) {
      MaximalIsAntichain(all);
      MaximalKeepsFirst(all);
    }
    if FirstOfItsClock(answers, x) && NothingAfter(answers, x) {
      FirstIsMerged(all, x);
    }
  }

  lemma {:induction false} LiveAntichain(m: seq<Sibling>)
    requires Antichain(m)
    ensures Antichain(Live(m))
  {
    if m != [] {
      var n := |m| - 1;
      LiveAntichain(m[..n]);
      var f := Live(m[..n]);
      FilterMembers(NotTombstone, m[..n]);
      forall i | 0 <= i < |f|
        ensures Compare(f[i].clock, m[n].clock) == Compare(m[n].clock, f[i].clock) == Concurrent
      {
        assert f[i] in f;
        var k :| 0 <= k < n && m[..n][k] == f[i];
        assert m[k] == f[i];
      }
    }
  }

  lemma {:induction false} SuccessesCount(answers: seq<Answer>)
    ensures Successes(answers) == |Replies(answers)|
  {
    if answers != [] {
      var n := |answers| - 1;
      SuccessesCount(answers[..n]);
      var before := Replies(answers[..n]);
      assert Replies(answers) == if answers[n].Answer? then before + {n} else before;
    }
  }

  /** The coordinator's evaluation is right for every list of answers. */
  lemma ReadResultIsRight(cfg: Config, answers: seq<Answer>)
    ensures RightOutcome(cfg.r, answers, ReadResult(cfg, answers))
  {
    var m := Maximal(AllSiblings(answers));
    var visible := Live(m);
    SuccessesCount(answers);
    MaximalIsAntichain(AllSiblings(answers));
    LiveAntichain(m);
    FilterMembers(NotTombstone, m);
    forall x ensures x in visible <==> Stands(answers, x) {
      MergedIff(answers, x);
    }
    if visible != [] {
      assert visible[0] in visible;
    }
  }

  // ----- every run -----

  ghost predicate Evaluated(cfg: Config, s: State) {
    forall get :: get in s.gets && s.gets[get].outcome.Some? ==>
      s.gets[get].outcome.value == ReadResult(cfg, s.gets[get].answers)
  }

  lemma StepKeepsEvaluated(cfg: Config, s: State, step: Step, s': State)
    requires Evaluated(cfg, s) && Next(cfg, s, step, s')
    ensures Evaluated(cfg, s')
  {
  }

  /** Whatever else happens in a run, what a read returned is right for the answers it had. */
  lemma EveryOutcomeIsRight(cfg: Config, run: seq<State>, steps: seq<Step>, i: nat, get: OpId)
    requires Runs.IsRun(AnySteps(cfg), run, steps) && run[0] == INITIAL && i < |run| && get in run[i].gets
    requires run[i].gets[get].outcome.Some?
    ensures RightOutcome(cfg.r, run[i].gets[get].answers, run[i].gets[get].outcome.value)
  {
    var inv := s => Evaluated(cfg, s);
    forall s, step, s' | inv(s) && AnySteps(cfg)(s, step, s') ensures inv(s') {
      StepKeepsEvaluated(cfg, s, step, s');
    }
    Runs.HoldsFrom(AnySteps(cfg), inv, run, steps, 0, i);
    ReadResultIsRight(cfg, run[i].gets[get].answers);
  }
}
