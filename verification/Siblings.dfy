/** Sibling sets: reconciliation on a replica, and the causal cover it preserves. */
module Siblings {
  import opened Common
  import opened VClock
  import opened ClockText
  import Dedup

  datatype Sibling = Sibling(value: Bytes, clock: Clock, timestamp: Int64, tombstone: bool, expiresAt: Int64)

  /** The causal cover: clocks at or below some stored clock. */
  predicate Covers(s: seq<Sibling>, c: Clock) {
    exists i :: 0 <= i < |s| && Leq(c, s[i].clock)
  }

  lemma CoveredBy(s: seq<Sibling>, i: nat, c: Clock)
    requires i < |s| && Leq(c, s[i].clock)
    ensures Covers(s, c)
  {
  }

  predicate Plain(s: seq<Sibling>) {
    forall i :: 0 <= i < |s| ==> PlainClock(s[i].clock)
  }

  // ----- specification -----

  predicate Superseded(e: Sibling, incoming: seq<Sibling>) {
    exists i :: 0 <= i < |incoming| && Compare(incoming[i].clock, e.clock) == After
  }

  /** The existing siblings that no incoming one happens after. */
  function Surviving(existing: seq<Sibling>, incoming: seq<Sibling>): seq<Sibling> {
    if existing == [] then [] else
      var n := |existing| - 1;
      var rest := Surviving(existing[..n], incoming);
      if Superseded(existing[n], incoming) then rest else rest + [existing[n]]
  }

  /** What reconciliation deduplicates. */
  function Candidates(existing: seq<Sibling>, incoming: seq<Sibling>): seq<Sibling> {
    incoming + Surviving(existing, incoming)
  }

  /** Deduplication compares the textual form of clocks. */
  function Key(x: Sibling): Bytes {
    ClockString(x.clock)
  }

  function Reconcile(existing: seq<Sibling>, incoming: seq<Sibling>): seq<Sibling> {
    if existing == [] then incoming
    else if incoming == [] then existing
    else Dedup.ByKey(Key, Candidates(existing, incoming))
  }

  // ----- the loops of the storage engine -----

  method ReconcileSiblings(existing: seq<Sibling>, incoming: seq<Sibling>) returns (r: seq<Sibling>)
    ensures r == Reconcile(existing, incoming)
  {
    if |existing| == 0 {
      return incoming;
    }
    if |incoming| == 0 {
      return existing;
    }
    var merged := incoming;
    for i := 0 to |existing|
      invariant merged == incoming + Surviving(existing[..i], incoming)
    {
      assert existing[..i + 1][..i] == existing[..i];
      var obsolete := false;
      var j := 0;
      while j < |incoming| && !obsolete
        invariant 0 <= j <= |incoming|
        invariant obsolete ==> Superseded(existing[i], incoming)
        invariant !obsolete ==> forall k :: 0 <= k < j ==> Compare(incoming[k].clock, existing[i].clock) != After
      {
        if Compare(incoming[j].clock, existing[i].clock) == After {
          obsolete := true;
        }
        j := j + 1;
      }
      if !obsolete {
        merged := merged + [existing[i]];
      }
    }
    assert existing[..|existing|] == existing;
    r := Dedup.Run(Key, merged);
  }

  // ----- reconciliation keeps exactly the cover of both sides -----

  lemma {:induction false} SurvivingFrom(existing: seq<Sibling>, incoming: seq<Sibling>)
    ensures forall x :: x in Surviving(existing, incoming) <==> x in existing && !Superseded(x, incoming)
  {
    if existing != [] {
      var n := |existing| - 1;
      SurvivingFrom(existing[..n], incoming);
      assert existing == existing[..n] + [existing[n]];
    }
  }

  /** Deduplication removes repeated clocks and nothing else. */
  lemma DedupKeepsClocks(s: seq<Sibling>, x: Sibling) returns (y: Sibling)
    requires Plain(s) && x in s
    ensures y in Dedup.ByKey(Key, s) && y.clock == x.clock
  {
    y := Dedup.ByKeyKeepsKey(Key, s, x);
    ClockStringInjective(y.clock, x.clock);
  }

  lemma CoversMember(s: seq<Sibling>, x: Sibling, c: Clock)
    requires x in s && Leq(c, x.clock)
    ensures Covers(s, c)
  {
    var i :| 0 <= i < |s| && s[i] == x;
    CoveredBy(s, i, c);
  }

  lemma ReconcileFrom(existing: seq<Sibling>, incoming: seq<Sibling>)
    ensures forall x :: x in Reconcile(existing, incoming) ==> x in existing || x in incoming
  {
    if existing != [] && incoming != [] {
      Dedup.ByKeyFrom(Key, Candidates(existing, incoming));
      SurvivingFrom(existing, incoming);
    }
  }

  lemma ReconcileIsPlain(existing: seq<Sibling>, incoming: seq<Sibling>)
    requires Plain(existing) && Plain(incoming)
    ensures Plain(Reconcile(existing, incoming))
  {
    ReconcileFrom(existing, incoming);
    var r := Reconcile(existing, incoming);
    forall i | 0 <= i < |r| ensures PlainClock(r[i].clock) {
      assert r[i] in r;
    }
  }

  /** The first incoming sibling itself is kept. */
  lemma ReconcileKeepsHead(existing: seq<Sibling>, incoming: seq<Sibling>)
    requires incoming != []
    ensures incoming[0] in Reconcile(existing, incoming)
  {
    if existing != [] {
      Dedup.ByKeyKeepsHead(Key, Candidates(existing, incoming));
    }
  }

  /** Every clock of either side is at or below a clock that is kept. */
  lemma ReconcileKeepsMember(existing: seq<Sibling>, incoming: seq<Sibling>, x: Sibling)
    requires Plain(existing) && Plain(incoming)
    requires x in existing || x in incoming
    ensures Covers(Reconcile(existing, incoming), x.clock)
  {
    var r := Reconcile(existing, incoming);
    if existing == [] || incoming == [] {
      CoversMember(r, x, x.clock);
    } else {
      SurvivingFrom(existing, incoming);
      var all := Candidates(existing, incoming);
      var keep := x;
      if x !in all {
        var i :| 0 <= i < |incoming| && Compare(incoming[i].clock, x.clock) == After;
        keep := incoming[i];
      }
      PlainCandidates(existing, incoming);
      var y := DedupKeepsClocks(all, keep);
      CoversMember(r, y, x.clock);
    }
  }

  /** Reconciliation keeps the union of both covers, and adds nothing to it. */
  lemma ReconcileCover(existing: seq<Sibling>, incoming: seq<Sibling>, c: Clock)
    requires Plain(existing) && Plain(incoming)
    ensures Covers(Reconcile(existing, incoming), c) <==> Covers(existing, c) || Covers(incoming, c)
  {
    var r := Reconcile(existing, incoming);
    if Covers(r, c) {
      var i :| 0 <= i < |r| && Leq(c, r[i].clock);
      ReconcileFrom(existing, incoming);
      assert r[i] in r;
      CoversMember(if r[i] in existing then existing else incoming, r[i], c);
    }
    if Covers(existing, c) || Covers(incoming, c) {
      var side := if Covers(existing, c) then existing else incoming;
      var i :| 0 <= i < |side| && Leq(c, side[i].clock);
      assert side[i] in side;
      ReconcileKeepsMember(existing, incoming, side[i]);
      var j :| 0 <= j < |r| && Leq(side[i].clock, r[j].clock);
      LeqTransitive(c, side[i].clock, r[j].clock);
      CoveredBy(r, j, c);
    }
  }

  lemma PlainCandidates(existing: seq<Sibling>, incoming: seq<Sibling>)
    requires Plain(existing) && Plain(incoming)
    ensures Plain(Candidates(existing, incoming))
  {
    SurvivingFrom(existing, incoming);
    var all := Candidates(existing, incoming);
    forall i | 0 <= i < |all| ensures PlainClock(all[i].clock) {
      assert all[i] in all;
    }
  }

  predicate Overrides(w: Sibling, existing: seq<Sibling>) {
    forall e :: e in existing ==> Compare(w.clock, e.clock) == After || e.clock == w.clock
  }

  /** A write that happens after each stored clock, or repeats it, is all that remains. */
  lemma OverridingWriteCollapses(existing: seq<Sibling>, w: Sibling)
    requires Overrides(w, existing)
    ensures Reconcile(existing, [w]) == [w]
  {
    if existing != [] {
      var kept := Surviving(existing, [w]);
      var all := [w] + kept;
      SurvivingFrom(existing, [w]);
      forall x | x in all ensures Key(x) == Key(all[0]) {
        assert [w][0] == w;
        assert x in kept ==> x.clock == w.clock;
      }
      Dedup.ByKeyOneKey(Key, all);
    }
  }

  lemma CollapseNeedsOverride(existing: seq<Sibling>, w: Sibling, e: Sibling)
    requires Plain(existing) && PlainClock(w.clock)
    requires Reconcile(existing, [w]) == [w] && e in existing
    ensures Compare(w.clock, e.clock) == After || e.clock == w.clock
  {
    var all := [w] + Surviving(existing, [w]);
    SurvivingFrom(existing, [w]);
    PlainCandidates(existing, [w]);
    if e in all {
      var y := DedupKeepsClocks(all, e);
    }
  }

  /** One write replaces everything exactly when it happens after each stored clock, or repeats it. */
  lemma WriteCollapsesIff(existing: seq<Sibling>, w: Sibling)
    requires Plain(existing) && PlainClock(w.clock)
    ensures Reconcile(existing, [w]) == [w] <==> Overrides(w, existing)
  {
    if Overrides(w, existing) {
      OverridingWriteCollapses(existing, w);
    }
    if Reconcile(existing, [w]) == [w] {
      forall e | e in existing ensures Compare(w.clock, e.clock) == After || e.clock == w.clock {
        CollapseNeedsOverride(existing, w, e);
      }
    }
  }

  ghost predicate HoldsClock(s: seq<Sibling>, c: Clock) {
    exists x :: x in s && x.clock == c
  }

  /** The stored clocks are the incoming ones and the existing ones that no incoming clock happens after;
      for a clock on both sides the incoming sibling is the one stored. */
  lemma ReconcileIsExact(existing: seq<Sibling>, incoming: seq<Sibling>, c: Clock)
    requires Plain(existing) && Plain(incoming) && existing != [] && incoming != []
    ensures HoldsClock(Reconcile(existing, incoming), c) <==>
            HoldsClock(incoming, c) || exists e :: e in existing && e.clock == c && !Superseded(e, incoming)
    ensures forall x :: x in Reconcile(existing, incoming) && x.clock == c && HoldsClock(incoming, c) ==> x in incoming
  {
    var kept := Surviving(existing, incoming);
    var all, r := incoming + kept, Reconcile(existing, incoming);
    SurvivingFrom(existing, incoming);
    PlainCandidates(existing, incoming);
    Dedup.ByKeyFrom(Key, all);
    if x :| x in all && x.clock == c {
      var y := DedupKeepsClocks(all, x);
    }
    forall x | x in r && x.clock == c && HoldsClock(incoming, c) ensures x in incoming {
      var y :| y in incoming && y.clock == c;
      Dedup.FirstWins(Key, incoming, kept, x, y);
    }
  }

  // ----- without any assumption on identifiers -----

  /** A first bearer of its text is at or above the candidate. */
  ghost predicate Represented(cand: seq<Sibling>, i: nat)
    requires i < |cand|
  {
    exists j: nat :: Dedup.First(Key, cand, j) && Leq(cand[i].clock, cand[j].clock)
  }

  lemma CandidatesCover(existing: seq<Sibling>, incoming: seq<Sibling>, c: Clock)
    ensures Covers(Candidates(existing, incoming), c) <==> Covers(existing, c) || Covers(incoming, c)
  {
    var kept, all := Surviving(existing, incoming), Candidates(existing, incoming);
    SurvivingFrom(existing, incoming);
    if Covers(all, c) {
      var i :| 0 <= i < |all| && Leq(c, all[i].clock);
      if all[i] in incoming {
        CoversMember(incoming, all[i], c);
      } else {
        assert all[i] in kept;
        CoversMember(existing, all[i], c);
      }
    }
    if i :| 0 <= i < |incoming| && Leq(c, incoming[i].clock) {
      assert all[i] == incoming[i];
    }
    if i :| 0 <= i < |existing| && Leq(c, existing[i].clock) {
      if j :| 0 <= j < |incoming| && Compare(incoming[j].clock, existing[i].clock) == After {
        LeqTransitive(c, existing[i].clock, incoming[j].clock);
        CoversMember(all, incoming[j], c);
      } else {
        assert existing[i] in kept;
        CoversMember(all, existing[i], c);
      }
    }
  }

  lemma RepresentedIsCovered(cand: seq<Sibling>, i: nat)
    requires i < |cand|
    ensures Covers(Dedup.ByKey(Key, cand), cand[i].clock) <==> Represented(cand, i)
  {
    var r := Dedup.ByKey(Key, cand);
    if Covers(r, cand[i].clock) {
      var k :| 0 <= k < |r| && Leq(cand[i].clock, r[k].clock);
      Dedup.ByKeyMembers(Key, cand, r[k]);
    }
    if j: nat :| Dedup.First(Key, cand, j) && Leq(cand[i].clock, cand[j].clock) {
      Dedup.ByKeyMembers(Key, cand, cand[j]);
      CoversMember(r, cand[j], cand[i].clock);
    }
  }

  lemma DedupCoverIff(cand: seq<Sibling>)
    ensures (forall c: Clock :: Covers(Dedup.ByKey(Key, cand), c) <==> Covers(cand, c)) <==>
            forall i :: 0 <= i < |cand| ==> Represented(cand, i)
  {
    var r := Dedup.ByKey(Key, cand);
    if forall c: Clock :: Covers(r, c) <==> Covers(cand, c) {
      forall i | 0 <= i < |cand| ensures Represented(cand, i) {
        CoveredBy(cand, i, cand[i].clock);
        RepresentedIsCovered(cand, i);
      }
    }
    if forall i :: 0 <= i < |cand| ==> Represented(cand, i) {
      forall c: Clock ensures Covers(r, c) <==> Covers(cand, c) {
        DedupCovers(cand, c);
      }
    }
  }

  lemma DedupCovers(cand: seq<Sibling>, c: Clock)
    requires forall i :: 0 <= i < |cand| ==> Represented(cand, i)
    ensures Covers(Dedup.ByKey(Key, cand), c) <==> Covers(cand, c)
  {
    var r := Dedup.ByKey(Key, cand);
    if i :| 0 <= i < |cand| && Leq(c, cand[i].clock) {
      RepresentedIsCovered(cand, i);
      var k :| 0 <= k < |r| && Leq(cand[i].clock, r[k].clock);
      LeqTransitive(c, cand[i].clock, r[k].clock);
      CoveredBy(r, k, c);
    }
    if k :| 0 <= k < |r| && Leq(c, r[k].clock) {
      Dedup.ByKeyFrom(Key, cand);
      assert r[k] in r;
      CoversMember(cand, r[k], c);
    }
  }

  /** Whatever the identifiers, reconciliation loses no version exactly when one side is empty or every candidate
      is at or below the first candidate of some text. */
  lemma ReconcileCoverIff(existing: seq<Sibling>, incoming: seq<Sibling>)
    ensures (forall c: Clock ::
               Covers(Reconcile(existing, incoming), c) <==> Covers(existing, c) || Covers(incoming, c)) <==>
            existing == [] || incoming == [] ||
            forall i :: 0 <= i < |Candidates(existing, incoming)| ==> Represented(Candidates(existing, incoming), i)
  {
    if existing != [] && incoming != [] {
      DedupCoverIff(Candidates(existing, incoming));
      forall c: Clock
        ensures Covers(Candidates(existing, incoming), c) <==> Covers(existing, c) || Covers(incoming, c)
      {
        CandidatesCover(existing, incoming, c);
      }
    }
  }

  /** With colons in identifiers a write can erase a version it never saw. */
  lemma ColonWriteLosesVersion() returns (e: Sibling, w: Sibling)
    ensures Compare(w.clock, e.clock) == Concurrent
    ensures Reconcile([e], [w]) == [w] && !Covers(Reconcile([e], [w]), e.clock)
  {
    var a, b := ColonIdsCollide();
    e, w := Sibling([], a, 0, false, 0), Sibling([], b, 0, false, 0);
    assert Surviving([e][..0], [w]) == [];
    assert !Superseded(e, [w]);
    var all := Candidates([e], [w]);
    assert all == [w, e];
    Dedup.ByKeyOneKey(Key, all);
  }
}
