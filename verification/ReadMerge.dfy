/** The coordinator's merge of replica answers into the causally maximal versions. */
module ReadMerge {
  import opened Common
  import opened VClock
  import opened Siblings
  import opened Lists

  // ----- specification -----

  predicate Dominated(x: Sibling, all: seq<Sibling>) {
    exists i :: 0 <= i < |all| && Compare(x.clock, all[i].clock) == Before
  }

  predicate HasClock(s: seq<Sibling>, c: Clock) {
    exists i :: 0 <= i < |s| && SameCounters(c, s[i].clock)
  }

  function Wanted(all: seq<Sibling>): (seq<Sibling>, Sibling) -> bool {
    (kept: seq<Sibling>, x: Sibling) => !Dominated(x, all) && !HasClock(kept, x.clock)
  }

  /** The maximal versions, the first arrival kept for each clock. */
  function Maximal(all: seq<Sibling>): seq<Sibling> {
    Collect(Wanted(all), all, |all|)
  }

  // ----- the loop of the coordinator -----

  method IsDominated(x: Sibling, all: seq<Sibling>) returns (dominated: bool)
    ensures dominated == Dominated(x, all)
  {
    dominated := false;
    for j := 0 to |all|
      invariant forall k :: 0 <= k < j ==> Compare(x.clock, all[k].clock) != Before
    {
      if Compare(x.clock, all[j].clock) == Equal {
        continue;
      }
      if Compare(x.clock, all[j].clock) == Before {
        return true;
      }
    }
  }

  method IsPresent(x: Sibling, maximal: seq<Sibling>) returns (found: bool)
    ensures found == HasClock(maximal, x.clock)
  {
    found := false;
    for j := 0 to |maximal|
      invariant forall k :: 0 <= k < j ==> !SameCounters(x.clock, maximal[k].clock)
    {
      if Compare(x.clock, maximal[j].clock) == Equal {
        return true;
      }
    }
  }

  method MergeAllSiblings(all: seq<Sibling>) returns (maximal: seq<Sibling>)
    ensures maximal == Maximal(all)
  {
    maximal := [];
    for i := 0 to |all|
      invariant maximal == Collect(Wanted(all), all, i)
    {
      var dominated := IsDominated(all[i], all);
      if !dominated {
        var found := IsPresent(all[i], maximal);
        if !found {
          maximal := maximal + [all[i]];
        }
      }
    }
  }

  // ----- what it returns -----

  lemma HasClockSnoc(s: seq<Sibling>, x: Sibling, c: Clock)
    requires HasClock(s, c) || SameCounters(c, x.clock)
    ensures HasClock(s + [x], c)
  {
    var t := s + [x];
    if i :| 0 <= i < |s| && SameCounters(c, s[i].clock) {
      assert t[i] == s[i];
    } else {
      assert t[|s|] == x;
    }
  }

  /** Among the first `k`, every version that nothing dominates is represented. */
  ghost predicate Represents(all: seq<Sibling>, k: nat, kept: seq<Sibling>) {
    forall i :: 0 <= i < k <= |all| && !Dominated(all[i], all) ==> HasClock(kept, all[i].clock)
  }

  lemma GrowRepresents(all: seq<Sibling>, k: nat, kept: seq<Sibling>)
    requires k < |all| && Represents(all, k, kept)
    ensures Represents(all, k + 1, Grow(Wanted(all), kept, all[k]))
  {
    forall i | 0 <= i < k + 1 && !Dominated(all[i], all)
      ensures HasClock(Grow(Wanted(all), kept, all[k]), all[i].clock)
    {
      if Wanted(all)(kept, all[k]) {
        HasClockSnoc(kept, all[k], all[i].clock);
      }
    }
  }

  lemma MaximalRepresents(all: seq<Sibling>, i: nat)
    requires i < |all| && !Dominated(all[i], all)
    ensures HasClock(Maximal(all), all[i].clock)
  {
    var inv := (k: nat, kept: seq<Sibling>) => Represents(all, k, kept);
    forall k: nat, kept | k < |all| && inv(k, kept) ensures inv(k + 1, Grow(Wanted(all), kept, all[k])) {
      GrowRepresents(all, k, kept);
    }
    CollectHolds(Wanted(all), all, inv, |all|);
  }

  ghost predicate Antichain(s: seq<Sibling>) {
    forall i, j :: 0 <= i < |s| && 0 <= j < |s| && i != j ==> Compare(s[i].clock, s[j].clock) == Concurrent
  }

  lemma NotOrdered(x: Sibling, y: Sibling, all: seq<Sibling>)
    requires x in all && y in all && !Dominated(x, all) && !Dominated(y, all)
    requires !SameCounters(y.clock, x.clock)
    ensures Compare(x.clock, y.clock) == Concurrent
  {
    var i, j :| 0 <= i < |all| && all[i] == x && 0 <= j < |all| && all[j] == y;
    assert Compare(y.clock, all[i].clock) != Before && Compare(x.clock, all[j].clock) != Before;
  }

  /** What holds of the versions kept so far. */
  ghost predicate KeptFrom(kept: seq<Sibling>, all: seq<Sibling>) {
    Antichain(kept) && forall y :: y in kept ==> y in all && !Dominated(y, all)
  }

  lemma GrowKeeps(kept: seq<Sibling>, x: Sibling, all: seq<Sibling>)
    requires KeptFrom(kept, all) && x in all
    ensures KeptFrom(Grow(Wanted(all), kept, x), all)
  {
    if Wanted(all)(kept, x) {
      forall i | 0 <= i < |kept|
        ensures Compare(kept[i].clock, x.clock) == Compare(x.clock, kept[i].clock) == Concurrent
      {
        assert kept[i] in kept;
        NotOrdered(kept[i], x, all);
      }
    }
  }

  /** Results come from the input, none is below an input, and no two are ordered. */
  lemma MaximalIsAntichain(all: seq<Sibling>)
    ensures forall x :: x in Maximal(all) ==> x in all && !Dominated(x, all)
    ensures Antichain(Maximal(all))
  {
    var inv := (k: nat, kept: seq<Sibling>) => KeptFrom(kept, all);
    forall k: nat, kept | k < |all| && inv(k, kept) ensures inv(k + 1, Grow(Wanted(all), kept, all[k])) {
      GrowKeeps(kept, all[k], all);
    }
    CollectHolds(Wanted(all), all, inv, |all|);
  }

  ghost function Above(x: Sibling, all: seq<Sibling>): set<int> {
    set i | 0 <= i < |all| && Compare(x.clock, all[i].clock) == Before
  }

  lemma AboveShrinks(x: Sibling, all: seq<Sibling>, i: nat)
    requires i in Above(x, all)
    ensures Above(all[i], all) < Above(x, all)
  {
    forall j | j in Above(all[i], all) ensures j in Above(x, all) {
      LeqTransitive(x.clock, all[i].clock, all[j].clock);
      if Leq(all[j].clock, x.clock) {
        LeqTransitive(all[j].clock, x.clock, all[i].clock);
      }
    }
    assert i !in Above(all[i], all);
  }

  /** Descent through the finite order: every input is at or below some result. */
  lemma {:induction false} MaximalDominates(all: seq<Sibling>, x: Sibling)
    requires x in all
    ensures Covers(Maximal(all), x.clock)
    decreases Above(x, all)
  {
    if i :| 0 <= i < |all| && Compare(x.clock, all[i].clock) == Before {
      AboveShrinks(x, all, i);
      MaximalDominates(all, all[i]);
      var m := Maximal(all);
      var j :| 0 <= j < |m| && Leq(all[i].clock, m[j].clock);
      LeqTransitive(x.clock, all[i].clock, m[j].clock);
    } else {
      var k :| 0 <= k < |all| && all[k] == x;
      MaximalRepresents(all, k);
    }
  }

  lemma MaximalCover(all: seq<Sibling>, c: Clock)
    ensures Covers(Maximal(all), c) <==> Covers(all, c)
  {
    var m := Maximal(all);
    if Covers(m, c) {
      var i :| 0 <= i < |m| && Leq(c, m[i].clock);
      MaximalIsAntichain(all);
      assert m[i] in m;
      CoversMember(all, m[i], c);
    }
    if Covers(all, c) {
      var i :| 0 <= i < |all| && Leq(c, all[i].clock);
      assert all[i] in all;
      MaximalDominates(all, all[i]);
      var j :| 0 <= j < |m| && Leq(all[i].clock, m[j].clock);
      LeqTransitive(c, all[i].clock, m[j].clock);
      CoveredBy(m, j, c);
    }
  }

  /** The versions of a set, told apart by their counters. */
  function ClockSet(s: seq<Sibling>): set<map<NodeID, Uint64>> {
    set i | 0 <= i < |s| :: Counters(s[i].clock)
  }

  ghost predicate SameCover(s: seq<Sibling>, t: seq<Sibling>) {
    forall c: Clock :: Covers(s, c) <==> Covers(t, c)
  }

  /** An element of an antichain, a clock above it and an element above that are all the same version. */
  lemma AntichainSqueeze(m: seq<Sibling>, i: nat, c: Clock)
    requires Antichain(m) && i < |m| && Leq(m[i].clock, c) && Covers(m, c)
    ensures Counters(m[i].clock) == Counters(c)
  {
    var k :| 0 <= k < |m| && Leq(c, m[k].clock);
    LeqTransitive(m[i].clock, c, m[k].clock);
    assert i == k;
    EqualIffSameCounters(m[i].clock, c);
  }

  lemma MaximalWithin(s: seq<Sibling>, t: seq<Sibling>)
    requires SameCover(s, t)
    ensures ClockSet(Maximal(s)) <= ClockSet(Maximal(t))
  {
    var m, n := Maximal(s), Maximal(t);
    MaximalIsAntichain(s);
    forall c: Clock ensures Covers(m, c) <==> Covers(n, c) {
      MaximalCover(s, c);
      MaximalCover(t, c);
    }
    forall i | 0 <= i < |m| ensures Counters(m[i].clock) in ClockSet(n) {
      CoveredBy(m, i, m[i].clock);
      var j :| 0 <= j < |n| && Leq(m[i].clock, n[j].clock);
      CoveredBy(n, j, n[j].clock);
      AntichainSqueeze(m, i, n[j].clock);
    }
  }

  /** The merged versions depend on the cover alone. */
  lemma MaximalDependsOnCover(s: seq<Sibling>, t: seq<Sibling>)
    requires SameCover(s, t)
    ensures ClockSet(Maximal(s)) == ClockSet(Maximal(t))
  {
    MaximalWithin(s, t);
    MaximalWithin(t, s);
  }

  lemma CoverOfElements(s: seq<Sibling>, t: seq<Sibling>, c: Clock)
    requires Elements(s) <= Elements(t) && Covers(s, c)
    ensures Covers(t, c)
  {
    var i :| 0 <= i < |s| && Leq(c, s[i].clock);
    assert s[i] in Elements(s);
    CoversMember(t, s[i], c);
  }

  /** The order in which replicas answer, and repeated answers, do not change the merged versions. */
  lemma MergeIgnoresResponseOrder(s: seq<Sibling>, t: seq<Sibling>)
    requires Elements(s) == Elements(t)
    ensures ClockSet(Maximal(s)) == ClockSet(Maximal(t))
  {
    forall c: Clock ensures Covers(s, c) <==> Covers(t, c) {
      if Covers(s, c) {
        CoverOfElements(s, t, c);
      }
      if Covers(t, c) {
        CoverOfElements(t, s, c);
      }
    }
    MaximalDependsOnCover(s, t);
  }

  /** The merged versions are exactly the inputs that no input happens after. */
  lemma MaximalIsExact(all: seq<Sibling>, c: Clock)
    ensures Counters(c) in ClockSet(Maximal(all)) <==>
            exists x :: x in all && !Dominated(x, all) && Counters(x.clock) == Counters(c)
  {
    var m := Maximal(all);
    MaximalIsAntichain(all);
    if Counters(c) in ClockSet(m) {
      var i :| 0 <= i < |m| && Counters(m[i].clock) == Counters(c);
      assert m[i] in m;
    }
    if x :| x in all && !Dominated(x, all) && Counters(x.clock) == Counters(c) {
      var i :| 0 <= i < |all| && all[i] == x;
      MaximalRepresents(all, i);
      var j :| 0 <= j < |m| && SameCounters(x.clock, m[j].clock);
      EqualIffSameCounters(x.clock, m[j].clock);
    }
  }

  ghost predicate IsFirst(all: seq<Sibling>, x: Sibling) {
    exists j :: 0 <= j < |all| && all[j] == x && NoneBefore(all, j)
  }

  ghost predicate NoneBefore(all: seq<Sibling>, j: nat)
    requires j < |all|
  {
    forall l :: 0 <= l < j ==> !SameCounters(all[j].clock, all[l].clock)
  }

  lemma WantedIsFirst(all: seq<Sibling>, k: nat, kept: seq<Sibling>)
    requires k < |all| && Represents(all, k, kept) && Wanted(all)(kept, all[k])
    ensures NoneBefore(all, k)
  {
    forall l | 0 <= l < k ensures !SameCounters(all[k].clock, all[l].clock) {
      if SameCounters(all[k].clock, all[l].clock) {
        EqualNotDominated(all, k, l);
        var i :| 0 <= i < |kept| && SameCounters(all[l].clock, kept[i].clock);
        SameCountersTransitive(all[k].clock, all[l].clock, kept[i].clock);
      }
    }
  }

  ghost predicate FirstsOnly(all: seq<Sibling>, kept: seq<Sibling>) {
    forall x :: x in kept ==> IsFirst(all, x)
  }

  lemma GrowKeepsFirsts(all: seq<Sibling>, k: nat, kept: seq<Sibling>)
    requires k < |all| && Represents(all, k, kept) && FirstsOnly(all, kept)
    ensures FirstsOnly(all, Grow(Wanted(all), kept, all[k]))
  {
    if Wanted(all)(kept, all[k]) {
      WantedIsFirst(all, k, kept);
    }
  }

  /** Each result is the first arrival with its clock. */
  lemma MaximalKeepsFirst(all: seq<Sibling>)
    ensures forall x :: x in Maximal(all) ==> IsFirst(all, x)
  {
    var inv := (k: nat, kept: seq<Sibling>) => Represents(all, k, kept) && FirstsOnly(all, kept);
    forall k: nat, kept | k < |all| && inv(k, kept) ensures inv(k + 1, Grow(Wanted(all), kept, all[k])) {
      GrowRepresents(all, k, kept);
      GrowKeepsFirsts(all, k, kept);
    }
    assert Represents(all, 0, []) && FirstsOnly(all, []);
    CollectHolds(Wanted(all), all, inv, |all|);
  }

  lemma SameCountersTransitive(a: Clock, b: Clock, c: Clock)
    requires SameCounters(a, b) && SameCounters(b, c)
    ensures SameCounters(a, c)
  {
    LeqTransitive(a, b, c);
    LeqTransitive(c, b, a);
  }

  lemma EqualNotDominated(all: seq<Sibling>, j: nat, l: nat)
    requires j < |all| && l < |all| && SameCounters(all[j].clock, all[l].clock) && !Dominated(all[j], all)
    ensures !Dominated(all[l], all)
  {
    forall i | 0 <= i < |all| ensures Compare(all[l].clock, all[i].clock) != Before {
      SameCountersCompare(all[j].clock, all[l].clock, all[i].clock);
    }
  }

  lemma SameCountersCompare(a: Clock, b: Clock, c: Clock)
    requires SameCounters(a, b)
    ensures Compare(a, c) == Compare(b, c)
  {
    if Leq(a, c) {
      LeqTransitive(b, a, c);
    }
    if Leq(b, c) {
      LeqTransitive(a, b, c);
    }
    if Leq(c, a) {
      LeqTransitive(c, a, b);
    }
    if Leq(c, b) {
      LeqTransitive(c, b, a);
    }
  }

  // ----- siblings left out of an answer -----

  lemma KeptOrCovered(keep: Sibling -> bool, s: seq<Sibling>, x: Sibling, c: Clock)
    requires x in s && Leq(c, x.clock)
    requires keep(x) || Covers(Filter(keep, s), x.clock)
    ensures Covers(Filter(keep, s), c)
  {
    FilterMembers(keep, s);
    var kept := Filter(keep, s);
    if keep(x) {
      CoversMember(kept, x, c);
    } else {
      var j :| 0 <= j < |kept| && Leq(x.clock, kept[j].clock);
      LeqTransitive(c, x.clock, kept[j].clock);
      CoveredBy(kept, j, c);
    }
  }

  /** Leaving siblings out loses no version exactly when each one left out is at or below one that is kept. */
  lemma DroppingKeepsCoverIff(keep: Sibling -> bool, s: seq<Sibling>)
    ensures SameCover(s, Filter(keep, s)) <==> forall x :: x in s && !keep(x) ==> Covers(Filter(keep, s), x.clock)
  {
    var kept := Filter(keep, s);
    FilterMembers(keep, s);
    if SameCover(s, kept) {
      forall x | x in s && !keep(x) ensures Covers(kept, x.clock) {
        CoversMember(s, x, x.clock);
      }
    }
    if forall x :: x in s && !keep(x) ==> Covers(kept, x.clock) {
      forall c: Clock ensures Covers(s, c) <==> Covers(kept, c) {
        if Covers(kept, c) {
          CoverOfElements(kept, s, c);
        }
        if Covers(s, c) {
          var i :| 0 <= i < |s| && Leq(c, s[i].clock);
          KeptOrCovered(keep, s, s[i], c);
        }
      }
    }
  }

  predicate NotTombstone(x: Sibling) {
    !x.tombstone
  }

  /** What a remote reader or a client sees: no tombstones. */
  function Live(s: seq<Sibling>): seq<Sibling> {
    Filter(NotTombstone, s)
  }

  method FilterTombstones(s: seq<Sibling>) returns (r: seq<Sibling>)
    ensures r == Live(s)
  {
    r := FilterLoop(NotTombstone, s);
  }

  /** Hiding tombstones loses no version exactly when a live sibling is at or above each tombstone. */
  lemma HidingTombstonesKeepsCoverIff(s: seq<Sibling>)
    ensures SameCover(s, Live(s)) <==> forall x :: x in s && x.tombstone ==> Covers(Live(s), x.clock)
  {
    DroppingKeepsCoverIff(NotTombstone, s);
  }
}
