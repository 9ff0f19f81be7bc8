/** Vector clocks: the causal order, merge, tick and pruning. */
module VClock {
  import opened Common

  datatype Entry = Entry(counter: Uint64, timestamp: Int64)

  /** The value of a clock: an entry per node that has ticked. */
  type Clock = map<NodeID, Entry>

  datatype Ordering = Before | After | Equal | Concurrent

  function Counter(c: Clock, n: NodeID): Uint64 {
    if n in c then c[n].counter else 0
  }

  /** Every counter of `a` is at most the matching counter of `b`. */
  predicate Leq(a: Clock, b: Clock) {
    forall n :: n in a ==> Counter(a, n) <= Counter(b, n)
  }

  function Compare(a: Clock, b: Clock): Ordering {
    if Leq(a, b) then (if Leq(b, a) then Equal else Before)
    else if Leq(b, a) then After else Concurrent
  }

  predicate SameCounters(a: Clock, b: Clock) {
    Compare(a, b) == Equal
  }

  // ----- the causal order -----

  lemma LeqAt(a: Clock, b: Clock, n: NodeID)
    requires Leq(a, b)
    ensures Counter(a, n) <= Counter(b, n)
  {
  }

  lemma LeqTransitive(a: Clock, b: Clock, c: Clock)
    requires Leq(a, b) && Leq(b, c)
    ensures Leq(a, c)
  {
    forall n | n in a ensures Counter(a, n) <= Counter(c, n) {
      LeqAt(a, b, n);
      LeqAt(b, c, n);
    }
  }

  /** The counters that matter: a clock without its zero entries and without timestamps. */
  function Counters(c: Clock): map<NodeID, Uint64> {
    map n | n in c && c[n].counter != 0 :: c[n].counter
  }

  /** Compare answers Equal exactly for clocks with the same non-zero counters. */
  lemma EqualIffSameCounters(a: Clock, b: Clock)
    ensures SameCounters(a, b) <==> Counters(a) == Counters(b)
  {
    if SameCounters(a, b) {
      forall n | n in a || n in b ensures Counter(a, n) == Counter(b, n) {
        LeqAt(a, b, n);
        LeqAt(b, a, n);
      }
      assert Counters(a).Keys == Counters(b).Keys;
    }
    if Counters(a) == Counters(b) {
      forall n | n in a ensures Counter(a, n) <= Counter(b, n) {
        assert Counter(a, n) != 0 ==> n in Counters(a) && n in Counters(b);
      }
      forall n | n in b ensures Counter(b, n) <= Counter(a, n) {
        assert Counter(b, n) != 0 ==> n in Counters(b) && n in Counters(a);
      }
    }
  }

  // ----- the operations on clock values -----

  function Ticked(c: Clock, n: NodeID, now: Int64): Clock {
    c[n := Entry(if n in c then Inc64(c[n].counter) else 1, now)]
  }

  /** The larger counter wins; equal counters keep the newer timestamp. */
  function Newer(a: Entry, b: Entry): Entry {
    if b.counter > a.counter then b
    else if b.counter == a.counter && b.timestamp > a.timestamp then Entry(a.counter, b.timestamp)
    else a
  }

  function Merged(a: Clock, b: Clock): Clock {
    map n | n in a.Keys + b.Keys ::
      if n !in a then b[n] else if n !in b then a[n] else Newer(a[n], b[n])
  }

  /** Merging is the least upper bound of the causal order. */
  lemma MergeIsLeastUpperBound(a: Clock, b: Clock, c: Clock)
    ensures Leq(a, Merged(a, b)) && Leq(b, Merged(a, b))
    ensures Leq(Merged(a, b), c) <==> Leq(a, c) && Leq(b, c)
  {
    var m := Merged(a, b);
    if Leq(a, c) && Leq(b, c) {
      forall n | n in m ensures Counter(m, n) <= Counter(c, n) {
        LeqAt(a, c, n);
        LeqAt(b, c, n);
      }
    }
    if Leq(m, c) {
      LeqTransitive(a, m, c);
      LeqTransitive(b, m, c);
    }
  }

  /** Field by field: a node is in the merge when it is in either clock, with the larger counter; its time is that of
      the larger counter, and of equal counters the later one. */
  lemma MergeKeepsNewest(a: Clock, b: Clock, n: NodeID)
    ensures n in Merged(a, b) <==> n in a || n in b
    ensures n in a && (n !in b || a[n].counter > b[n].counter) ==> Merged(a, b)[n] == a[n]
    ensures n in b && (n !in a || b[n].counter > a[n].counter) ==> Merged(a, b)[n] == b[n]
    ensures n in a && n in b && a[n].counter == b[n].counter ==>
              && Merged(a, b)[n].counter == a[n].counter
              && Merged(a, b)[n].timestamp >= a[n].timestamp && Merged(a, b)[n].timestamp >= b[n].timestamp
              && (Merged(a, b)[n] == a[n] || Merged(a, b)[n] == b[n])
  {
  }

  lemma MergeIsCommutative(a: Clock, b: Clock)
    ensures Merged(a, b) == Merged(b, a)
  {
    assert Merged(a, b).Keys == Merged(b, a).Keys;
  }

  lemma MergeIsAssociative(a: Clock, b: Clock, c: Clock)
    ensures Merged(Merged(a, b), c) == Merged(a, Merged(b, c))
  {
    var ab, bc := Merged(a, b), Merged(b, c);
    var l, r := Merged(ab, c), Merged(a, bc);
    assert l.Keys == a.Keys + b.Keys + c.Keys == r.Keys;
    forall n | n in l ensures l[n] == r[n] {
      assert n in r;
      if n in a && n in b && n in c {
        assert ab[n] == Newer(a[n], b[n]) && bc[n] == Newer(b[n], c[n]);
      }
    }
  }

  /** Merging is a semilattice on the full (counter, timestamp) entries. */
  lemma MergeIsSemilattice(a: Clock, b: Clock, c: Clock)
    ensures Merged(a, a) == a
    ensures Merged(a, b) == Merged(b, a)
    ensures Merged(Merged(a, b), c) == Merged(a, Merged(b, c))
  {
    assert Merged(a, a).Keys == a.Keys;
    MergeIsCommutative(a, b);
    MergeIsAssociative(a, b, c);
  }

  /** Ticking moves strictly forward exactly when the counter does not wrap. */
  lemma TickIsAfterIff(c: Clock, n: NodeID, now: Int64)
    ensures Compare(Ticked(c, n, now), c) == After <==> Counter(c, n) != TWO64 - 1
    ensures Counter(c, n) == TWO64 - 1 ==> Compare(Ticked(c, n, now), c) == Before
  {
    var t := Ticked(c, n, now);
    assert Counter(t, n) != Counter(c, n);
    assert forall m :: m != n ==> Counter(t, m) == Counter(c, m);
    if Counter(c, n) != TWO64 - 1 {
      assert Leq(c, t);
      assert !Leq(t, c);
    } else {
      assert Leq(t, c);
      assert !Leq(c, t);
    }
  }

  // ----- pruning -----

  predicate Stale(e: Entry, now: Int64, threshold: nat) {
    Sub64(now, e.timestamp) > threshold
  }

  function Fresh(c: Clock, now: Int64, threshold: nat): Clock {
    map n | n in c && !Stale(c[n], now, threshold) :: c[n]
  }

  /** `p` keeps entries of `c`: the fresh ones, or the newest `max` of them when there are more.
      Which of several equally old entries survive is left open, as in the source's sort. */
  ghost predicate PrunedFrom(c: Clock, p: Clock, now: Int64, threshold: nat, max: nat) {
    var live := Fresh(c, now, threshold);
    && p.Keys <= live.Keys
    && (forall n :: n in p ==> p[n] == live[n])
    && (if |live| <= max then p == live else
          |p| == max && forall k, d :: k in p && d in live && d !in p ==> live[d].timestamp <= p[k].timestamp)
  }

  lemma PrunedSize(c: Clock, p: Clock, now: Int64, threshold: nat, max: nat)
    requires PrunedFrom(c, p, now, threshold, max)
    ensures |p| <= max
    ensures p.Keys <= c.Keys && Leq(p, c)
  {
    assert p.Keys <= Fresh(c, now, threshold).Keys <= c.Keys;
  }

  /** An entry that pruning keeps is no older than the threshold, and one that is no older goes only if there are more
      than `max` such entries. Times are taken to lie within 2^63 of each other. */
  lemma PruneByAge(c: Clock, p: Clock, now: Int64, threshold: nat, max: nat)
    requires PrunedFrom(c, p, now, threshold, max)
    requires forall n :: n in c ==> -TWO63 <= now - c[n].timestamp < TWO63
    ensures forall n :: n in p ==> n in c && p[n] == c[n] && now - c[n].timestamp <= threshold
    ensures var young := set n | n in c && now - c[n].timestamp <= threshold;
            if |young| <= max then p.Keys == young else |p| == max
  {
    var young := set n | n in c && now - c[n].timestamp <= threshold;
    assert Fresh(c, now, threshold).Keys == young;
    assert |Fresh(c, now, threshold)| == |young|;
  }

  /** Pruning changes nothing when no entry is stale and the clock is small enough. */
  predicate PruneIsIdle(c: Clock, now: Int64, threshold: nat, max: nat) {
    |c| <= max && forall n :: n in c ==> !Stale(c[n], now, threshold)
  }

  lemma IdlePruneKeepsClock(c: Clock, p: Clock, now: Int64, threshold: nat, max: nat)
    requires PruneIsIdle(c, now, threshold, max)
    requires PrunedFrom(c, p, now, threshold, max)
    ensures p == c
  {
    assert Fresh(c, now, threshold) == c;
  }

  lemma IdlePruneIsPossible(c: Clock, now: Int64, threshold: nat, max: nat)
    requires PruneIsIdle(c, now, threshold, max)
    ensures PrunedFrom(c, c, now, threshold, max)
  {
    assert Fresh(c, now, threshold) == c;
  }

  predicate IsNewest(m: Clock, keys: set<NodeID>, k: NodeID)
    requires keys <= m.Keys
  {
    k in keys && forall j :: j in keys ==> m[j].timestamp <= m[k].timestamp
  }

  lemma NewestExists(m: Clock, keys: set<NodeID>)
    requires keys <= m.Keys && keys != {}
    ensures exists k :: IsNewest(m, keys, k)
  {
    var z :| z in keys;
    var rest := keys - {z};
    if rest == {} {
      assert keys == {z};
      assert IsNewest(m, keys, z);
    } else {
      NewestExists(m, rest);
      var k :| IsNewest(m, rest, k);
      assert IsNewest(m, keys, if m[k].timestamp < m[z].timestamp then z else k);
    }
  }

  /** The mutable clock object. */
  class VectorClock {
    var entries: Clock

    constructor ()
      ensures entries == map[]
    {
      entries := map[];
    }

    method Tick(nodeID: NodeID, now: Int64)
      modifies this
      ensures entries == Ticked(old(entries), nodeID, now)
      ensures Counter(entries, nodeID) == (Counter(old(entries), nodeID) + 1) % 0x1_0000_0000_0000_0000
      ensures entries.Keys == old(entries).Keys + {nodeID} && entries[nodeID].timestamp == now
      ensures forall n :: n in old(entries) && n != nodeID ==> entries[n] == old(entries)[n]
    {
      if nodeID in entries {
        entries := entries[nodeID := Entry(Inc64(entries[nodeID].counter), now)];
      } else {
        entries := entries[nodeID := Entry(1, now)];
      }
    }

    method Set(nodeID: NodeID, counter: Uint64, now: Int64)
      modifies this
      ensures forall n :: Counter(entries, n) == if n == nodeID then counter else Counter(old(entries), n)
      ensures entries.Keys == old(entries).Keys + {nodeID} && entries[nodeID].timestamp == now
      ensures forall n :: n in old(entries) && n != nodeID ==> entries[n] == old(entries)[n]
    {
      entries := entries[nodeID := Entry(counter, now)];
    }

    method Merge(other: VectorClock)
      modifies this
      ensures entries == Merged(old(entries), old(other.entries))
    {
      var incoming := other.entries;
      var todo := incoming.Keys;
      ghost var before := entries;
      while todo != {}
        invariant todo <= incoming.Keys
        invariant entries.Keys == before.Keys + (incoming.Keys - todo)
        invariant forall n :: n in entries ==>
          entries[n] == if n in todo then before[n] else Merged(before, incoming)[n]
        decreases todo
      {
        var n :| n in todo;
        var e := incoming[n];
        if n in entries {
          if e.counter > entries[n].counter {
            entries := entries[n := e];
          } else if e.counter == entries[n].counter {
            if e.timestamp > entries[n].timestamp {
              entries := entries[n := Entry(entries[n].counter, e.timestamp)];
            }
          }
        } else {
          entries := entries[n := e];
        }
        todo := todo - {n};
      }
      assert entries.Keys == Merged(before, incoming).Keys;
    }

    method Copy() returns (c: VectorClock)
      ensures fresh(c) && c.entries == entries
    {
      c := new VectorClock();
      c.entries := entries;
    }

    /** The loop over the union of node identifiers computes the causal order. */
    method CompareTo(other: VectorClock) returns (o: Ordering)
      ensures o == Compare(entries, other.entries)
      ensures var below := exists n :: Counter(entries, n) < Counter(other.entries, n);
              var above := exists n :: Counter(entries, n) > Counter(other.entries, n);
              o == if below then (if above then Concurrent else Before) else if above then After else Equal
    {
      var less, greater := false, false;
      var a, b := entries, other.entries;
      var todo := a.Keys + b.Keys;
      while todo != {}
        invariant todo <= a.Keys + b.Keys
        invariant less <==> exists n :: n in a.Keys + b.Keys - todo && Counter(a, n) < Counter(b, n)
        invariant greater <==> exists n :: n in a.Keys + b.Keys - todo && Counter(a, n) > Counter(b, n)
        decreases todo
      {
        var n :| n in todo;
        if Counter(a, n) < Counter(b, n) {
          less := true;
        }
        if Counter(a, n) > Counter(b, n) {
          greater := true;
        }
        todo := todo - {n};
      }
      assert less <==> !Leq(b, a);
      assert greater <==> !Leq(a, b);
      if less && !greater {
        return Before;
      }
      if greater && !less {
        return After;
      }
      if !less && !greater {
        return Equal;
      }
      return Concurrent;
    }

    method Prune(now: Int64, threshold: nat, maxEntries: nat) returns (pruned: nat)
      modifies this
      ensures PrunedFrom(old(entries), entries, now, threshold, maxEntries)
      ensures pruned == |old(entries)| - |entries|
    {
      pruned := 0;
      ghost var before := entries;
      var todo := entries.Keys;
      while todo != {}
        invariant todo <= before.Keys
        invariant forall n :: n in entries <==> n in before && (n in todo || !Stale(before[n], now, threshold))
        invariant forall n :: n in entries ==> entries[n] == before[n]
        invariant pruned + |entries| == |before|
        decreases todo
      {
        var n :| n in todo;
        if Stale(entries[n], now, threshold) {
          ghost var was := entries;
          entries := entries - {n};
          assert entries.Keys == was.Keys - {n};
          assert |entries.Keys| == |was.Keys| - 1;
          pruned := pruned + 1;
        }
        todo := todo - {n};
      }
      ghost var live := Fresh(before, now, threshold);
      assert entries == live;
      if |entries| > maxEntries {
        var kept := KeepNewest(entries, maxEntries);
        pruned := pruned + (|entries| - |kept|);
        entries := kept;
      }
    }
  }

  /** Sort newest first, then keep the first `count` entries. */
  method KeepNewest(all: Clock, count: nat) returns (kept: Clock)
    requires count < |all|
    ensures kept.Keys <= all.Keys && |kept| == count
    ensures forall n :: n in kept ==> kept[n] == all[n]
    ensures forall k, d :: k in kept && d in all && d !in kept ==> all[d].timestamp <= kept[k].timestamp
  {
    var keys: set<NodeID> := {};
    while |keys| < count
      invariant |keys| <= count && keys <= all.Keys
      invariant forall k, d :: k in keys && d in all && d !in keys ==> all[d].timestamp <= all[k].timestamp
      decreases count - |keys|
    {
      var rest := all.Keys - keys;
      assert rest == {} ==> keys == all.Keys;
      NewestExists(all, rest);
      var k :| IsNewest(all, rest, k);
      keys := keys + {k};
    }
    kept := map n | n in keys :: all[n];
    assert kept.Keys == keys;
  }
}
