/** Writes that dominate what a replica holds: conflict resolution and the expiry sweep. */
module Overwrite {
  import opened Common
  import opened VClock
  import opened Siblings
  import opened StorageEngine
  import opened Merkle

  /** The merge of all sibling clocks. */
  function Joined(s: seq<Sibling>): Clock {
    if s == [] then map[] else Merged(Joined(s[..|s| - 1]), s[|s| - 1].clock)
  }

  method JoinClocks(s: seq<Sibling>) returns (c: Clock)
    ensures c == Joined(s)
  {
    var vc := new VectorClock();
    for i := 0 to |s|
      invariant vc.entries == Joined(s[..i])
    {
      assert s[..i + 1][..i] == s[..i];
      var other := new VectorClock();
      other.entries := s[i].clock;
      vc.Merge(other);
    }
    assert s[..|s|] == s;
    c := vc.entries;
  }

  /** The joined clock is the least clock at or above every sibling. */
  lemma {:induction false} JoinedIsLeast(s: seq<Sibling>, c: Clock)
    ensures Leq(Joined(s), c) <==> forall i :: 0 <= i < |s| ==> Leq(s[i].clock, c)
  {
    if s != [] {
      var n := |s| - 1;
      JoinedIsLeast(s[..n], c);
      MergeIsLeastUpperBound(Joined(s[..n]), s[n].clock, c);
    }
  }

  lemma JoinedCovers(s: seq<Sibling>)
    ensures forall i :: 0 <= i < |s| ==> Leq(s[i].clock, Joined(s))
  {
    JoinedIsLeast(s, Joined(s));
  }

  /** Each counter of the joined clock is reached by some sibling. */
  lemma {:induction false} JoinedIsReached(s: seq<Sibling>, n: NodeID)
    ensures Counter(Joined(s), n) == 0 || exists i :: 0 <= i < |s| && Counter(s[i].clock, n) == Counter(Joined(s), n)
  {
    if s != [] {
      var k := |s| - 1;
      JoinedIsReached(s[..k], n);
      var a, b := Joined(s[..k]), s[k].clock;
      assert Counter(Merged(a, b), n) == if Counter(a, n) < Counter(b, n) then Counter(b, n) else Counter(a, n);
      if Counter(a, n) >= Counter(b, n) && Counter(a, n) != 0 {
        var i :| 0 <= i < k && Counter(s[..k][i].clock, n) == Counter(a, n);
        assert s[..k][i] == s[i];
      }
    }
  }

  lemma AboveAll(w: Sibling, m: Clock, existing: seq<Sibling>)
    requires Compare(w.clock, m) == After && forall i :: 0 <= i < |existing| ==> Leq(existing[i].clock, m)
    ensures Overrides(w, existing)
  {
    forall e | e in existing ensures Compare(w.clock, e.clock) == After {
      LeqTransitive(e.clock, m, w.clock);
      if Leq(w.clock, e.clock) {
        LeqTransitive(w.clock, e.clock, m);
      }
    }
  }

  /** Resolve-then-put: a write whose context covers every stored version replaces them all. */
  lemma ResolvedWriteCollapses(existing: seq<Sibling>, context: Clock, node: NodeID, now: Int64, w: Sibling)
    requires forall i :: 0 <= i < |existing| ==> Leq(existing[i].clock, context)
    requires w.clock == Ticked(context, node, now) && Counter(context, node) != TWO64 - 1
    ensures Reconcile(existing, [w]) == [w]
  {
    TickIsAfterIff(context, node, now);
    AboveAll(w, context, existing);
    OverridingWriteCollapses(existing, w);
  }

  // ----- the expiry sweep -----

  /** The clock of the tombstone a sweep writes: joined, ticked by the sweeper, ticked again by the delete. */
  function SweepClock(s: seq<Sibling>, node: NodeID, now: Int64): Clock {
    Ticked(Ticked(Joined(s), node, now), node, now)
  }

  lemma TickedCounter(c: Clock, n: NodeID, now: Int64)
    ensures Counter(Ticked(c, n, now), n) == Inc64(Counter(c, n))
    ensures forall m :: m != n ==> Counter(Ticked(c, n, now), m) == Counter(c, m)
  {
  }

  /** It happens after every swept sibling exactly when neither tick wraps the counter around. */
  lemma SweepClockIsAfterIff(s: seq<Sibling>, node: NodeID, now: Int64)
    requires s != []
    ensures (forall i :: 0 <= i < |s| ==> Compare(SweepClock(s, node, now), s[i].clock) == After) <==>
            Counter(Joined(s), node) < TWO64 - 2
  {
    var j := Joined(s);
    var t, k := SweepClock(s, node, now), Counter(j, node);
    TickedCounter(j, node, now);
    TickedCounter(Ticked(j, node, now), node, now);
    if k < TWO64 - 2 {
      TickIsAfterIff(j, node, now);
      TickIsAfterIff(Ticked(j, node, now), node, now);
      LeqTransitive(j, Ticked(j, node, now), t);
      JoinedCovers(s);
      forall i | 0 <= i < |s| ensures Compare(t, s[i].clock) == After {
        LeqTransitive(s[i].clock, j, t);
        LeqAt(s[i].clock, j, node);
        assert node in t && Counter(t, node) > Counter(s[i].clock, node);
      }
    } else {
      JoinedIsReached(s, node);
      var i :| 0 <= i < |s| && Counter(s[i].clock, node) == k;
      assert Counter(t, node) < k;
      assert node in s[i].clock && !Leq(s[i].clock, t);
    }
  }

  lemma ExactlyPruned(w: Sibling, opts: Options, now: Int64, r: seq<Sibling>)
    requires opts.maxSiblings > 0 && Trimmed([w], opts, now, r)
    ensures |r| == 1 && r[0] == w.(clock := r[0].clock)
    ensures PrunedFrom(w.clock, r[0].clock, now, opts.pruneThreshold, opts.maxEntries)
  {
  }

  /** The swept replica keeps the tombstone and nothing else, whatever has expired and whatever is pruned. */
  lemma SweepLeavesOnlyTombstone(s: seq<Sibling>, node: NodeID, now: Int64, t: Sibling, opts: Options, r: seq<Sibling>)
    requires s != [] && Counter(Joined(s), node) < TWO64 - 2 && opts.maxSiblings > 0
    requires t.tombstone && t.clock == SweepClock(s, node, now)
    requires PutResult(s, [t], opts, now, r)
    ensures |r| == 1 && r[0].tombstone && r[0] == t.(clock := r[0].clock)
    ensures PrunedFrom(t.clock, r[0].clock, now, opts.pruneThreshold, opts.maxEntries)
  {
    SweepClockIsAfterIff(s, node, now);
    UnexpiredFrom(s, now);
    forall e | e in Unexpired(s, now) ensures Compare(t.clock, e.clock) == After {
      var i :| 0 <= i < |s| && s[i] == e;
    }
    OverridingWriteCollapses(Unexpired(s, now), t);
    ExactlyPruned(t, opts, now, r);
  }

  const SWEEP_LIMIT: nat := 1000

  /** Some sibling has an expiry that has passed. */
  predicate Overdue(s: seq<Sibling>, now: Int64) {
    exists i :: 0 <= i < |s| && 0 != s[i].expiresAt <= now
  }

  /** One delete issued by the sweep. */
  datatype SweepDelete = SweepDelete(key: Bytes, clock: Clock)

  method AnyExpired(s: seq<Sibling>, now: Int64) returns (r: bool)
    ensures r == Overdue(s, now)
  {
    for i := 0 to |s|
      invariant forall j :: 0 <= j < i ==> s[j].expiresAt == 0 || now < s[j].expiresAt
    {
      if s[i].expiresAt != 0 && now >= s[i].expiresAt {
        return true;
      }
    }
    r := false;
  }

  /** One sweep: at most 1000 successful deletes, only of expired records, each with a clock ready to override
      the whole record; below the limit no expired record is passed over. */
  method Sweep(scan: seq<Record>, node: NodeID, now: Int64, succeeds: Bytes -> bool)
    returns (issued: seq<SweepDelete>, deleted: nat)
    ensures deleted <= 1000
    ensures forall d :: d in issued ==>
              exists i :: 0 <= i < |scan| && scan[i].key == d.key && Overdue(scan[i].value, now)
                          && d.clock == Ticked(Joined(scan[i].value), node, now)
    ensures deleted < 1000 ==>
              forall i :: 0 <= i < |scan| && Overdue(scan[i].value, now) ==>
                SweepDelete(scan[i].key, Ticked(Joined(scan[i].value), node, now)) in issued
  {
    issued, deleted := [], 0;
    for i := 0 to |scan|
      invariant deleted <= SWEEP_LIMIT
      invariant forall d :: d in issued ==>
        exists j :: 0 <= j < i && scan[j].key == d.key && Overdue(scan[j].value, now)
                    && d.clock == Ticked(Joined(scan[j].value), node, now)
      invariant forall j :: 0 <= j < i && Overdue(scan[j].value, now) ==>
        SweepDelete(scan[j].key, Ticked(Joined(scan[j].value), node, now)) in issued
    {
      if deleted >= SWEEP_LIMIT {
        return;
      }
      var expired := AnyExpired(scan[i].value, now);
      if expired {
        var joined := JoinClocks(scan[i].value);
        issued := issued + [SweepDelete(scan[i].key, Ticked(joined, node, now))];
        if succeeds(scan[i].key) {
          deleted := deleted + 1;
        }
      }
    }
  }
}
