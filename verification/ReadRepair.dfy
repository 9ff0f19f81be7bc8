/** Read repair: bringing a stale replica up to the merged versions of a read. */
module ReadRepair {
  import opened Common
  import opened VClock
  import opened Siblings
  import opened Lists
  import opened ReadMerge
  import opened Convergence
  import opened StorageEngine
  import opened Transport
  import opened AntiEntropy

  /** A replica needs repair when it answered nothing, or is missing some merged version. */
  predicate NeedsRepair(merged: seq<Sibling>, replica: Option<seq<Sibling>>) {
    replica.None? || exists i :: 0 <= i < |merged| && !Covers(replica.value, merged[i].clock)
  }

  /** The answer of a remote replica: tombstones hidden, nothing left reads as not found. */
  function RemoteAnswer(stored: seq<Sibling>, now: Int64): Option<seq<Sibling>> {
    if Live(stored) == [] then None else Some(SentAll(Live(stored), now))
  }

  function RawAnswer(stored: seq<Sibling>): Option<seq<Sibling>> {
    if stored == [] then None else Some(stored)
  }

  method IsDominatedOrEqual(c: Clock, siblings: seq<Sibling>) returns (r: bool)
    ensures r == Covers(siblings, c)
  {
    for i := 0 to |siblings|
      invariant forall j :: 0 <= j < i ==> !Leq(c, siblings[j].clock)
    {
      var o := Compare(c, siblings[i].clock);
      if o == Before || o == Equal {
        return true;
      }
    }
    r := false;
  }

  method CheckNeedsRepair(merged: seq<Sibling>, replica: Option<seq<Sibling>>) returns (r: bool)
    ensures r == NeedsRepair(merged, replica)
  {
    if replica.None? {
      return true;
    }
    for i := 0 to |merged|
      invariant forall j :: 0 <= j < i ==> Covers(replica.value, merged[j].clock)
    {
      var known := IsDominatedOrEqual(merged[i].clock, replica.value);
      if !known {
        return true;
      }
    }
    r := false;
  }

  /** Push the merged versions; unless the call fails the replica then needs no repair, and it never loses anything. */
  method SendRepair(self: NodeID, node: NodeID, peer: Replica, key: Bytes, merged: seq<Sibling>, failsAt: Option<nat>)
    requires PlainStore(peer.store) && Plain(merged)
    modifies peer
    ensures node == self ==> peer.store == old(peer.store)
    ensures PlainStore(peer.store)
    ensures forall k :: k != key ==> Held(peer.store, k) == Held(old(peer.store), k)
    ensures forall c :: Covers(Held(old(peer.store), key), c) ==> Covers(Held(peer.store, key), c)
    ensures forall c :: Covers(Held(peer.store, key), c) ==> Covers(Held(old(peer.store), key), c) || Covers(merged, c)
    ensures node != self && merged != [] && Arriving(merged, failsAt) == merged ==>
              !NeedsRepair(merged, RawAnswer(Held(peer.store, key)))
  {
    if node == self {
      return;
    }
    var ok := peer.RemotePut(key, merged, failsAt);
    ArrivingWithin(merged, failsAt);
    if merged != [] && ok {
      RepairReachesFixedPoint(Held(peer.store, key), merged);
    }
  }

  lemma ArrivingWithin(s: seq<Sibling>, failsAt: Option<nat>)
    ensures forall c :: Covers(Arriving(s, failsAt), c) ==> Covers(s, c)
  {
    var some := Arriving(s, failsAt);
    forall c | Covers(some, c) ensures Covers(s, c) {
      var i :| 0 <= i < |some| && Leq(c, some[i].clock);
      assert s[i] == some[i];
      CoveredBy(s, i, c);
    }
  }

  lemma RepairReachesFixedPoint(stored: seq<Sibling>, merged: seq<Sibling>)
    requires merged != [] && forall c :: Covers(merged, c) ==> Covers(stored, c)
    ensures !NeedsRepair(merged, RawAnswer(stored))
  {
    forall i | 0 <= i < |merged| ensures Covers(stored, merged[i].clock) {
      CoveredBy(merged, i, merged[i].clock);
    }
    assert Covers(stored, merged[0].clock);
  }

  /** Once repaired, a replica stays repaired under every later quiet run of Puts. */
  lemma RepairedStaysRepaired(opts: Options, stores: seq<seq<Sibling>>, writes: seq<seq<Sibling>>, times: seq<Int64>,
                              merged: seq<Sibling>)
    requires QuietRun(opts, stores, writes, times) && Plain(stores[0]) && PlainWrites(writes) && merged != []
    requires !NeedsRepair(merged, RawAnswer(stores[0]))
    ensures !NeedsRepair(merged, RawAnswer(Final(stores)))
  {
    forall i | 0 <= i < |merged| ensures Covers(Final(stores), merged[i].clock) {
      CoverOfRun(opts, stores, writes, times, merged[i].clock);
    }
    assert Covers(Final(stores), merged[0].clock);
  }

  /** Seen through a remote read, which hides tombstones, the repair has settled exactly when every merged
      version is at or below a live sibling. */
  lemma RemoteViewSettledIff(stored: seq<Sibling>, merged: seq<Sibling>, now: Int64)
    requires merged != []
    ensures !NeedsRepair(merged, RemoteAnswer(stored, now)) <==>
            forall i :: 0 <= i < |merged| ==> Covers(Live(stored), merged[i].clock)
  {
    forall i | 0 <= i < |merged|
      ensures Covers(SentAll(Live(stored), now), merged[i].clock) <==> Covers(Live(stored), merged[i].clock)
    {
      SentAllCovers(Live(stored), now, merged[i].clock);
    }
    if forall i :: 0 <= i < |merged| ==> Covers(Live(stored), merged[i].clock) {
      assert Covers(Live(stored), merged[0].clock);
    }
  }

  /** Hence a deleted key is repaired again on every read: a replica that holds just the tombstone answers nothing. */
  lemma TombstoneRepairNeverSettles(t: Sibling, now: Int64)
    requires t.tombstone
    ensures !NeedsRepair([t], RawAnswer([t]))
    ensures NeedsRepair([t], RemoteAnswer([t], now))
  {
    CoveredBy([t], 0, t.clock);
    FilterOne(NotTombstone, t);
  }
}
