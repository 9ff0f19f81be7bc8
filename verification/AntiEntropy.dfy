/** Anti-entropy: pushing every stored key, bucket by bucket, to a peer. */
module AntiEntropy {
  import opened Common
  import opened VClock
  import opened Siblings
  import opened ReadMerge
  import opened Transport
  import opened Changes
  import opened Digests
  import opened Lists
  import opened MerkleSpec
  import opened Merkle

  type Store = map<Bytes, seq<Sibling>>

  function Held(s: Store, key: Bytes): seq<Sibling> {
    if key in s then s[key] else []
  }

  ghost predicate PlainStore(s: Store) {
    forall k :: k in s ==> Plain(s[k])
  }

  /** A replica whose Puts neither prune nor expire anything, so that each one is a reconciliation. */
  class Replica {
    var store: Store

    constructor ()
      ensures store == map[]
    {
      store := map[];
    }

    method Put(key: Bytes, incoming: seq<Sibling>)
      modifies this
      ensures store == old(store)[key := Reconcile(Held(old(store), key), incoming)]
    {
      var merged := ReconcileSiblings(if key in store then store[key] else [], incoming);
      store := store[key := merged];
    }

    /** One replicate request, stamped with the time of its arrival. */
    method Replicate(key: Bytes, x: Sibling)
      requires PlainStore(store) && Plain([x])
      modifies this
      ensures PlainStore(store) && store.Keys == old(store).Keys + {key}
      ensures forall k :: k != key ==> Held(store, k) == Held(old(store), k)
      ensures forall c :: Covers(Held(store, key), c) <==> Covers(Held(old(store), key), c) || Covers([x], c)
    {
      var now: Int64 := *;
      OneArrival(Held(store, key), x, now);
      Put(key, [Sent(x, now)]);
    }

    /** Siblings are sent one by one so that the peer can merge each; the first failure ends the call. */
    method RemotePut(key: Bytes, siblings: seq<Sibling>, failsAt: Option<nat>) returns (ok: bool)
      requires PlainStore(store) && Plain(siblings)
      modifies this
      ensures PlainStore(store) && ok == (Arriving(siblings, failsAt) == siblings)
      ensures forall k :: k != key ==> Held(store, k) == Held(old(store), k)
      ensures forall c :: Covers(Held(store, key), c) <==>
                          Covers(Held(old(store), key), c) || Covers(Arriving(siblings, failsAt), c)
    {
      for i := 0 to |siblings|
        invariant failsAt.Some? ==> i <= failsAt.value
        invariant PlainStore(store)
        invariant forall k :: k != key ==> Held(store, k) == Held(old(store), k)
        invariant forall c ::
                    Covers(Held(store, key), c) <==> Covers(Held(old(store), key), c) || Covers(siblings[..i], c)
      {
        if failsAt == Some(i) {
          assert |siblings[..i]| < |siblings|;
          return false;
        }
        Replicate(key, siblings[i]);
        CoversSnoc(siblings, i);
      }
      assert siblings[..|siblings|] == siblings;
      ok := true;
    }
  }

  /** The siblings sent before the request that fails, if one does. */
  function Arriving(siblings: seq<Sibling>, failsAt: Option<nat>): seq<Sibling> {
    if failsAt.Some? && failsAt.value < |siblings| then siblings[..failsAt.value] else siblings
  }

  lemma CoversSnoc(s: seq<Sibling>, i: nat)
    requires i < |s|
    ensures forall c :: Covers(s[..i + 1], c) <==> Covers(s[..i], c) || Covers([s[i]], c)
  {
    assert s[..i + 1] == s[..i] + [s[i]];
    forall c ensures Covers(s[..i + 1], c) <==> Covers(s[..i], c) || Covers([s[i]], c) {
      CoversConcat(s[..i], [s[i]], c);
    }
  }

  /** A sibling that arrives over the wire adds its own cover to what the replica held. */
  lemma OneArrival(held: seq<Sibling>, x: Sibling, now: Int64)
    requires Plain(held) && Plain([x])
    ensures Plain(Reconcile(held, [Sent(x, now)]))
    ensures forall c :: Covers(Reconcile(held, [Sent(x, now)]), c) <==> Covers(held, c) || Covers([x], c)
  {
    SentAllPlain([x], now);
    assert SentAll([x], now) == [Sent(x, now)];
    ReconcileIsPlain(held, [Sent(x, now)]);
    forall c ensures Covers(Reconcile(held, [Sent(x, now)]), c) <==> Covers(held, c) || Covers([x], c) {
      ReconcileCover(held, [Sent(x, now)], c);
      SentAllCovers([x], now, c);
    }
  }

  lemma CoversConcat(a: seq<Sibling>, b: seq<Sibling>, c: Clock)
    ensures Covers(a + b, c) <==> Covers(a, c) || Covers(b, c)
  {
    if Covers(a, c) {
      var i :| 0 <= i < |a| && Leq(c, a[i].clock);
      CoveredBy(a + b, i, c);
    }
    if Covers(b, c) {
      var i :| 0 <= i < |b| && Leq(c, b[i].clock);
      assert (a + b)[|a| + i] == b[i];
      CoveredBy(a + b, |a| + i, c);
    }
    if Covers(a + b, c) {
      var i :| 0 <= i < |a + b| && Leq(c, (a + b)[i].clock);
      if i < |a| {
        CoveredBy(a, i, c);
      } else {
        CoveredBy(b, i - |a|, c);
      }
    }
  }

  // ----- what a pass achieves -----

  /** The peer lost nothing, gained nothing but versions of the tried keys of `local`, and gained all of the done
      ones. */
  ghost predicate Pushed(local: Store, before: Store, after: Store, done: set<Bytes>, tried: set<Bytes>) {
    && PlainStore(after)
    && (forall k, c :: Covers(Held(before, k), c) ==> Covers(Held(after, k), c))
    && (forall k, c :: Covers(Held(after, k), c) ==>
          Covers(Held(before, k), c) || (k in tried && Covers(Held(local, k), c)))
    && (forall k, c :: k in done && Covers(Held(local, k), c) ==> Covers(Held(after, k), c))
  }

  lemma PushedTwice(local: Store, a: Store, b: Store, c: Store, x: set<Bytes>, s: set<Bytes>, y: set<Bytes>,
                    t: set<Bytes>)
    requires Pushed(local, a, b, x, s) && Pushed(local, b, c, y, t)
    ensures Pushed(local, a, c, x + y, s + t)
  {
  }

  lemma OnePush(local: Store, before: Store, after: Store, key: Bytes, failsAt: Option<nat>)
    requires PlainStore(after) && forall k :: k != key ==> Held(after, k) == Held(before, k)
    requires forall c :: Covers(Held(after, key), c) <==>
                         Covers(Held(before, key), c) || Covers(Arriving(Held(local, key), failsAt), c)
    ensures Pushed(local, before, after,
                   if Arriving(Held(local, key), failsAt) == Held(local, key) then {key} else {}, {key})
  {
    var all, some := Held(local, key), Arriving(Held(local, key), failsAt);
    forall c | Covers(some, c) ensures Covers(all, c) {
      var i :| 0 <= i < |some| && Leq(c, some[i].clock);
      assert all[i] == some[i];
      CoveredBy(all, i, c);
    }
  }

  /** A scan lists every stored key once. */
  ghost predicate Scans(local: Store, scan: seq<Record>) {
    && (forall i :: 0 <= i < |scan| ==> scan[i].key in local && local[scan[i].key] == scan[i].value)
    && (forall i, j :: 0 <= i < j < |scan| ==> scan[i].key != scan[j].key)
    && (forall k :: k in local ==> exists i :: 0 <= i < |scan| && scan[i].key == k)
  }

  /** The keys of the first `n` scanned records that fall into a bucket. */
  function InBucket(h: Hashing, buckets: nat, scan: seq<Record>, n: nat, bucket: nat): set<Bytes>
    requires buckets > 0 && n <= |scan|
  {
    set i | 0 <= i < n && Bucket(h, scan[i].key, buckets) == bucket :: scan[i].key
  }

  type Failures = Bytes -> Option<nat>

  /** Of some keys, those whose push does not fail. */
  function Complete(local: Store, keys: set<Bytes>, fails: Failures): set<Bytes> {
    set k | k in keys && Arriving(Held(local, k), fails(k)) == Held(local, k)
  }

  /** An exchange goes ahead when the peer's root could be read and is another one. */
  predicate GoesAhead(root: Digest, peerRoot: Option<Digest>) {
    peerRoot.Some? && peerRoot.value != root
  }

  /** Push the keys of one bucket when the roots differ; `pushed` records the completed pushes in order. */
  method ExchangeWithPeer(tree: MerkleTree, local: Store, scan: seq<Record>, peer: Replica, bucket: nat,
                          peerRoot: Option<Digest>, fails: Failures)
    returns (pushed: seq<Bytes>)
    requires tree.Valid() && Scans(local, scan) && PlainStore(local) && PlainStore(peer.store)
    modifies peer, tree.nodeHashes, tree.dirty
    ensures tree.Valid()
    ensures var keys := if GoesAhead(Root(tree.h.node, tree.depth, tree.leafHashes[..]), peerRoot)
                        then InBucket(tree.h, Pow2(tree.depth), scan, |scan|, bucket) else {};
            && Pushed(local, old(peer.store), peer.store, Complete(local, keys, fails), keys)
            && (forall k :: k in pushed <==> k in Complete(local, keys, fails))
            && NoRepeats(pushed)
    ensures peerRoot.None? || peerRoot.value == Root(tree.h.node, tree.depth, tree.leafHashes[..]) ==>
              pushed == [] && peer.store == old(peer.store)
  {
    pushed := [];
    var myRoot := tree.GetRoot();
    if peerRoot.None? || peerRoot.value == myRoot {
      return;
    }
    pushed := PushBucket(tree.h, Pow2(tree.depth), local, scan, peer, bucket, fails);
  }

  /** The scan that pushes one bucket. */
  method PushBucket(h: Hashing, buckets: nat, local: Store, scan: seq<Record>, peer: Replica, bucket: nat,
                    fails: Failures)
    returns (pushed: seq<Bytes>)
    requires buckets > 0 && Scans(local, scan) && PlainStore(local) && PlainStore(peer.store)
    modifies peer
    ensures var keys := InBucket(h, buckets, scan, |scan|, bucket);
            && Pushed(local, old(peer.store), peer.store, Complete(local, keys, fails), keys)
            && (forall k :: k in pushed <==> k in Complete(local, keys, fails))
            && NoRepeats(pushed)
  {
    pushed := [];
    for n := 0 to |scan|
      invariant var keys := InBucket(h, buckets, scan, n, bucket);
                && Pushed(local, old(peer.store), peer.store, Complete(local, keys, fails), keys)
                && (forall k :: k in pushed <==> k in Complete(local, keys, fails))
      invariant NoRepeats(pushed)
    {
      var x := scan[n];
      ghost var keys := InBucket(h, buckets, scan, n, bucket);
      if Bucket(h, x.key, buckets) == bucket {
        ghost var was := peer.store;
        var ok := peer.RemotePut(x.key, x.value, fails(x.key));
        OnePush(local, was, peer.store, x.key, fails(x.key));
        PushedTwice(local, old(peer.store), was, peer.store, Complete(local, keys, fails), keys,
                    if ok then {x.key} else {}, {x.key});
        assert InBucket(h, buckets, scan, n + 1, bucket) == keys + {x.key};
        assert Complete(local, keys + {x.key}, fails) == Complete(local, keys, fails) + if ok then {x.key} else {};
        assert x.key !in pushed;
        if ok {
          pushed := pushed + [x.key];
        }
      } else {
        assert InBucket(h, buckets, scan, n + 1, bucket) == keys;
      }
    }
  }

  function Chosen(h: Hashing, buckets: nat, local: Store, n: nat, ahead: nat -> bool): set<Bytes>
    requires buckets > 0
  {
    set k | k in local && Bucket(h, k, buckets) < n && ahead(Bucket(h, k, buckets))
  }

  function Ahead(root: Digest, peerRoots: nat -> Option<Digest>): nat -> bool {
    (i: nat) => GoesAhead(root, peerRoots(i))
  }

  /** A full pass over all buckets. A key is pushed, at most once, when the roots differed at its bucket. */
  method TriggerWithPeer(tree: MerkleTree, local: Store, scan: seq<Record>, peer: Replica,
                         peerRoots: nat -> Option<Digest>, fails: Failures)
    returns (pushed: seq<Bytes>)
    requires tree.Valid() && Scans(local, scan) && PlainStore(local) && PlainStore(peer.store)
    modifies peer, tree.nodeHashes, tree.dirty
    ensures tree.Valid()
    ensures var keys := Chosen(tree.h, Pow2(tree.depth), local, Pow2(tree.depth),
                               Ahead(Root(tree.h.node, tree.depth, tree.leafHashes[..]), peerRoots));
            && Pushed(local, old(peer.store), peer.store, Complete(local, keys, fails), keys)
            && (forall k :: k in pushed <==> k in Complete(local, keys, fails))
            && NoRepeats(pushed)
  {
    pushed := [];
    var buckets := Pow2(tree.depth);
    ghost var h, leaves := tree.h, tree.leafHashes[..];
    ghost var ahead := Ahead(Root(tree.h.node, tree.depth, leaves), peerRoots);
    for i := 0 to buckets
      invariant tree.Valid() && tree.leafHashes[..] == leaves
      invariant var keys := Chosen(h, buckets, local, i, ahead);
                && Pushed(local, old(peer.store), peer.store, Complete(local, keys, fails), keys)
                && (forall k :: k in pushed <==> k in Complete(local, keys, fails))
      invariant NoRepeats(pushed)
    {
      ghost var was := peer.store;
      ghost var before := Chosen(h, buckets, local, i, ahead);
      var more := ExchangeWithPeer(tree, local, scan, peer, i, peerRoots(i), fails);
      ghost var keys := if ahead(i) then InBucket(h, buckets, scan, |scan|, i) else {};
      PushedTwice(local, old(peer.store), was, peer.store, Complete(local, before, fails), before,
                  Complete(local, keys, fails), keys);
      NextChosen(h, buckets, local, scan, i, ahead, fails);
      pushed := AppendDistinct(pushed, more);
    }
  }

  lemma NextChosen(h: Hashing, buckets: nat, local: Store, scan: seq<Record>, i: nat, ahead: nat -> bool,
                   fails: Failures)
    requires buckets > 0 && Scans(local, scan)
    ensures var keys := if ahead(i) then InBucket(h, buckets, scan, |scan|, i) else {};
            var before := Chosen(h, buckets, local, i, ahead);
            && Chosen(h, buckets, local, i + 1, ahead) == before + keys && before !! keys
            && Complete(local, before + keys, fails) == Complete(local, before, fails) + Complete(local, keys, fails)
  {
  }

  method AppendDistinct(a: seq<Bytes>, b: seq<Bytes>) returns (r: seq<Bytes>)
    requires NoRepeats(a) && NoRepeats(b) && forall x :: x in a ==> x !in b
    ensures r == a + b && NoRepeats(r)
  {
    r := a + b;
    forall i, j | 0 <= i < |a| && 0 <= j < |b| ensures a[i] != b[j] {
      assert a[i] in a;
    }
  }

  /** When every exchange sees differing roots, the pass tries every stored key. */
  lemma AllKeysChosen(h: Hashing, buckets: nat, local: Store, ahead: nat -> bool)
    requires buckets > 0 && forall i: nat :: i < buckets ==> ahead(i)
    ensures Chosen(h, buckets, local, buckets, ahead) == local.Keys
  {
    forall k | k in local ensures k in Chosen(h, buckets, local, buckets, ahead) {
      assert ahead(Bucket(h, k, buckets));
    }
  }

  // ----- both directions -----

  /** A pass in each direction, with no other writes, leaves both replicas with the same versions of every key. */
  lemma TwoWaySyncEqualises(a: Store, b: Store, b': Store, a': Store, key: Bytes)
    requires Pushed(a, b, b', a.Keys, a.Keys) && Pushed(b', a, a', b'.Keys, b'.Keys)
    ensures SameCover(Held(a', key), Held(b', key))
    ensures ClockSet(Maximal(Held(a', key))) == ClockSet(Maximal(Held(b', key)))
  {
    forall c: Clock ensures Covers(Held(a', key), c) <==> Covers(Held(b', key), c) {
    }
    MaximalDependsOnCover(Held(a', key), Held(b', key));
  }

  /** One direction alone makes the peer cover everything the sender covers, and equality then depends on the peer
      having had nothing more. */
  lemma OneWaySyncEqualisesIff(a: Store, b: Store, b': Store, key: Bytes)
    requires Pushed(a, b, b', a.Keys, a.Keys)
    ensures forall c :: Covers(Held(a, key), c) ==> Covers(Held(b', key), c)
    ensures SameCover(Held(a, key), Held(b', key)) <==>
            forall c: Clock :: Covers(Held(b, key), c) ==> Covers(Held(a, key), c)
  {
    assert forall c :: Covers(Held(b', key), c) <==> Covers(Held(b, key), c) || Covers(Held(a, key), c);
  }

  /** The scan of a replica. */
  method Scan(s: Store) returns (scan: seq<Record>)
    ensures Scans(s, scan)
  {
    scan := [];
    var todo := s.Keys;
    while todo != {}
      invariant todo <= s.Keys
      invariant forall i :: 0 <= i < |scan| ==>
                  scan[i].key in s && scan[i].key !in todo && s[scan[i].key] == scan[i].value
      invariant forall i, j :: 0 <= i < j < |scan| ==> scan[i].key != scan[j].key
      invariant forall k :: k in s && k !in todo ==> exists i :: 0 <= i < |scan| && scan[i].key == k
      decreases todo
    {
      var key :| key in todo;
      ghost var was := scan;
      scan := scan + [Item(key, s[key])];
      todo := todo - {key};
      assert scan[|was|].key == key;
      forall k | k in s && k !in todo ensures exists i :: 0 <= i < |scan| && scan[i].key == k {
        if k != key {
          var i :| 0 <= i < |was| && was[i].key == k;
          assert scan[i].key == k;
        }
      }
    }
  }

  ghost predicate KeepsDiffering(tree: MerkleTree, peerRoots: nat -> Option<Digest>)
    reads tree, tree.leafHashes
    requires tree.leafHashes.Length == Pow2(tree.depth)
  {
    forall i: nat :: i < Pow2(tree.depth) ==>
      GoesAhead(Root(tree.h.node, tree.depth, tree.leafHashes[..]), peerRoots(i))
  }

  /** A pass in which roots keep differing and no push fails gives the peer everything. */
  method PushAll(from: Replica, tree: MerkleTree, peer: Replica, peerRoots: nat -> Option<Digest>)
    requires from != peer && tree.Valid() && PlainStore(from.store) && PlainStore(peer.store)
    requires KeepsDiffering(tree, peerRoots)
    modifies peer, tree.nodeHashes, tree.dirty
    ensures Pushed(from.store, old(peer.store), peer.store, from.store.Keys, from.store.Keys)
  {
    var none: Failures := (k: Bytes) => None;
    var scan := Scan(from.store);
    AllKeysChosen(tree.h, Pow2(tree.depth), from.store,
                  Ahead(Root(tree.h.node, tree.depth, tree.leafHashes[..]), peerRoots));
    assert Complete(from.store, from.store.Keys, none) == from.store.Keys;
    var pushed := TriggerWithPeer(tree, from.store, scan, peer, peerRoots, none);
  }

  /** A pass each way, in which roots keep differing and no push fails, leaves both replicas with the same cover and
      the same visible versions of every key. */
  method SyncBothWays(a: Replica, treeA: MerkleTree, rootsB: nat -> Option<Digest>,
                      b: Replica, treeB: MerkleTree, rootsA: nat -> Option<Digest>)
    requires a != b && treeA.Valid() && treeB.Valid() && treeA.Repr() !! treeB.Repr()
    requires PlainStore(a.store) && PlainStore(b.store)
    requires KeepsDiffering(treeA, rootsB) && KeepsDiffering(treeB, rootsA)
    modifies a, b, treeA.nodeHashes, treeA.dirty, treeB.nodeHashes, treeB.dirty
    ensures forall key :: SameCover(Held(a.store, key), Held(b.store, key))
    ensures forall key :: ClockSet(Maximal(Held(a.store, key))) == ClockSet(Maximal(Held(b.store, key)))
    ensures forall key, c :: Covers(Held(a.store, key), c) <==>
                             Covers(Held(old(a.store), key), c) || Covers(Held(old(b.store), key), c)
  {
    PushAll(a, treeA, b, rootsB);
    PushAll(b, treeB, a, rootsA);
    forall key ensures SameCover(Held(a.store, key), Held(b.store, key))
               ensures ClockSet(Maximal(Held(a.store, key))) == ClockSet(Maximal(Held(b.store, key)))
    {
      TwoWaySyncEqualises(old(a.store), old(b.store), b.store, a.store, key);
    }
  }
}
