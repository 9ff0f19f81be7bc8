/** Gossip: last-writer-wins merging of peer entries by timestamp. */
module Gossip {
  import opened Common
  import opened Membership

  datatype NodeEntry = NodeEntry(id: NodeID, addr: Bytes, status: NodeStatus, version: Uint64, updatedAt: Int64)

  type View = map<NodeID, NodeEntry>

  // ----- specification -----

  /** An incoming entry is taken when it is about another node and is new or strictly newer. */
  predicate Accepts(self: NodeID, s: View, m: View, n: NodeID) {
    n != self && n in m && (n !in s || m[n].updatedAt > s[n].updatedAt)
  }

  function MergedView(self: NodeID, s: View, m: View): View {
    map n | n in s.Keys + (m.Keys - {self}) :: if Accepts(self, s, m, n) then m[n] else s[n]
  }

  function MergedPeers(self: NodeID, s: View, m: View, peers: map<NodeID, NodeStatus>): map<NodeID, NodeStatus> {
    map n | n in peers :: if Accepts(self, s, m, n) then m[n].status else peers[n]
  }

  /** A failure or recovery noted about another node. */
  function Marked(s: View, n: NodeID, status: NodeStatus, now: Int64): View {
    var entry := if n in s then s[n] else NodeEntry(n, [], Unknown, 0, 0);
    s[n := entry.(status := status, updatedAt := now)]
  }

  /** A change of the node's own status. */
  function SelfUpdated(self: NodeID, addr: Bytes, s: View, status: NodeStatus, now: Int64): View {
    var entry := if self in s then s[self] else NodeEntry(self, addr, Unknown, 0, 0);
    s[self := entry.(status := status, version := Inc64(entry.version), updatedAt := now)]
  }

  lemma NothingMerged(self: NodeID, s: View, peers: map<NodeID, NodeStatus>)
    ensures MergedView(self, s, map[]) == s && MergedPeers(self, s, map[], peers) == peers
  {
    assert MergedView(self, s, map[]).Keys == s.Keys;
  }

  /** One more entry of a message. */
  lemma MergeOne(self: NodeID, s: View, m: View, n: NodeID, e: NodeEntry)
    requires n !in m
    ensures var v := MergedView(self, s, m);
            var taken := n != self && (n !in v || e.updatedAt > v[n].updatedAt);
            && taken == Accepts(self, s, m[n := e], n)
            && MergedView(self, s, m[n := e]) == if taken then v[n := e] else v
  {
    var v, w := MergedView(self, s, m), MergedView(self, s, m[n := e]);
    assert n in v <==> n in s;
    var taken := n != self && (n !in v || e.updatedAt > v[n].updatedAt);
    var r := if taken then v[n := e] else v;
    assert w.Keys == r.Keys;
    forall k | k in w ensures w[k] == r[k] {
      assert k != n ==> (Accepts(self, s, m[n := e], k) <==> Accepts(self, s, m, k));
    }
  }

  lemma MergeOnePeer(self: NodeID, s: View, m: View, n: NodeID, e: NodeEntry, peers: map<NodeID, NodeStatus>)
    requires n !in m
    ensures var w := MergedPeers(self, s, m, peers);
            MergedPeers(self, s, m[n := e], peers) ==
            if n in peers && Accepts(self, s, m[n := e], n) then w[n := e.status] else w
  {
    var w, x := MergedPeers(self, s, m, peers), MergedPeers(self, s, m[n := e], peers);
    forall k | k in x ensures x[k] == if k == n && Accepts(self, s, m[n := e], n) then e.status else w[k] {
      assert k != n ==> (Accepts(self, s, m[n := e], k) <==> Accepts(self, s, m, k));
    }
  }

  // ----- the object -----

  class Gossip {
    const nodeID: NodeID
    const selfAddr: Bytes
    var state: View
    var peers: map<NodeID, NodeStatus>

    constructor (nodeID: NodeID, selfAddr: Bytes, peers: map<NodeID, NodeStatus>, now: Int64)
      ensures this.nodeID == nodeID && this.selfAddr == selfAddr && this.peers == peers
      ensures state == map[nodeID := NodeEntry(nodeID, selfAddr, Active, 1, now)]
    {
      this.nodeID := nodeID;
      this.selfAddr := selfAddr;
      this.peers := peers;
      state := map[nodeID := NodeEntry(nodeID, selfAddr, Active, 1, now)];
    }

    method Merge(incoming: View)
      modifies this
      ensures state == MergedView(nodeID, old(state), incoming)
      ensures peers == MergedPeers(nodeID, old(state), incoming, old(peers))
      ensures state.Keys == old(state).Keys + (incoming.Keys - {nodeID}) && peers.Keys == old(peers).Keys
      ensures forall n :: n in incoming && n != nodeID ==>
                if n !in old(state) || incoming[n].updatedAt > old(state)[n].updatedAt
                then state[n] == incoming[n] && (n in peers ==> peers[n] == incoming[n].status)
                else state[n] == old(state)[n] && (n in peers ==> peers[n] == old(peers)[n])
      ensures forall n :: n !in incoming || n == nodeID ==>
                && (n in old(state) ==> state[n] == old(state)[n])
                && (n in old(peers) ==> peers[n] == old(peers)[n])
    {
      ghost var before, statuses := state, peers;
      var todo := incoming.Keys;
      ghost var done: View := map[];
      NothingMerged(nodeID, state, peers);
      while todo != {}
        invariant todo <= incoming.Keys && done == incoming - todo
        invariant state == MergedView(nodeID, before, done)
        invariant peers == MergedPeers(nodeID, before, done, statuses)
        decreases todo
      {
        var n :| n in todo;
        todo := todo - {n};
        MergeOne(nodeID, before, done, n, incoming[n]);
        MergeOnePeer(nodeID, before, done, n, incoming[n], statuses);
        done := done[n := incoming[n]];
        if n == nodeID {
          continue;
        }
        if n !in state || incoming[n].updatedAt > state[n].updatedAt {
          state := state[n := incoming[n]];
          if n in peers {
            peers := peers[n := incoming[n].status];
          }
        }
      }
      assert done == incoming;
    }

    method MarkPeer(n: NodeID, status: NodeStatus, now: Int64)
      modifies this`state
      ensures state == Marked(old(state), n, status, now)
      ensures state.Keys == old(state).Keys + {n} && state[n].status == status && state[n].updatedAt == now
      ensures n in old(state) ==> state[n].addr == old(state)[n].addr && state[n].version == old(state)[n].version
      ensures forall k :: k in old(state) && k != n ==> state[k] == old(state)[k]
    {
      var entry := if n in state then state[n] else NodeEntry(n, [], Unknown, 0, 0);
      state := state[n := entry.(status := status, updatedAt := now)];
    }

    method SetSelf(status: NodeStatus, now: Int64)
      modifies this`state
      ensures state == SelfUpdated(nodeID, selfAddr, old(state), status, now)
      ensures state.Keys == old(state).Keys + {nodeID}
      ensures state[nodeID].status == status && state[nodeID].updatedAt == now
      ensures state[nodeID].version ==
              ((if nodeID in old(state) then old(state)[nodeID].version else 0) + 1) % 0x1_0000_0000_0000_0000
      ensures forall k :: k in old(state) && k != nodeID ==> state[k] == old(state)[k]
    {
      var entry := if nodeID in state then state[nodeID] else NodeEntry(nodeID, selfAddr, Unknown, 0, 0);
      state := state[nodeID := entry.(status := status, version := Inc64(entry.version), updatedAt := now)];
    }
  }

  // ----- properties of merging -----

  lemma MergeKeepsSelfAndStamps(self: NodeID, s: View, m: View)
    ensures self in s <==> self in MergedView(self, s, m)
    ensures self in s ==> MergedView(self, s, m)[self] == s[self]
    ensures s.Keys <= MergedView(self, s, m).Keys
    ensures forall n :: n in s ==> MergedView(self, s, m)[n].updatedAt >= s[n].updatedAt
  {
  }

  /** Both messages carry an entry for the node with the same stamp, and it is news to the receiver. */
  predicate Tied(self: NodeID, s: View, a: View, b: View, n: NodeID) {
    n in a && n in b && Accepts(self, s, a, n) && a[n].updatedAt == b[n].updatedAt
  }

  lemma SwapAt(self: NodeID, s: View, a: View, b: View, n: NodeID)
    ensures var l, r := MergedView(self, MergedView(self, s, a), b), MergedView(self, MergedView(self, s, b), a);
            && (n in l <==> n in r)
            && (n in l ==> (l[n] == r[n] <==> (Tied(self, s, a, b, n) ==> a[n] == b[n])))
            && (Tied(self, s, a, b, n) ==> n in l)
  {
    var sa, sb := MergedView(self, s, a), MergedView(self, s, b);
    assert n in sa <==> n in s || (n in a && n != self);
    assert n in sb <==> n in s || (n in b && n != self);
  }

  /** Two messages can be swapped exactly when they never carry different entries for one node with the same
      stamp that is news to the receiver. */
  lemma MergesCommuteIff(self: NodeID, s: View, a: View, b: View)
    ensures MergedView(self, MergedView(self, s, a), b) == MergedView(self, MergedView(self, s, b), a) <==>
            forall n :: Tied(self, s, a, b, n) ==> a[n] == b[n]
  {
    var l, r := MergedView(self, MergedView(self, s, a), b), MergedView(self, MergedView(self, s, b), a);
    if forall n :: Tied(self, s, a, b, n) ==> a[n] == b[n] {
      forall n ensures (n in l <==> n in r) && (n in l ==> l[n] == r[n]) {
        SwapAt(self, s, a, b, n);
      }
      assert l.Keys == r.Keys;
    }
    if l == r {
      forall n | Tied(self, s, a, b, n) ensures a[n] == b[n] {
        SwapAt(self, s, a, b, n);
      }
    }
  }

  function MergedAll(self: NodeID, s: View, ms: seq<View>): View {
    if ms == [] then s else MergedView(self, MergedAll(self, s, ms[..|ms| - 1]), ms[|ms| - 1])
  }

  /** An entry offered for a node: the initial one, or one from some message. */
  ghost predicate Offered(self: NodeID, s: View, ms: seq<View>, n: NodeID, e: NodeEntry) {
    (n in s && s[n] == e) || (n != self && exists i :: 0 <= i < |ms| && n in ms[i] && ms[i][n] == e)
  }

  lemma OfferedSnoc(self: NodeID, s: View, ms: seq<View>, n: NodeID, e: NodeEntry)
    requires ms != []
    ensures var k := |ms| - 1;
            Offered(self, s, ms, n, e) <==>
            Offered(self, s, ms[..k], n, e) || (n != self && n in ms[k] && ms[k][n] == e)
  {
    var k := |ms| - 1;
    if Offered(self, s, ms[..k], n, e) && !(n in s && s[n] == e) {
      var i :| 0 <= i < k && n in ms[..k][i] && ms[..k][i][n] == e;
      assert ms[i] == ms[..k][i];
    }
    if i :| 0 <= i < |ms| && n in ms[i] && ms[i][n] == e {
      assert i < k ==> ms[..k][i] == ms[i];
    }
  }

  /** Whatever the order, each node ends with an offered entry of the greatest offered stamp. */
  lemma {:induction false} MergedAllIsNewest(self: NodeID, s: View, ms: seq<View>, n: NodeID, e: NodeEntry)
    ensures n in MergedAll(self, s, ms) ==> Offered(self, s, ms, n, MergedAll(self, s, ms)[n])
    ensures Offered(self, s, ms, n, e) ==>
              n in MergedAll(self, s, ms) && (n != self ==> e.updatedAt <= MergedAll(self, s, ms)[n].updatedAt)
  {
    if ms != [] {
      var k := |ms| - 1;
      var prev, r := MergedAll(self, s, ms[..k]), MergedAll(self, s, ms);
      MergedAllIsNewest(self, s, ms[..k], n, e);
      OfferedSnoc(self, s, ms, n, e);
      if n in r {
        OfferedSnoc(self, s, ms, n, r[n]);
      }
    }
  }

  /** Entries for one node that carry the same stamp are the same entry. */
  ghost predicate Consistent(self: NodeID, s: View, ms: seq<View>) {
    forall n, d, e :: Offered(self, s, ms, n, d) && Offered(self, s, ms, n, e) && d.updatedAt == e.updatedAt ==> d == e
  }

  lemma SameOffers(self: NodeID, s: View, a: seq<View>, b: seq<View>, n: NodeID, e: NodeEntry)
    requires Elements(a) == Elements(b) && Offered(self, s, a, n, e)
    ensures Offered(self, s, b, n, e)
  {
    if !(n in s && s[n] == e) {
      var i :| 0 <= i < |a| && n in a[i] && a[i][n] == e;
      assert a[i] in Elements(a);
      var j :| 0 <= j < |b| && b[j] == a[i];
    }
  }

  /** Gossip converges: the same messages, in any order and with any repetition, give the same entry for every other
      node. */
  lemma GossipIgnoresOrder(self: NodeID, s: View, a: seq<View>, b: seq<View>, n: NodeID)
    requires Elements(a) == Elements(b) && Consistent(self, s, a) && n != self
    ensures n in MergedAll(self, s, a) <==> n in MergedAll(self, s, b)
    ensures n in MergedAll(self, s, a) ==> MergedAll(self, s, a)[n] == MergedAll(self, s, b)[n]
  {
    var p, q := MergedAll(self, s, a), MergedAll(self, s, b);
    if n in p {
      MergedAllIsNewest(self, s, a, n, p[n]);
      SameOffers(self, s, a, b, n, p[n]);
      MergedAllIsNewest(self, s, b, n, p[n]);
    }
    if n in q {
      MergedAllIsNewest(self, s, b, n, q[n]);
      SameOffers(self, s, b, a, n, q[n]);
      MergedAllIsNewest(self, s, a, n, q[n]);
    }
  }

  /** One undisturbed push-pull between `x` and `y` makes them agree on a third node exactly when they did not
      start with different entries of the same stamp. */
  lemma PushPullAgreesIff(x: NodeID, y: NodeID, a: View, b: View, n: NodeID)
    requires n != x && n != y && (n in a || n in b)
    ensures var b' := MergedView(y, b, a);
            var a' := MergedView(x, a, b');
            && n in a' && n in b'
            && (a'[n] == b'[n] <==> (n in a && n in b && a[n].updatedAt == b[n].updatedAt ==> a[n] == b[n]))
  {
  }

  /** What a node noted about another outlives any sequence of merges exactly when none of them carries a later time. */
  lemma MarkSurvivesIff(self: NodeID, s: View, n: NodeID, status: NodeStatus, now: Int64, ms: seq<View>)
    requires n != self
    ensures var marked := Marked(s, n, status, now);
            && n in MergedAll(self, marked, ms) && marked[n].status == status && marked[n].updatedAt == now
            && (MergedAll(self, marked, ms)[n] == marked[n] <==>
                forall i :: 0 <= i < |ms| && n in ms[i] ==> ms[i][n].updatedAt <= now)
  {
    var marked := Marked(s, n, status, now);
    MergedAllIsNewest(self, marked, ms, n, marked[n]);
    assert Offered(self, marked, ms, n, marked[n]);
    if MergedAll(self, marked, ms)[n] == marked[n] {
      forall i | 0 <= i < |ms| && n in ms[i] ensures ms[i][n].updatedAt <= now {
        MergedAllIsNewest(self, marked, ms, n, ms[i][n]);
      }
    } else {
      MarkIsReplaced(self, marked, ms, n);
    }
  }

  /** An entry is only ever replaced by one with a later time. */
  lemma {:induction false} MarkIsReplaced(self: NodeID, s: View, ms: seq<View>, n: NodeID)
    requires n != self && n in s && n in MergedAll(self, s, ms) && MergedAll(self, s, ms)[n] != s[n]
    ensures exists i :: 0 <= i < |ms| && n in ms[i] && ms[i][n].updatedAt > s[n].updatedAt
  {
    var k := |ms| - 1;
    MergedAllIsNewest(self, s, ms[..k], n, s[n]);
    assert Offered(self, s, ms[..k], n, s[n]);
    if MergedAll(self, s, ms[..k])[n] != s[n] {
      MarkIsReplaced(self, s, ms[..k], n);
      var i :| 0 <= i < k && n in ms[..k][i] && ms[..k][i][n].updatedAt > s[n].updatedAt;
      assert ms[i][n].updatedAt > s[n].updatedAt;
    } else {
      assert n in ms[k] && ms[k][n].updatedAt > s[n].updatedAt;
    }
  }

  /** A peer that is told of a node's new status takes it over exactly when the peer's own entry about that node is
      older, missing or already the same: a second change within one tick of the clock does not spread. */
  lemma SelfUpdateSpreadsIff(x: NodeID, addr: Bytes, s: View, status: NodeStatus, now: Int64, y: NodeID, t: View)
    requires x != y
    ensures var news := SelfUpdated(x, addr, s, status, now);
            && x in MergedView(y, t, news) && news[x].status == status
            && (MergedView(y, t, news)[x] == news[x] <==> x !in t || t[x].updatedAt < now || t[x] == news[x])
  {
  }
}
