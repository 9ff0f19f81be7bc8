/** The consistent-hashing ring. */
module HashRing {
  import opened Common
  import opened Lists

  datatype VNode = VNode(hash: Uint64, owner: NodeID, idx: nat)

  // ----- specification: the clockwise order of nodes seen from a position -----

  predicate SortedByHash(v: seq<VNode>) {
    forall i, j :: 0 <= i < j < |v| ==> v[i].hash <= v[j].hash
  }

  /** The first index whose hash is at least `h`, or the length. */
  function FirstAtLeast(v: seq<VNode>, h: Uint64): (k: nat)
    ensures k <= |v|
    ensures forall i :: 0 <= i < k ==> v[i].hash < h
    ensures k < |v| ==> v[k].hash >= h
  {
    if v == [] || v[0].hash >= h then 0 else 1 + FirstAtLeast(v[1..], h)
  }

  function Rotated(v: seq<VNode>, k: nat): seq<VNode>
    requires k <= |v|
  {
    v[k..] + v[..k]
  }

  function Owners(v: seq<VNode>): seq<NodeID> {
    seq(|v|, i requires 0 <= i < |v| => v[i].owner)
  }

  /** Every physical node, in the order in which the clockwise walk from `h` first meets it. */
  function NodeOrder(v: seq<VNode>, h: Uint64): seq<NodeID> {
    Distinct(Owners(Rotated(v, FirstAtLeast(v, h))))
  }

  // ----- removing a node deletes it from every order -----

  function NotOwnedBy(x: NodeID): VNode -> bool {
    (v: VNode) => v.owner != x
  }

  function NotNode(x: NodeID): NodeID -> bool {
    (n: NodeID) => n != x
  }

  lemma {:induction false} OwnersOfFilter(v: seq<VNode>, x: NodeID)
    ensures Owners(Filter(NotOwnedBy(x), v)) == Filter(NotNode(x), Owners(v))
  {
    if v != [] {
      var n := |v| - 1;
      OwnersOfFilter(v[..n], x);
      var f := Filter(NotOwnedBy(x), v[..n]);
      assert Owners(v)[..n] == Owners(v[..n]);
      assert Owners(f + [v[n]]) == Owners(f) + [v[n].owner];
    }
  }

  lemma {:induction false} FirstAtLeastOfConcat(a: seq<VNode>, b: seq<VNode>, h: Uint64)
    requires forall i :: 0 <= i < |a| ==> a[i].hash < h
    requires b != [] ==> b[0].hash >= h
    ensures FirstAtLeast(a + b, h) == |a|
  {
    if a == [] {
      assert a + b == b;
    } else {
      FirstAtLeastOfConcat(a[1..], b, h);
      assert (a + b)[0] == a[0] && (a + b)[1..] == a[1..] + b;
    }
  }

  lemma RotationOfFilter(v: seq<VNode>, h: Uint64, p: VNode -> bool)
    requires SortedByHash(v)
    ensures Rotated(Filter(p, v), FirstAtLeast(Filter(p, v), h)) == Filter(p, Rotated(v, FirstAtLeast(v, h)))
  {
    var k := FirstAtLeast(v, h);
    var lo, hi := v[..k], v[k..];
    assert v == lo + hi;
    FilterConcat(p, lo, hi);
    FilterConcat(p, hi, lo);
    FilteredBounds(p, lo, hi, h);
    var a: seq<VNode>, b: seq<VNode> := Filter(p, lo), Filter(p, hi);
    FirstAtLeastOfConcat(a, b, h);
    assert (a + b)[|a|..] == b && (a + b)[..|a|] == a;
  }

  lemma FilteredBounds(p: VNode -> bool, lo: seq<VNode>, hi: seq<VNode>, h: Uint64)
    requires forall i :: 0 <= i < |lo| ==> lo[i].hash < h
    requires forall i :: 0 <= i < |hi| ==> hi[i].hash >= h
    ensures forall i :: 0 <= i < |Filter(p, lo)| ==> Filter(p, lo)[i].hash < h
    ensures forall i :: 0 <= i < |Filter(p, hi)| ==> Filter(p, hi)[i].hash >= h
  {
    FilterMembers(p, lo);
    FilterMembers(p, hi);
    forall i | 0 <= i < |Filter(p, lo)| ensures Filter(p, lo)[i].hash < h {
      assert Filter(p, lo)[i] in lo;
    }
    forall i | 0 <= i < |Filter(p, hi)| ensures Filter(p, hi)[i].hash >= h {
      assert Filter(p, hi)[i] in hi;
    }
  }

  /** After a node leaves, the order seen from any position is the old one with that node deleted. */
  lemma RemovalDisturbsNobody(v: seq<VNode>, x: NodeID, h: Uint64)
    requires SortedByHash(v)
    ensures NodeOrder(Filter(NotOwnedBy(x), v), h) == Filter(NotNode(x), NodeOrder(v, h))
  {
    RotationOfFilter(v, h, NotOwnedBy(x));
    var r := Rotated(v, FirstAtLeast(v, h));
    OwnersOfFilter(r, x);
    DistinctOfFilter(NotNode(x), Owners(r));
  }

  // ----- adding a node inserts it -----

  predicate DistinctHashes(v: seq<VNode>) {
    forall i, j :: 0 <= i < j < |v| ==> v[i].hash != v[j].hash
  }

  lemma {:induction false} FilterKeepsSorted(v: seq<VNode>, p: VNode -> bool)
    requires SortedByHash(v)
    ensures SortedByHash(Filter(p, v))
  {
    if v != [] {
      var n := |v| - 1;
      FilterKeepsSorted(v[..n], p);
      FilterMembers(p, v[..n]);
      var f := Filter(p, v[..n]);
      forall i | 0 <= i < |f| ensures f[i].hash <= v[n].hash {
        assert f[i] in f;
      }
    }
  }

  lemma LastIsGreatest(v: seq<VNode>, x: VNode)
    requires SortedByHash(v) && x in v
    ensures x.hash <= v[|v| - 1].hash
  {
  }

  /** A sorted sequence without equal hashes is determined by its elements. */
  lemma {:induction false} SortedIsUnique(a: seq<VNode>, b: seq<VNode>)
    requires SortedByHash(a) && SortedByHash(b) && DistinctHashes(a)
    requires multiset(a) == multiset(b)
    ensures a == b
  {
    assert |a| == |multiset(a)| == |multiset(b)| == |b|;
    if a != [] {
      var n := |a| - 1;
      SameLast(a, b);
      MultisetInit(a, b);
      SortedIsUnique(a[..n], b[..n]);
      assert a == a[..n] + [a[n]] && b == b[..n] + [b[n]];
    }
  }

  lemma SameLast(a: seq<VNode>, b: seq<VNode>)
    requires SortedByHash(a) && SortedByHash(b) && DistinctHashes(a)
    requires multiset(a) == multiset(b) && |a| == |b| > 0
    ensures a[|a| - 1] == b[|b| - 1]
  {
    var x, y := a[|a| - 1], b[|b| - 1];
    assert x in multiset(a) && y in multiset(b);
    LastIsGreatest(b, x);
    LastIsGreatest(a, y);
    var i :| 0 <= i < |a| && a[i] == y;
  }

  /** A re-sorted ring that gained only vnodes of `x` is the old ring once they are deleted again. */
  lemma AdditionIsUndoneByRemoval(v: seq<VNode>, w: seq<VNode>, added: seq<VNode>, x: NodeID)
    requires SortedByHash(v) && SortedByHash(w) && DistinctHashes(v)
    requires multiset(w) == multiset(v + added)
    requires (forall i :: 0 <= i < |v| ==> v[i].owner != x) && (forall i :: 0 <= i < |added| ==> added[i].owner == x)
    ensures Filter(NotOwnedBy(x), w) == v
  {
    var p := NotOwnedBy(x);
    var f := Filter(p, w);
    FilterKeepsSorted(w, p);
    forall y ensures multiset(f)[y] == multiset(v)[y] {
      FilterMultiset(p, w, y);
      if y in multiset(v) {
        assert y in v;
      }
      if y in multiset(added) {
        assert y in added;
      }
      assert multiset(v + added)[y] == multiset(v)[y] + multiset(added)[y];
    }
    assert multiset(f) == multiset(v);
    SortedIsUnique(v, f);
  }

  /** After a node joins, the order seen from any position is the old one with that node inserted. */
  lemma AdditionDisturbsNobody(v: seq<VNode>, w: seq<VNode>, added: seq<VNode>, x: NodeID, h: Uint64)
    requires SortedByHash(v) && SortedByHash(w) && DistinctHashes(v)
    requires multiset(w) == multiset(v + added)
    requires (forall i :: 0 <= i < |v| ==> v[i].owner != x) && (forall i :: 0 <= i < |added| ==> added[i].owner == x)
    ensures Filter(NotNode(x), NodeOrder(w, h)) == NodeOrder(v, h)
  {
    AdditionIsUndoneByRemoval(v, w, added, x);
    RemovalDisturbsNobody(w, x, h);
  }

  /** Hence a preference list of any length either stays, or gains the node and loses at most its last member. */
  lemma PreferenceListChangesByOne(before: seq<NodeID>, after: seq<NodeID>, x: NodeID, n: nat)
    requires NoRepeats(after) && Filter(NotNode(x), after) == before
    ensures Prefix(after, n) == Prefix(before, n)
         || exists i :: 0 <= i < |Prefix(after, n)| <= |before| + 1
                        && Prefix(after, n) == before[..i] + [x] + before[i..|Prefix(after, n)| - 1]
  {
    if i :| 0 <= i < |after| && after[i] == x {
      FilterSplit(NotNode(x), after, i);
      PrefixOfInsertion(after, i, n);
    } else {
      FilterKeepsAll(NotNode(x), after);
    }
  }

  /** Joining leaves every key's preference list as it was, or puts the new node in and at most the last member out. */
  lemma JoinChangesListByOne(v: seq<VNode>, w: seq<VNode>, added: seq<VNode>, x: NodeID, h: Uint64, n: nat)
    requires SortedByHash(v) && SortedByHash(w) && DistinctHashes(v)
    requires multiset(w) == multiset(v + added)
    requires (forall i :: 0 <= i < |v| ==> v[i].owner != x) && (forall i :: 0 <= i < |added| ==> added[i].owner == x)
    ensures var before, after := NodeOrder(v, h), Prefix(NodeOrder(w, h), n);
            after == Prefix(before, n) ||
            exists i :: 0 <= i < |after| <= |before| + 1 && after == before[..i] + [x] + before[i..|after| - 1]
  {
    AdditionDisturbsNobody(v, w, added, x, h);
    OrderOfElements(w, h);
    PreferenceListChangesByOne(NodeOrder(v, h), NodeOrder(w, h), x, n);
  }

  /** Leaving leaves every key's preference list as it was, or takes the node out and lets at most one other in. */
  lemma LeaveChangesListByOne(v: seq<VNode>, x: NodeID, h: Uint64, n: nat)
    requires SortedByHash(v)
    ensures var before, after := Prefix(NodeOrder(v, h), n), NodeOrder(Filter(NotOwnedBy(x), v), h);
            before == Prefix(after, n) ||
            exists i :: 0 <= i < |before| <= |after| + 1 && before == after[..i] + [x] + after[i..|before| - 1]
  {
    RemovalDisturbsNobody(v, x, h);
    OrderOfElements(v, h);
    PreferenceListChangesByOne(NodeOrder(Filter(NotOwnedBy(x), v), h), NodeOrder(v, h), x, n);
  }

  // ----- the ring object -----

  datatype RingError = NodeExists | NodeNotFound | EmptyRing
  datatype Outcome<+T> = Fine(value: T) | Fault(error: RingError)

  type VNodeHash = (NodeID, nat) -> Uint64
  type KeyHash = Bytes -> Uint64

  function PointsOf(hashOf: VNodeHash, n: NodeID, count: nat): (r: seq<VNode>)
    ensures |r| == count
    ensures forall i :: 0 <= i < count ==> r[i] == VNode(hashOf(n, i), n, i)
  {
    if count == 0 then [] else PointsOf(hashOf, n, count - 1) + [VNode(hashOf(n, count - 1), n, count - 1)]
  }

  /** The vnode is one the ring must hold for its members. */
  predicate IsPoint(hashOf: VNodeHash, nodes: set<NodeID>, count: nat, v: VNode) {
    v.owner in nodes && v.idx < count && v.hash == hashOf(v.owner, v.idx)
  }

  /** Sorted, and exactly the vnodes of the members, each once. */
  ghost predicate RingOf(hashOf: VNodeHash, nodes: set<NodeID>, count: nat, v: seq<VNode>) {
    && SortedByHash(v)
    && forall p: VNode :: multiset(v)[p] == if IsPoint(hashOf, nodes, count, p) then 1 else 0
  }

  /** Membership alone fixes the ring, whatever joins and leaves led to it, when no two hashes collide. */
  lemma RingIgnoresHistory(hashOf: VNodeHash, nodes: set<NodeID>, count: nat, a: seq<VNode>, b: seq<VNode>)
    requires RingOf(hashOf, nodes, count, a) && RingOf(hashOf, nodes, count, b) && DistinctHashes(a)
    ensures a == b
  {
    forall p: VNode ensures multiset(a)[p] == multiset(b)[p] {
    }
    assert multiset(a) == multiset(b);
    SortedIsUnique(a, b);
  }

  lemma {:induction false} PointsMultiset(hashOf: VNodeHash, n: NodeID, count: nat, p: VNode)
    ensures multiset(PointsOf(hashOf, n, count))[p] == if IsPoint(hashOf, {n}, count, p) then 1 else 0
  {
    if count > 0 {
      PointsMultiset(hashOf, n, count - 1, p);
      var q := VNode(hashOf(n, count - 1), n, count - 1);
      assert p != q ==> (IsPoint(hashOf, {n}, count, p) <==> IsPoint(hashOf, {n}, count - 1, p));
      assert PointsOf(hashOf, n, count) == PointsOf(hashOf, n, count - 1) + [q];
    }
  }

  lemma JoinKeepsRing(hashOf: VNodeHash, nodes: set<NodeID>, count: nat, v: seq<VNode>, x: NodeID, w: seq<VNode>)
    requires RingOf(hashOf, nodes, count, v) && x !in nodes
    requires SortedByHash(w) && multiset(w) == multiset(v + PointsOf(hashOf, x, count))
    ensures RingOf(hashOf, nodes + {x}, count, w)
  {
    forall p: VNode ensures multiset(w)[p] == if IsPoint(hashOf, nodes + {x}, count, p) then 1 else 0 {
      PointsMultiset(hashOf, x, count, p);
      assert multiset(w)[p] == multiset(v)[p] + multiset(PointsOf(hashOf, x, count))[p];
    }
  }

  lemma LeaveKeepsRing(hashOf: VNodeHash, nodes: set<NodeID>, count: nat, v: seq<VNode>, x: NodeID)
    requires RingOf(hashOf, nodes, count, v)
    ensures RingOf(hashOf, nodes - {x}, count, Filter(NotOwnedBy(x), v))
  {
    var f := Filter(NotOwnedBy(x), v);
    FilterKeepsSorted(v, NotOwnedBy(x));
    forall p: VNode ensures multiset(f)[p] == if IsPoint(hashOf, nodes - {x}, count, p) then 1 else 0 {
      FilterMultiset(NotOwnedBy(x), v, p);
    }
  }

  lemma OwnersAreMembers(hashOf: VNodeHash, nodes: set<NodeID>, count: nat, v: seq<VNode>)
    requires RingOf(hashOf, nodes, count, v)
    ensures forall i :: 0 <= i < |v| ==> v[i].owner in nodes
    ensures count > 0 ==> Elements(Owners(v)) == nodes
  {
    forall i | 0 <= i < |v| ensures v[i].owner in nodes {
      assert v[i] in multiset(v);
    }
    if count > 0 {
      forall n | n in nodes ensures n in Owners(v) {
        var p := VNode(hashOf(n, 0), n, 0);
        assert multiset(v)[p] == 1;
        var i :| 0 <= i < |v| && v[i] == p;
        assert Owners(v)[i] == n;
      }
    }
  }

  lemma OrderOfElements(v: seq<VNode>, h: Uint64)
    ensures NoRepeats(NodeOrder(v, h)) && Elements(NodeOrder(v, h)) == Elements(Owners(v))
  {
    var k := FirstAtLeast(v, h);
    DistinctProperties(Owners(Rotated(v, k)));
    assert Owners(Rotated(v, k)) == Owners(v)[k..] + Owners(v)[..k];
    RotationElements(Owners(v), k);
  }

  /** The walk meets every member of the ring once. */
  lemma OrderIsPermutationOfMembers(hashOf: VNodeHash, nodes: set<NodeID>, count: nat, v: seq<VNode>, h: Uint64)
    requires RingOf(hashOf, nodes, count, v) && count > 0
    ensures NoRepeats(NodeOrder(v, h)) && Elements(NodeOrder(v, h)) == nodes
    ensures |NodeOrder(v, h)| == |nodes|
  {
    OwnersAreMembers(hashOf, nodes, count, v);
    OrderOfElements(v, h);
    NoRepeatsSize(NodeOrder(v, h));
  }

  /** On every ring the extended list begins with the preference list, and its overflow nodes are other nodes. */
  lemma OverflowFollowsList(v: seq<VNode>, h: Uint64, n: nat, extra: nat)
    ensures var list, extended := Prefix(NodeOrder(v, h), n), Prefix(NodeOrder(v, h), n + extra);
            && list <= extended
            && (forall x :: x in extended[|list|..] ==> x !in list)
            && |extended| == Min(n + extra, |Elements(Owners(v))|)
  {
    var order := NodeOrder(v, h);
    OrderOfElements(v, h);
    NoRepeatsSize(order);
    var list, extended := Prefix(order, n), Prefix(order, n + extra);
    forall x | x in extended[|list|..] ensures x !in list {
      var i :| 0 <= i < |extended| - |list| && extended[|list|..][i] == x;
      assert order[|list| + i] == x;
    }
  }

  /** The list begins with the preference list of `n` and goes on with other nodes. */
  ghost predicate BeginsStrictly(v: seq<VNode>, h: Uint64, n: nat, list: seq<NodeID>) {
    && Prefix(NodeOrder(v, h), n) <= list
    && (n <= |list| ==> forall x :: x in list[n..] ==> x !in list[..n])
  }

  lemma ExtendedBeginsStrictly(v: seq<VNode>, h: Uint64, n: nat, extra: nat)
    ensures BeginsStrictly(v, h, n, Prefix(NodeOrder(v, h), n + extra))
  {
    OrderOfElements(v, h);
    StrictThenOther(NodeOrder(v, h), n, extra);
  }

  lemma StrictThenOther(order: seq<NodeID>, n: nat, extra: nat)
    requires NoRepeats(order)
    ensures Prefix(order, n) <= Prefix(order, n + extra)
    ensures var extended := Prefix(order, n + extra);
            n <= |extended| ==> forall x :: x in extended[n..] ==> x !in extended[..n]
  {
  }

  // ----- the order by clockwise distance -----

  /** How far a point lies clockwise of the position `h`. */
  function Distance(h: Uint64, p: VNode): nat {
    (p.hash - h) % TWO64
  }

  /** The point is at most as far, or with `strict` nearer, than every point of `y`. */
  ghost predicate PointNearer(v: seq<VNode>, h: Uint64, p: VNode, y: NodeID, strict: bool) {
    forall q :: q in v && q.owner == y ==>
      if strict then Distance(h, p) < Distance(h, q) else Distance(h, p) <= Distance(h, q)
  }

  ghost predicate Nearer(v: seq<VNode>, h: Uint64, x: NodeID, y: NodeID, strict: bool) {
    exists p :: p in v && p.owner == x && PointNearer(v, h, p, y, strict)
  }

  /** `list` names the owners of the nearest points clockwise of `h`, nearest first, and is followed on the ring by
      every owner that it leaves out. Where no two hashes are equal there is only one such list of a given length. */
  ghost predicate Clockwisely(v: seq<VNode>, h: Uint64, list: seq<NodeID>) {
    && (forall i, j :: 0 <= i < j < |list| ==> Nearer(v, h, list[i], list[j], DistinctHashes(v)))
    && (forall i, k :: 0 <= i < |list| && 0 <= k < |v| && v[k].owner !in list ==>
          Nearer(v, h, list[i], v[k].owner, DistinctHashes(v)))
  }

  /** The point at which the walk begins: the smallest of those at or after `h`, or the smallest of all. */
  ghost predicate FirstPoint(v: seq<VNode>, h: Uint64, p: VNode) {
    && p in v
    && if p.hash >= h then forall q :: q in v && q.hash >= h ==> p.hash <= q.hash
       else forall q :: q in v ==> p.hash <= q.hash < h
  }

  ghost predicate OwnsFirstPoint(v: seq<VNode>, h: Uint64, x: NodeID) {
    exists p :: FirstPoint(v, h, p) && p.owner == x
  }

  lemma DistanceIs(h: Uint64, p: VNode)
    ensures Distance(h, p) == if p.hash >= h then p.hash - h else p.hash - h + TWO64
  {
  }

  /** The walk goes by growing distance. */
  lemma RotatedByDistance(v: seq<VNode>, h: Uint64, i: nat, j: nat)
    requires SortedByHash(v) && i < j < |v|
    ensures var r := Rotated(v, FirstAtLeast(v, h));
            && Distance(h, r[i]) <= Distance(h, r[j])
            && (DistinctHashes(v) ==> Distance(h, r[i]) < Distance(h, r[j]))
  {
    var k := FirstAtLeast(v, h);
    var r := Rotated(v, k);
    DistanceIs(h, r[i]);
    DistanceIs(h, r[j]);
    var a := if i < |v| - k then k + i else i - (|v| - k);
    var b := if j < |v| - k then k + j else j - (|v| - k);
    assert r[i] == v[a] && r[j] == v[b];
    assert a >= k ==> v[k].hash <= v[a].hash;
    assert b >= k ==> v[k].hash <= v[b].hash;
  }

  lemma RotatedFrom(v: seq<VNode>, k: nat, j: nat) returns (i: nat)
    requires k <= |v| && j < |v|
    ensures i < |v| && Rotated(v, k)[i] == v[j]
  {
    i := if j >= k then j - k else |v| - k + j;
  }

  /** Of two members of the order, the earlier one is met before any point of the other. */
  lemma MetBefore(v: seq<VNode>, h: Uint64, x: nat, y: nat)
    requires SortedByHash(v) && x < y < |NodeOrder(v, h)|
    ensures Nearer(v, h, NodeOrder(v, h)[x], NodeOrder(v, h)[y], DistinctHashes(v))
  {
    var order, k := NodeOrder(v, h), FirstAtLeast(v, h);
    var r := Rotated(v, k);
    var a := FirstOfDistinct(Owners(r), x, y);
    var i := if a < |v| - k then k + a else a - (|v| - k);
    assert v[i] == r[a] && v[i].owner == order[x];
    forall q | q in v && q.owner == order[y]
      ensures Distance(h, v[i]) <= Distance(h, q)
      ensures DistinctHashes(v) ==> Distance(h, v[i]) < Distance(h, q)
    {
      var j :| 0 <= j < |v| && v[j] == q;
      var b := RotatedFrom(v, k, j);
      assert Owners(r)[b] == order[y];
      RotatedByDistance(v, h, a, b);
    }
    assert PointNearer(v, h, v[i], order[y], DistinctHashes(v));
  }

  lemma PrefixIsClockwise(v: seq<VNode>, h: Uint64, n: nat)
    requires SortedByHash(v)
    ensures Clockwisely(v, h, Prefix(NodeOrder(v, h), n))
  {
    var order := NodeOrder(v, h);
    var list := Prefix(order, n);
    OrderOfElements(v, h);
    forall i, j | 0 <= i < j < |list| ensures Nearer(v, h, list[i], list[j], DistinctHashes(v)) {
      MetBefore(v, h, i, j);
    }
    forall i, k | 0 <= i < |list| && 0 <= k < |v| && v[k].owner !in list
      ensures Nearer(v, h, list[i], v[k].owner, DistinctHashes(v))
    {
      assert Owners(v)[k] in Elements(Owners(v));
      var j :| 0 <= j < |order| && order[j] == v[k].owner;
      MetBefore(v, h, i, j);
    }
  }

  lemma SearchFindsFirstPoint(v: seq<VNode>, h: Uint64)
    requires SortedByHash(v) && v != []
    ensures var k := FirstAtLeast(v, h);
            FirstPoint(v, h, v[if k < |v| then k else 0])
  {
    var k := FirstAtLeast(v, h);
    forall q | q in v ensures if k < |v| then q.hash >= h ==> v[k].hash <= q.hash else v[0].hash <= q.hash < h {
      var j :| 0 <= j < |v| && v[j] == q;
    }
  }

  lemma OrderBeginsClockwise(v: seq<VNode>, h: Uint64)
    requires SortedByHash(v) && v != []
    ensures NodeOrder(v, h) != [] && OwnsFirstPoint(v, h, NodeOrder(v, h)[0])
  {
    var k := FirstAtLeast(v, h);
    var owners := Owners(Rotated(v, k));
    assert owners[0] == v[if k < |v| then k else 0].owner;
    DistinctKeepsHead(owners);
    SearchFindsFirstPoint(v, h);
  }

  lemma PrefixOwnsFirstPoint(v: seq<VNode>, h: Uint64, n: nat)
    requires SortedByHash(v) && v != [] && n > 0
    ensures Prefix(NodeOrder(v, h), n) != [] && OwnsFirstPoint(v, h, Prefix(NodeOrder(v, h), n)[0])
  {
    OrderBeginsClockwise(v, h);
  }

  /** What a preference list is, on the ring of some members. */
  ghost predicate IsPreferenceList(nodes: set<NodeID>, v: seq<VNode>, h: Uint64, n: nat, list: seq<NodeID>) {
    && |list| == Min(n, |nodes|) && NoRepeats(list) && (forall x :: x in list ==> x in nodes)
    && Clockwisely(v, h, list) && (list != [] ==> OwnsFirstPoint(v, h, list[0]))
  }

  lemma PrefixIsPreferenceList(hashOf: VNodeHash, nodes: set<NodeID>, count: nat, v: seq<VNode>, h: Uint64, n: nat)
    requires RingOf(hashOf, nodes, count, v) && count > 0
    ensures |NodeOrder(v, h)| == |nodes| && IsPreferenceList(nodes, v, h, n, Prefix(NodeOrder(v, h), n))
  {
    var order := NodeOrder(v, h);
    var list := Prefix(order, n);
    OrderIsPermutationOfMembers(hashOf, nodes, count, v, h);
    PrefixIsClockwise(v, h, n);
    forall x | x in list ensures x in nodes {
      assert x in Elements(order);
    }
    if list != [] {
      assert order[0] in Elements(order);
      OwnersAreMembers(hashOf, nodes, count, v);
      PrefixOwnsFirstPoint(v, h, n);
    }
  }

  lemma NearerIsStrict(v: seq<VNode>, h: Uint64, x: NodeID, y: NodeID)
    requires Nearer(v, h, x, y, true)
    ensures !Nearer(v, h, y, x, true)
  {
    var p :| p in v && p.owner == x && PointNearer(v, h, p, y, true);
    forall q | q in v && q.owner == y ensures !PointNearer(v, h, q, x, true) {
      assert Distance(h, p) < Distance(h, q);
    }
  }

  /** With distinct hashes, one node comes before another in the order exactly when it is nearer clockwise of `h`. */
  lemma BeforeIffNearer(v: seq<VNode>, h: Uint64, i: nat, j: nat)
    requires SortedByHash(v) && DistinctHashes(v) && i < |NodeOrder(v, h)| && j < |NodeOrder(v, h)| && i != j
    ensures i < j <==> Nearer(v, h, NodeOrder(v, h)[i], NodeOrder(v, h)[j], true)
  {
    var order := NodeOrder(v, h);
    if i < j {
      MetBefore(v, h, i, j);
    } else {
      MetBefore(v, h, j, i);
      NearerIsStrict(v, h, order[j], order[i]);
    }
  }

  /** Whoever stands at a place of one clockwise list is nearer than whoever else stands there in another. */
  lemma AheadAt(v: seq<VNode>, h: Uint64, a: seq<NodeID>, b: seq<NodeID>, m: nat)
    requires DistinctHashes(v) && Clockwisely(v, h, a) && Clockwisely(v, h, b) && m < |a| && m < |b|
    requires a[..m] == b[..m] && b[m] in Owners(v) && a[m] != b[m]
    ensures Nearer(v, h, a[m], b[m], true)
  {
    if j :| 0 <= j < |a| && a[j] == b[m] {
      if j < m {
        assert a[..m][j] == b[..m][j];
        assert Nearer(v, h, b[j], b[m], true);
        NearerIsStrict(v, h, b[m], b[m]);
      }
    } else {
      var k :| 0 <= k < |v| && v[k].owner == b[m];
    }
  }

  lemma AgreeAt(v: seq<VNode>, h: Uint64, a: seq<NodeID>, b: seq<NodeID>, m: nat)
    requires DistinctHashes(v) && Clockwisely(v, h, a) && Clockwisely(v, h, b) && m < |a| && m < |b|
    requires a[..m] == b[..m] && a[m] in Owners(v) && b[m] in Owners(v)
    ensures a[m] == b[m]
  {
    if a[m] != b[m] {
      AheadAt(v, h, a, b, m);
      AheadAt(v, h, b, a, m);
      NearerIsStrict(v, h, a[m], b[m]);
    }
  }

  /** With distinct hashes there is one clockwise list of owners of each length. */
  lemma ClockwiseIsUnique(v: seq<VNode>, h: Uint64, a: seq<NodeID>, b: seq<NodeID>)
    requires DistinctHashes(v) && |a| == |b| && Clockwisely(v, h, a) && Clockwisely(v, h, b)
    requires forall i :: 0 <= i < |a| ==> a[i] in Owners(v) && b[i] in Owners(v)
    ensures a == b
  {
    forall m: nat | m < |a| && a[..m] == b[..m] ensures a[m] == b[m] {
      AgreeAt(v, h, a, b, m);
    }
    SameByPrefixes(a, b);
  }

  function Inserted(r: seq<VNode>, x: VNode): seq<VNode> {
    if r == [] || r[|r| - 1].hash <= x.hash then r + [x]
    else Inserted(r[..|r| - 1], x) + [r[|r| - 1]]
  }

  lemma SnocSorted(s: seq<VNode>, y: VNode)
    requires SortedByHash(s) && forall v :: v in s ==> v.hash <= y.hash
    ensures SortedByHash(s + [y])
  {
  }

  lemma {:induction false} InsertedMultiset(r: seq<VNode>, x: VNode)
    ensures multiset(Inserted(r, x)) == multiset(r) + multiset{x}
  {
    if r != [] && r[|r| - 1].hash > x.hash {
      var n := |r| - 1;
      InsertedMultiset(r[..n], x);
      assert r == r[..n] + [r[n]];
    }
  }

  lemma {:induction false} InsertedIsSorted(r: seq<VNode>, x: VNode)
    requires SortedByHash(r)
    ensures SortedByHash(Inserted(r, x))
  {
    if r == [] || r[|r| - 1].hash <= x.hash {
      SnocSorted(r, x);
    } else {
      var n := |r| - 1;
      InsertedIsSorted(r[..n], x);
      InsertedMultiset(r[..n], x);
      var s := Inserted(r[..n], x);
      forall v | v in s ensures v.hash <= r[n].hash {
        assert v in multiset(s);
      }
      SnocSorted(s, r[n]);
    }
  }

  /** Sorting by hash; the order of equal hashes is left open, as with the source's unstable sort. */
  method SortVNodes(v: seq<VNode>) returns (r: seq<VNode>)
    ensures SortedByHash(r) && multiset(r) == multiset(v)
  {
    r := [];
    for i := 0 to |v|
      invariant SortedByHash(r) && multiset(r) == multiset(v[..i])
    {
      assert v[..i + 1] == v[..i] + [v[i]];
      InsertedIsSorted(r, v[i]);
      InsertedMultiset(r, v[i]);
      r := Inserted(r, v[i]);
    }
    assert v[..|v|] == v;
  }

  /** Go's sort.Search: the binary search for the first vnode at or after the key. */
  method Search(v: seq<VNode>, h: Uint64) returns (k: nat)
    requires SortedByHash(v)
    ensures k == FirstAtLeast(v, h)
  {
    var i, j := 0, |v|;
    while i < j
      invariant 0 <= i <= j <= |v|
      invariant forall x :: 0 <= x < i ==> v[x].hash < h
      invariant forall x :: j <= x < |v| ==> v[x].hash >= h
    {
      var mid := (i + j) / 2;
      if v[mid].hash < h {
        i := mid + 1;
      } else {
        j := mid;
      }
    }
    assert v == v[..i] + v[i..];
    FirstAtLeastOfConcat(v[..i], v[i..], h);
    k := i;
  }

  /** The vnode `i` places clockwise of the search result, wrapping around. */
  function Clockwise(v: seq<VNode>, first: nat, i: nat): (n: VNode)
    requires first <= |v| && i < |v|
    ensures n == Rotated(v, first)[i]
  {
    RotatedAt(v, first, i);
    var idx := if first >= |v| then 0 else first;
    v[(idx + i) % |v|]
  }

  /** The clockwise walk from a point, collecting distinct owners. */
  method WalkFrom(v: seq<VNode>, first: nat, want: nat) returns (result: seq<NodeID>)
    requires first <= |v|
    ensures result == Prefix(Distinct(Owners(Rotated(v, first))), want)
  {
    ghost var owners := Owners(Rotated(v, first));
    result := [];
    var seen: set<NodeID> := {};
    var i := 0;
    while |result| < want && i < |v|
      invariant 0 <= i <= |v| == |owners| && |result| <= want
      invariant result == Distinct(owners[..i])
      invariant seen == Elements(owners[..i])
    {
      var n := Clockwise(v, first, i).owner;
      assert n == owners[i];
      WalkStep(owners, i);
      if n !in seen {
        result := result + [n];
        seen := seen + {n};
      }
      i := i + 1;
    }
    PrefixReached(owners, i, want);
  }

  method Walk(v: seq<VNode>, h: Uint64, want: nat) returns (result: seq<NodeID>)
    requires SortedByHash(v)
    ensures result == Prefix(NodeOrder(v, h), want)
  {
    var first := Search(v, h);
    result := WalkFrom(v, first, want);
  }

  lemma Wrap(a: nat, n: nat)
    requires n > 0 && a < 2 * n
    ensures a % n == if a < n then a else a - n
  {
  }

  lemma RotatedAt(v: seq<VNode>, first: nat, i: nat)
    requires first <= |v| && i < |v|
    ensures Rotated(v, first)[i] == v[((if first >= |v| then 0 else first) + i) % |v|]
  {
    var idx := if first >= |v| then 0 else first;
    Wrap(idx + i, |v|);
  }

  class Ring {
    const vnodeCount: nat
    const hashOf: VNodeHash
    const keyHash: KeyHash
    var vnodes: seq<VNode>
    var nodes: map<NodeID, Bytes>

    ghost predicate Valid()
      reads this
    {
      vnodeCount > 0 && RingOf(hashOf, nodes.Keys, vnodeCount, vnodes)
    }

    constructor (vnodeCount: int, hashOf: VNodeHash, keyHash: KeyHash)
      ensures Valid() && nodes == map[] && this.hashOf == hashOf && this.keyHash == keyHash
      ensures this.vnodeCount == if vnodeCount <= 0 then 256 else vnodeCount
    {
      this.vnodeCount := if vnodeCount <= 0 then 256 else vnodeCount;
      this.hashOf := hashOf;
      this.keyHash := keyHash;
      vnodes := [];
      nodes := map[];
    }

    method AddNode(id: NodeID, addr: Bytes) returns (r: Outcome<()>)
      requires Valid()
      modifies this
      ensures Valid()
      ensures r == if id in old(nodes) then Fault(NodeExists) else Fine(())
      ensures id in old(nodes) ==> nodes == old(nodes) && vnodes == old(vnodes)
      ensures id !in old(nodes) ==>
                nodes == old(nodes)[id := addr] &&
                multiset(vnodes) == multiset(old(vnodes) + PointsOf(hashOf, id, vnodeCount))
    {
      if id in nodes {
        return Fault(NodeExists);
      }
      ghost var before := vnodes;
      nodes := nodes[id := addr];
      var all := vnodes;
      for i := 0 to vnodeCount
        invariant all == before + PointsOf(hashOf, id, i)
      {
        all := all + [VNode(hashOf(id, i), id, i)];
      }
      vnodes := SortVNodes(all);
      JoinKeepsRing(hashOf, old(nodes).Keys, vnodeCount, before, id, vnodes);
      assert nodes.Keys == old(nodes).Keys + {id};
      r := Fine(());
    }

    method RemoveNode(id: NodeID) returns (r: Outcome<()>)
      requires Valid()
      modifies this
      ensures Valid()
      ensures r == if id in old(nodes) then Fine(()) else Fault(NodeNotFound)
      ensures nodes == old(nodes) - {id}
      ensures vnodes == if id in old(nodes) then Filter(NotOwnedBy(id), old(vnodes)) else old(vnodes)
    {
      if id !in nodes {
        return Fault(NodeNotFound);
      }
      nodes := nodes - {id};
      LeaveKeepsRing(hashOf, old(nodes).Keys, vnodeCount, vnodes, id);
      vnodes := FilterLoop(NotOwnedBy(id), vnodes);
      assert nodes.Keys == old(nodes).Keys - {id};
      r := Fine(());
    }

    /** Exactly min(N, members) distinct members, nearest first clockwise of the key. */
    method GetPreferenceList(key: Bytes, n: nat) returns (r: Outcome<seq<NodeID>>)
      requires Valid()
      ensures r == if nodes == map[] then Fault(EmptyRing) else Fine(Prefix(NodeOrder(vnodes, keyHash(key)), n))
      ensures r.Fine? ==> IsPreferenceList(nodes.Keys, vnodes, keyHash(key), n, r.value)
    {
      if |nodes| == 0 {
        return Fault(EmptyRing);
      }
      var want := if n > |nodes| then |nodes| else n;
      var list := Walk(vnodes, keyHash(key), want);
      PrefixIsPreferenceList(hashOf, nodes.Keys, vnodeCount, vnodes, keyHash(key), n);
      r := Fine(list);
    }

    /** The strict list followed by overflow candidates. */
    method GetExtendedPreferenceList(key: Bytes, n: nat, extra: nat) returns (r: Outcome<seq<NodeID>>)
      requires Valid()
      ensures r == if nodes == map[] then Fault(EmptyRing) else Fine(Prefix(NodeOrder(vnodes, keyHash(key)), n + extra))
      ensures r.Fine? ==> |r.value| == Min(n + extra, |nodes|) && BeginsStrictly(vnodes, keyHash(key), n, r.value)
    {
      if |nodes| == 0 {
        return Fault(EmptyRing);
      }
      var want := n + extra;
      if want > |nodes| {
        want := |nodes|;
      }
      var list := Walk(vnodes, keyHash(key), want);
      OrderIsPermutationOfMembers(hashOf, nodes.Keys, vnodeCount, vnodes, keyHash(key));
      ExtendedBeginsStrictly(vnodes, keyHash(key), n, extra);
      r := Fine(list);
    }
  }
}
