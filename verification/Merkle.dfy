/** The mutable Merkle tree: leaves changed in place, internal nodes rebuilt lazily. */
module Merkle {
  import opened Common
  import opened ClockText
  import opened Siblings
  import opened Digests
  import opened MerkleSpec
  import opened Changes

  // ----- what one key contributes -----

  type Record = Item<Bytes, seq<Sibling>>

  /** Clock text and value of every sibling, in order. */
  function Content(s: seq<Sibling>): Bytes {
    if s == [] then [] else Content(s[..|s| - 1]) + ClockString(s[|s| - 1].clock) + s[|s| - 1].value
  }

  /** The three uses of SHA-256, each an arbitrary function: over a key and its siblings, over two child
      hashes, and the first eight bytes over a key as a number. */
  datatype Hashing = Hashing(content: Bytes -> Digest, node: Hash, position: Bytes -> Uint64)

  function ItemDigest(h: Hashing, x: Record): Digest {
    (h.content)(x.key + Content(x.value))
  }

  function Bucket(h: Hashing, key: Bytes, buckets: nat): (r: nat)
    requires buckets > 0
    ensures r < buckets
  {
    (h.position)(key) % buckets
  }

  function Toggled(h: Hashing, leaves: seq<Digest>, x: Record): (r: seq<Digest>)
    requires |leaves| > 0
    ensures |r| == |leaves|
  {
    var b := Bucket(h, x.key, |leaves|);
    leaves[b := Xor(leaves[b], ItemDigest(h, x))]
  }

  /** Everything that is written to the hash, sibling by sibling. */
  function Hashed(written: Bytes, s: seq<Sibling>): Bytes
    decreases |s|
  {
    if s == [] then written else Hashed(written + ClockString(s[0].clock) + s[0].value, s[1..])
  }

  lemma {:induction false} ContentCons(x: Sibling, s: seq<Sibling>)
    ensures Content([x] + s) == ClockString(x.clock) + (x.value + Content(s))
  {
    var all := [x] + s;
    if s == [] {
      assert all[..0] == [] && all == [x];
      assert Content([]) + ClockString(x.clock) + x.value == ClockString(x.clock) + (x.value + Content([]));
    } else {
      var n := |s| - 1;
      assert all[..|all| - 1] == [x] + s[..n] && all[|all| - 1] == s[n];
      ContentCons(x, s[..n]);
      Regrouped(ClockString(x.clock), x.value, Content(s[..n]), ClockString(s[n].clock), s[n].value);
    }
  }

  lemma Regrouped(a: Bytes, b: Bytes, c: Bytes, d: Bytes, e: Bytes)
    ensures (a + (b + c)) + d + e == a + (b + (c + d + e))
  {
    Assoc(a, b + c, d);
    Assoc(a, (b + c) + d, e);
    Assoc(b, c, d);
    Assoc(b, c + d, e);
  }

  lemma {:induction false} HashedIsContent(written: Bytes, s: seq<Sibling>)
    ensures Hashed(written, s) == written + Content(s)
    decreases |s|
  {
    if s == [] {
      assert written + [] == written;
    } else {
      var x, rest := s[0], s[1..];
      HashedIsContent(written + ClockString(x.clock) + x.value, rest);
      ContentCons(x, rest);
      assert [x] + rest == s;
      Assoc(written, ClockString(x.clock), x.value + Content(rest));
      Assoc(written + ClockString(x.clock), x.value, Content(rest));
    }
  }

  /** In the bucket of the key, each byte of the leaf changes by the hash of key and siblings; no other leaf changes. */
  ghost predicate Flips(h: Hashing, before: seq<Digest>, after: seq<Digest>, key: Bytes, s: seq<Sibling>) {
    && |after| == |before| > 0
    && var b := (h.position)(key) % |before|;
       && (forall k :: 0 <= k < |before| && k != b ==> after[k] == before[k])
       && (forall i :: 0 <= i < 32 ==> after[b][i] == before[b][i] ^ (h.content)(Hashed(key, s))[i])
  }

  lemma ToggledFlips(h: Hashing, leaves: seq<Digest>, key: Bytes, s: seq<Sibling>)
    requires |leaves| > 0
    ensures Flips(h, leaves, Toggled(h, leaves, Item(key, s)), key, s)
  {
    HashedIsContent(key, s);
  }

  /** The same siblings under two keys of one bucket cancel only if the hash collides on two different inputs. */
  lemma TwoKeysCancelIff(h: Hashing, a: seq<Digest>, b: seq<Digest>, c: seq<Digest>, k: Bytes, l: Bytes,
                         s: seq<Sibling>)
    requires k != l && Flips(h, a, b, k, s) && Flips(h, b, c, l, s)
    requires (h.position)(k) % |a| == (h.position)(l) % |a|
    ensures Hashed(k, s) != Hashed(l, s)
    ensures c == a <==> (h.content)(Hashed(k, s)) == (h.content)(Hashed(l, s))
  {
    HashedIsContent(k, s);
    HashedIsContent(l, s);
    SuffixCancels(k, l, Content(s));
    var m := (h.position)(k) % |a|;
    var d, e := (h.content)(Hashed(k, s)), (h.content)(Hashed(l, s));
    assert c[m] == Xor(Xor(a[m], d), e);
    XorAssociates(a[m], d, e);
    XorUnit(a[m]);
    XorCancels(a[m], Xor(d, e), Zero());
    XorUnit(d);
    XorCancels(d, e, d);
    if d == e {
      forall i | 0 <= i < |a| ensures c[i] == a[i] {
        assert i != m ==> c[i] == b[i] == a[i];
      }
    }
  }

  lemma SuffixCancels(a: Bytes, b: Bytes, t: Bytes)
    ensures a + t == b + t ==> a == b
  {
    if a + t == b + t {
      assert |a| == |b|;
      assert (a + t)[..|a|] == a && (b + t)[..|b|] == b;
    }
  }

  function ToggledAll(h: Hashing, leaves: seq<Digest>, items: seq<Record>): (r: seq<Digest>)
    requires |leaves| > 0
    ensures |r| == |leaves|
  {
    if items == [] then leaves else Toggled(h, ToggledAll(h, leaves, items[..|items| - 1]), items[|items| - 1])
  }

  function Empty(buckets: nat): seq<Digest> {
    seq(buckets, _ => Zero())
  }

  function Root(sha: Hash, depth: nat, leaves: seq<Digest>): Digest
    requires |leaves| == Pow2(depth)
  {
    if depth == 0 then Zero() else NodeHash(sha, depth, leaves, 0, 0)
  }

  lemma RootIsFolded(sha: Hash, depth: nat, leaves: seq<Digest>)
    requires |leaves| == Pow2(depth)
    ensures Root(sha, depth, leaves) == if depth == 0 then Zero() else Folded(sha, depth, leaves)
  {
    NodeHashIsFolded(sha, depth, leaves, 0, 0);
    FirstBucketIsMultiple(depth, 0, 0);
    assert Row(depth, leaves, 0, 0) == leaves;
  }

  /** Key, then clock text and value of each sibling, are written to the hash in turn. */
  method HashKey(h: Hashing, key: Bytes, siblings: seq<Sibling>) returns (hash: Digest)
    ensures hash == ItemDigest(h, Item(key, siblings))
  {
    var written := key;
    assert siblings[0..] == siblings;
    for i := 0 to |siblings|
      invariant Hashed(written, siblings[i..]) == Hashed(key, siblings)
    {
      assert siblings[i..][1..] == siblings[i + 1..];
      written := written + ClockString(siblings[i].clock) + siblings[i].value;
    }
    assert Hashed(written, []) == written;
    HashedIsContent(key, siblings);
    hash := (h.content)(written);
  }

  class MerkleTree {
    const depth: nat
    const h: Hashing
    const leafHashes: array<Digest>
    const nodeHashes: array<Digest>
    const dirty: array<bool>

    ghost function Repr(): set<object> {
      {leafHashes, nodeHashes, dirty}
    }

    function AsView(): View
      reads leafHashes, nodeHashes
    {
      View(depth, leafHashes[..], nodeHashes[..])
    }

    ghost predicate AllClean()
      reads dirty
    {
      forall b :: 0 <= b < dirty.Length ==> !dirty[b]
    }

    /** The cache is coherent unless some dirty flag says otherwise. */
    ghost predicate Valid()
      reads leafHashes, nodeHashes, dirty
    {
      && leafHashes != nodeHashes
      && leafHashes.Length == Pow2(depth) == dirty.Length && nodeHashes.Length == Pow2(depth) - 1
      && (AllClean() ==> Coherent(h.node, AsView()))
    }

    constructor (depth: nat, h: Hashing)
      ensures Valid() && fresh(Repr()) && this.depth == depth && this.h == h
      ensures AllClean() && leafHashes[..] == Empty(Pow2(depth))
    {
      var n := Pow2(depth);
      this.depth := depth;
      this.h := h;
      leafHashes := new Digest[n](_ => Zero());
      nodeHashes := new Digest[n - 1](_ => Zero());
      dirty := new bool[n](_ => false);
      new;
      assert leafHashes[..] == Empty(n);
      RebuildTree();
    }

    /** One level of the rebuild: each node of the level is the hash of its two children. */
    method RebuildLevel(level: nat)
      requires leafHashes != nodeHashes && leafHashes.Length == Pow2(depth) && nodeHashes.Length == Pow2(depth) - 1
      requires level < depth && LevelCoherent(h.node, AsView(), level + 1)
      modifies nodeHashes
      ensures LevelCoherent(h.node, AsView(), level)
      ensures forall k :: Pow2(level + 1) - 1 <= k < nodeHashes.Length ==> nodeHashes[k] == old(nodeHashes[k])
    {
      var count := Pow2(level);
      ghost var before := AsView();
      for i := 0 to count
        invariant forall k :: Pow2(level + 1) - 1 <= k < nodeHashes.Length ==> nodeHashes[k] == old(nodeHashes[k])
        invariant forall j: nat :: j < i ==>
                    NodeAt(AsView(), level, j) == NodeHash(h.node, depth, leafHashes[..], level, j)
      {
        var left, right := ReadChildren(level, i, before);
        IndexInBounds(depth, level, i);
        var idx := Pow2(level) - 1 + i;
        ghost var was := AsView();
        var children: seq<bv8> := left;
        children := children + right;
        nodeHashes[idx] := (h.node)(children);
        forall j: nat | j <= i ensures NodeAt(AsView(), level, j) == NodeHash(h.node, depth, leafHashes[..], level, j) {
          IndexInBounds(depth, level, j);
          if j < i {
            assert NodeAt(was, level, j) == NodeHash(h.node, depth, leafHashes[..], level, j);
          }
        }
      }
    }

    /** The children of a node are leaves on the last level and array entries above it. */
    method ReadChildren(level: nat, i: nat, ghost before: View) returns (left: Digest, right: Digest)
      requires leafHashes != nodeHashes && leafHashes.Length == Pow2(depth) && nodeHashes.Length == Pow2(depth) - 1
      requires level < depth && i < Pow2(level)
      requires before.depth == depth && before.leaves == leafHashes[..] && |before.nodes| == nodeHashes.Length
      requires LevelCoherent(h.node, before, level + 1)
      requires forall k :: Pow2(level + 1) - 1 <= k < nodeHashes.Length ==> nodeHashes[k] == before.nodes[k]
      ensures left == NodeHash(h.node, depth, leafHashes[..], level + 1, 2 * i)
      ensures right == NodeHash(h.node, depth, leafHashes[..], level + 1, 2 * i + 1)
    {
      assert NodeAt(before, level + 1, 2 * i) == NodeHash(h.node, depth, leafHashes[..], level + 1, 2 * i);
      assert NodeAt(before, level + 1, 2 * i + 1) == NodeHash(h.node, depth, leafHashes[..], level + 1, 2 * i + 1);
      if level == depth - 1 {
        left, right := leafHashes[2 * i], leafHashes[2 * i + 1];
      } else {
        IndexInBounds(depth, level + 1, 2 * i + 1);
        var childStart := Pow2(level + 1) - 1;
        left, right := nodeHashes[childStart + 2 * i], nodeHashes[childStart + 2 * i + 1];
      }
    }

    /** Bottom-up rebuild of every internal node; clears all dirty flags. */
    method RebuildTree()
      requires leafHashes != nodeHashes
      requires leafHashes.Length == Pow2(depth) == dirty.Length && nodeHashes.Length == Pow2(depth) - 1
      modifies nodeHashes, dirty
      ensures Valid() && AllClean()
    {
      var level := depth;
      while level > 0
        invariant level <= depth
        invariant forall l: nat :: level <= l <= depth ==> LevelCoherent(h.node, AsView(), l)
      {
        level := level - 1;
        ghost var was := AsView();
        RebuildLevel(level);
        forall l: nat | level < l <= depth ensures LevelCoherent(h.node, AsView(), l) {
          DeeperLevelsStay(h.node, was, AsView(), level, l);
        }
      }
      for b := 0 to dirty.Length
        invariant forall k :: 0 <= k < b ==> !dirty[k]
        invariant forall l: nat :: l <= depth ==> LevelCoherent(h.node, AsView(), l)
      {
        dirty[b] := false;
      }
    }

    method RebuildIfNeeded()
      requires Valid()
      modifies nodeHashes, dirty
      ensures Valid() && AllClean()
    {
      for b := 0 to dirty.Length
        invariant forall k :: 0 <= k < b ==> !dirty[k]
      {
        if dirty[b] {
          RebuildTree();
          return;
        }
      }
    }

    /** Exclusive-or a key's digest into its bucket; an absent sibling set changes nothing. */
    method ToggleKey(key: Bytes, siblings: Option<seq<Sibling>>)
      requires Valid()
      modifies leafHashes, dirty
      ensures Valid()
      ensures leafHashes[..] == if siblings.None? then old(leafHashes[..])
                                else Toggled(h, old(leafHashes[..]), Item(key, siblings.value))
      ensures siblings.Some? ==> Flips(h, old(leafHashes[..]), leafHashes[..], key, siblings.value)
    {
      if siblings.None? {
        return;
      }
      var b := Bucket(h, key, leafHashes.Length);
      var hash := HashKey(h, key, siblings.value);
      ghost var before := leafHashes[b];
      for i := 0 to 32
        invariant forall k :: 0 <= k < 32 ==> leafHashes[b][k] == if k < i then before[k] ^ hash[k] else before[k]
        invariant forall k :: 0 <= k < leafHashes.Length && k != b ==> leafHashes[k] == old(leafHashes[k])
      {
        leafHashes[b] := leafHashes[b][i := leafHashes[b][i] ^ hash[i]];
      }
      assert leafHashes[b] == Xor(before, hash);
      dirty[b] := true;
      assert leafHashes[..] == Toggled(h, old(leafHashes[..]), Item(key, siblings.value));
      ToggledFlips(h, old(leafHashes[..]), key, siblings.value);
    }

    /** Zero every leaf, then toggle in each scanned key, then rebuild. */
    method Build(scan: seq<Record>)
      requires Valid()
      modifies leafHashes, nodeHashes, dirty
      ensures Valid() && AllClean()
      ensures leafHashes[..] == ToggledAll(h, Empty(Pow2(depth)), scan)
    {
      for b := 0 to leafHashes.Length
        invariant forall k :: 0 <= k < b ==> leafHashes[k] == Zero() && dirty[k]
        modifies leafHashes, dirty
      {
        leafHashes[b] := Zero();
        dirty[b] := true;
      }
      assert leafHashes[..] == Empty(Pow2(depth));
      assert !AllClean() by {
        assert dirty[0];
      }
      for i := 0 to |scan|
        invariant Valid()
        invariant leafHashes[..] == ToggledAll(h, Empty(Pow2(depth)), scan[..i])
        modifies leafHashes, dirty
      {
        ToggleKey(scan[i].key, Some(scan[i].value));
        assert scan[..i + 1][..i] == scan[..i];
      }
      assert scan[..|scan|] == scan;
      RebuildTree();
    }

    /** The root is the recursive hash of the current leaves, after any sequence of operations. */
    method GetRoot() returns (root: Digest)
      requires Valid()
      modifies nodeHashes, dirty
      ensures Valid() && AllClean()
      ensures root == Root(h.node, depth, leafHashes[..])
      ensures root == if depth == 0 then Zero() else Folded(h.node, depth, leafHashes[..])
    {
      RootIsFolded(h.node, depth, leafHashes[..]);
      RebuildIfNeeded();
      if nodeHashes.Length == 0 {
        assert Pow2(1) == 2;
        Pow2Monotone(if depth == 0 then 0 else 1, depth);
        return Zero();
      }
      assert LevelCoherent(h.node, AsView(), 0);
      assert NodeAt(AsView(), 0, 0) == NodeHash(h.node, depth, leafHashes[..], 0, 0);
      root := nodeHashes[0];
    }

    /** Differing bucket ranges; trees of different depth differ everywhere. */
    method Compare(other: MerkleTree) returns (diffs: seq<BucketRange>)
      requires Valid() && other.Valid() && Repr() !! other.Repr() && (depth == other.depth ==> depth > 0)
      modifies nodeHashes, dirty, other.nodeHashes, other.dirty
      ensures Valid() && other.Valid()
      ensures depth != other.depth ==> diffs == [BucketRange(0, Pow2(depth))]
      ensures depth == other.depth ==>
                && AllClean() && other.AllClean()
                && diffs == Difference(AsView(), other.AsView())
    {
      if depth != other.depth {
        return [BucketRange(0, Pow2(depth))];
      }
      RebuildIfNeeded();
      other.RebuildIfNeeded();
      IndexInBounds(depth, 0, 0);
      ghost var differs := Differs(AsView(), other.AsView());
      assert differs(0, 0) == (nodeHashes[0] != other.nodeHashes[0]);
      if nodeHashes[0] == other.nodeHashes[0] {
        return [];
      }
      NextFirstBucket(depth, 0, 0);
      FirstBucketIsMultiple(depth, 0, 0);
      diffs := FindDifferences(AsView(), other.AsView(), 0, 0, Pow2(depth), 0);
    }
  }

  lemma DeeperLevelsStay(sha: Hash, v: View, w: View, level: nat, l: nat)
    requires Shaped(v) && Shaped(w) && v.depth == w.depth && v.leaves == w.leaves && level < l <= v.depth
    requires forall k :: Pow2(level + 1) - 1 <= k < |v.nodes| ==> w.nodes[k] == v.nodes[k]
    requires LevelCoherent(sha, v, l)
    ensures LevelCoherent(sha, w, l)
  {
    forall i: nat | i < Pow2(l) ensures NodeAt(w, l, i) == NodeHash(sha, w.depth, w.leaves, l, i) {
      assert NodeAt(v, l, i) == NodeHash(sha, v.depth, v.leaves, l, i);
      if l < v.depth {
        IndexInBounds(v.depth, l, i);
        Pow2Monotone(level + 1, l);
      }
    }
  }
}

/** What the leaves of a Merkle tree depend on. */
module MerkleParity {
  import opened Common
  import opened ClockText
  import opened VClock
  import opened Siblings
  import opened Digests
  import opened MerkleSpec
  import opened Changes
  import opened StorageEngine
  import opened Transport
  import opened Merkle

  /** What an item adds to bucket `b`. */
  function Contribution(h: Hashing, buckets: nat, b: nat): Record -> Digest
    requires buckets > 0
  {
    (x: Record) => if Bucket(h, x.key, buckets) == b then ItemDigest(h, x) else Zero()
  }

  lemma {:induction false} XorSumSnoc<T>(f: T -> Digest, s: seq<T>, x: T)
    ensures XorSum(f, s + [x]) == Xor(f(x), XorSum(f, s))
  {
    XorSumTakeOut(f, s + [x], |s|);
    assert Without(s + [x], |s|) == s;
  }

  /** After any run of toggles a leaf is its old value xor the sum of what was toggled into its bucket. */
  lemma {:induction false} LeafIsSum(h: Hashing, leaves: seq<Digest>, items: seq<Record>, b: nat)
    requires b < |leaves|
    ensures ToggledAll(h, leaves, items)[b] == Xor(leaves[b], XorSum(Contribution(h, |leaves|, b), items))
  {
    var f := Contribution(h, |leaves|, b);
    if items == [] {
      XorUnit(leaves[b]);
    } else {
      var n := |items| - 1;
      var rest, x := items[..n], items[n];
      LeafIsSum(h, leaves, rest, b);
      assert items == rest + [x];
      XorSumSnoc(f, rest, x);
      XorUnit(XorSum(f, rest));
      XorAssociates(leaves[b], XorSum(f, rest), f(x));
      XorCommutes(XorSum(f, rest), f(x));
    }
  }

  /** Two runs that toggle the same items an odd number of times end with the same leaves, hence the same root. */
  lemma LeavesDependOnParity(h: Hashing, depth: nat, leaves: seq<Digest>, s: seq<Record>, t: seq<Record>)
    requires |leaves| == Pow2(depth) && SameParity(s, t)
    ensures ToggledAll(h, leaves, s) == ToggledAll(h, leaves, t)
    ensures Root(h.node, depth, ToggledAll(h, leaves, s)) == Root(h.node, depth, ToggledAll(h, leaves, t))
  {
    forall b: nat | b < |leaves| ensures ToggledAll(h, leaves, s)[b] == ToggledAll(h, leaves, t)[b] {
      LeafIsSum(h, leaves, s, b);
      LeafIsSum(h, leaves, t, b);
      SumDependsOnParity(Contribution(h, |leaves|, b), s, t);
    }
  }

  // ----- incremental maintenance against a full build -----

  /** Maintaining the tree change by change gives the root of a full build over the final contents. */
  lemma IncrementalEqualsBuild(h: Hashing, depth: nat, changes: seq<Change<Bytes, seq<Sibling>>>, scan: seq<Record>)
    requires ScanOf(ContentsAfter(changes), scan)
    ensures ToggledAll(h, Empty(Pow2(depth)), TogglesOf(changes)) == ToggledAll(h, Empty(Pow2(depth)), scan)
    ensures Root(h.node, depth, ToggledAll(h, Empty(Pow2(depth)), TogglesOf(changes)))
         == Root(h.node, depth, ToggledAll(h, Empty(Pow2(depth)), scan))
  {
    ScanHasSameParity(changes, scan);
    LeavesDependOnParity(h, depth, Empty(Pow2(depth)), TogglesOf(changes), scan);
  }

  // ----- what the coordinator toggles -----

  type Contents = map<Bytes, seq<Sibling>>

  function Lookup(c: Contents, key: Bytes): Option<seq<Sibling>> {
    if key in c then Some(c[key]) else None
  }

  /** An absent set toggles nothing. */
  function OptionDigest(h: Hashing, key: Bytes, v: Option<seq<Sibling>>): Digest {
    if v.Some? then ItemDigest(h, Item(key, v.value)) else Zero()
  }

  function ToggledOption(h: Hashing, leaves: seq<Digest>, key: Bytes, v: Option<seq<Sibling>>): seq<Digest>
    requires |leaves| > 0
  {
    if v.Some? then Toggled(h, leaves, Item(key, v.value)) else leaves
  }

  lemma ToggledOptionLeaf(h: Hashing, leaves: seq<Digest>, key: Bytes, v: Option<seq<Sibling>>)
    requires |leaves| > 0
    ensures var b := Bucket(h, key, |leaves|);
            ToggledOption(h, leaves, key, v) == leaves[b := Xor(leaves[b], OptionDigest(h, key, v))]
  {
    XorUnit(leaves[Bucket(h, key, |leaves|)]);
  }

  /** A change toggles its bucket by the digests of the old and of the new record. */
  lemma ChangeLeaf(h: Hashing, leaves: seq<Digest>, c: Contents, x: Change<Bytes, seq<Sibling>>)
    requires |leaves| > 0
    ensures var b := Bucket(h, x.key, |leaves|);
            ToggledAll(h, leaves, Toggles(c, x))
            == leaves[b := Xor(leaves[b],
                               Xor(OptionDigest(h, x.key, Lookup(c, x.key)), OptionDigest(h, x.key, x.after)))]
  {
    var b := Bucket(h, x.key, |leaves|);
    var before := Lookup(c, x.key);
    var o, n := OptionDigest(h, x.key, before), OptionDigest(h, x.key, x.after);
    var mid := ToggledOption(h, leaves, x.key, before);
    ToggledOptionLeaf(h, leaves, x.key, before);
    ToggledOptionLeaf(h, mid, x.key, x.after);
    XorAssociates(leaves[b], o, n);
    TwoToggles(h, leaves, x.key, before, x.after);
  }

  lemma TwoToggles(h: Hashing, leaves: seq<Digest>, key: Bytes, v: Option<seq<Sibling>>, w: Option<seq<Sibling>>)
    requires |leaves| > 0
    ensures ToggledOption(h, ToggledOption(h, leaves, key, v), key, w) ==
            ToggledAll(h, leaves, (if v.Some? then [Item(key, v.value)] else []) +
                                  if w.Some? then [Item(key, w.value)] else [])
  {
    var a: seq<Record> := if v.Some? then [Item(key, v.value)] else [];
    var b: seq<Record> := if w.Some? then [Item(key, w.value)] else [];
    if v.Some? {
      assert a[..0] == [];
      assert ToggledAll(h, leaves, a) == Toggled(h, leaves, a[0]);
    }
    if w.Some? {
      assert (a + b)[..|a|] == a && (a + b)[|a|] == b[0];
    } else {
      assert a + b == a;
    }
  }

  /** Toggling one set into the bucket of a changed key matches a full build exactly when its digest equals the
      digests of the replaced and of the stored record combined. */
  lemma CoordinatorToggleMatchesIff(h: Hashing, leaves: seq<Digest>, c: Contents, x: Change<Bytes, seq<Sibling>>,
                                    toggled: Option<seq<Sibling>>)
    requires |leaves| > 0
    ensures ToggledOption(h, leaves, x.key, toggled) == ToggledAll(h, leaves, Toggles(c, x)) <==>
            OptionDigest(h, x.key, toggled) ==
            Xor(OptionDigest(h, x.key, Lookup(c, x.key)), OptionDigest(h, x.key, x.after))
  {
    var b := Bucket(h, x.key, |leaves|);
    var t := OptionDigest(h, x.key, toggled);
    var d := Xor(OptionDigest(h, x.key, Lookup(c, x.key)), OptionDigest(h, x.key, x.after));
    ToggledOptionLeaf(h, leaves, x.key, toggled);
    ChangeLeaf(h, leaves, c, x);
    XorCancels(leaves[b], t, d);
    assert leaves[b := Xor(leaves[b], t)][b] == Xor(leaves[b], t);
    assert leaves[b := Xor(leaves[b], d)][b] == Xor(leaves[b], d);
  }

  /** What a node holds after a write: what its Put stored when it stores the key, otherwise what it held. */
  ghost predicate AfterWrite(c: Contents, key: Bytes, w: Sibling, opts: Options, now: Int64, stores: bool,
                             after: Option<seq<Sibling>>) {
    if stores then after.Some? && PutResult(if key in c then c[key] else [], [w], opts, now, after.value)
    else after == Lookup(c, key)
  }

  lemma OverwriteStores(existing: seq<Sibling>, w: Sibling, opts: Options, now: Int64, r: seq<Sibling>)
    requires Overrides(w, existing) && PutResult(existing, [w], opts, now, r)
    requires opts.maxSiblings > 0 && PruneIsIdle(w.clock, now, opts.pruneThreshold, opts.maxEntries)
    ensures r == [w]
  {
    UnexpiredFrom(existing, now);
    OverridingWriteCollapses(Unexpired(existing, now), w);
    var p: seq<Sibling> :| ClocksPruned([w], p, opts, now) && Limited(p, r, opts.maxSiblings);
    IdlePruneKeepsClock(w.clock, p[0].clock, now, opts.pruneThreshold, opts.maxEntries);
    assert p == [w];
  }

  /** The coordinator toggles in the written set and nothing else. For a write that replaces what was stored its
      bucket is right for a first write; for a later write exactly when the replaced record has the zero digest;
      and, when the coordinator does not store the key, exactly when the written set has. */
  lemma OverwriteToggleMatchesIff(h: Hashing, leaves: seq<Digest>, c: Contents, key: Bytes, w: Sibling, opts: Options,
                                  now: Int64, stores: bool, after: Option<seq<Sibling>>)
    requires |leaves| > 0 && (key in c ==> Overrides(w, c[key])) && AfterWrite(c, key, w, opts, now, stores, after)
    requires opts.maxSiblings > 0 && PruneIsIdle(w.clock, now, opts.pruneThreshold, opts.maxEntries)
    ensures ToggledOption(h, leaves, key, Some([w])) == ToggledAll(h, leaves, Toggles(c, Change(key, after)))
            <==> if !stores then OptionDigest(h, key, Some([w])) == Zero()
                 else key in c ==> ItemDigest(h, Item(key, c[key])) == Zero()
  {
    var o, n := OptionDigest(h, key, Lookup(c, key)), OptionDigest(h, key, Some([w]));
    if stores {
      OverwriteStores(if key in c then c[key] else [], w, opts, now, after.value);
    }
    CoordinatorToggleMatchesIff(h, leaves, c, Change(key, after), Some([w]));
    XorUnit(o);
    XorUnit(n);
    XorCommutes(o, n);
    XorCancels(n, o, Zero());
  }

  /** What a raw read returns before a delete: the unexpired siblings, or nothing. */
  function RawRead(c: Contents, key: Bytes, now: Int64): Option<seq<Sibling>> {
    if key in c && Unexpired(c[key], now) != [] then Some(Unexpired(c[key], now)) else None
  }

  /** A delete toggles out what it read and never toggles in the tombstone it stores. Its bucket is right exactly
      when the stored record's digest makes up for what expiry hid, which without expiry is the zero digest. */
  lemma DeleteToggleMatchesIff(h: Hashing, leaves: seq<Digest>, c: Contents, key: Bytes, now: Int64,
                               after: Option<seq<Sibling>>)
    requires |leaves| > 0
    ensures ToggledOption(h, leaves, key, RawRead(c, key, now)) ==
            ToggledAll(h, leaves, Toggles(c, Change(key, after))) <==>
            OptionDigest(h, key, after) ==
            Xor(OptionDigest(h, key, Lookup(c, key)), OptionDigest(h, key, RawRead(c, key, now)))
    ensures RawRead(c, key, now) == Lookup(c, key) ==>
            (ToggledOption(h, leaves, key, RawRead(c, key, now)) ==
             ToggledAll(h, leaves, Toggles(c, Change(key, after))) <==>
             OptionDigest(h, key, after) == Zero())
  {
    var o, n := OptionDigest(h, key, Lookup(c, key)), OptionDigest(h, key, after);
    var r := OptionDigest(h, key, RawRead(c, key, now));
    CoordinatorToggleMatchesIff(h, leaves, c, Change(key, after), RawRead(c, key, now));
    XorTwice(o, r);
    XorTwice(o, n);
    XorUnit(o);
  }

  // ----- replicas that hold the same versions -----

  /** Every entry of every clock already carries the time. */
  predicate StampedAt(s: seq<Sibling>, now: Int64) {
    forall i, n :: 0 <= i < |s| && n in s[i].clock ==> s[i].clock[n].timestamp == now
  }

  lemma RestampedSame(c: Clock, now: Int64)
    ensures Restamped(c, now) == c <==> forall n :: n in c ==> c[n].timestamp == now
  {
    assert forall n :: n in c ==> (Restamped(c, now)[n] == c[n] <==> c[n].timestamp == now);
    assert Restamped(c, now).Keys == c.Keys;
  }

  /** What is hashed of a record survives the wire exactly when no time changes. */
  lemma {:induction false} SentContentIff(s: seq<Sibling>, now: Int64)
    ensures Content(s) == Content(SentAll(s, now)) <==> StampedAt(s, now)
  {
    if s == [] {
      assert SentAll(s, now) == [];
    } else {
      var x, rest := s[0], s[1..];
      var y, sent := Sent(x, now), SentAll(rest, now);
      assert s == [x] + rest && SentAll(s, now) == [y] + sent;
      ContentCons(x, rest);
      ContentCons(y, sent);
      SentContentIff(rest, now);
      RestampedSame(x.clock, now);
      var p, q := x.value + Content(rest), x.value + Content(sent);
      if Content(s) == Content(SentAll(s, now)) {
        ClockStringSame(x.clock, y.clock, p, q);
        assert Content(rest) == p[|x.value|..] && Content(sent) == q[|x.value|..];
      }
      StampedCons(s, now);
    }
  }

  lemma StampedCons(s: seq<Sibling>, now: Int64)
    requires s != []
    ensures StampedAt(s, now) <==>
            StampedAt(s[1..], now) && forall n :: n in s[0].clock ==> s[0].clock[n].timestamp == now
  {
    assert forall i :: 0 <= i < |s| - 1 ==> s[1..][i] == s[i + 1];
    if StampedAt(s[1..], now) && (forall n :: n in s[0].clock ==> s[0].clock[n].timestamp == now) {
      forall i, n | 0 <= i < |s| && n in s[i].clock ensures s[i].clock[n].timestamp == now {
        assert i > 0 ==> s[i] == s[1..][i - 1];
      }
    }
  }

  /** A record that crossed the wire has its sender's digest exactly when every entry of its clocks already had the
      time of arrival, unless the content hash collides. */
  lemma PushedRecordMatchesIff(h: Hashing, leaves: seq<Digest>, key: Bytes, s: seq<Sibling>, now: Int64)
    requires |leaves| > 0
    requires ItemDigest(h, Item(key, s)) == ItemDigest(h, Item(key, SentAll(s, now))) ==>
               Content(s) == Content(SentAll(s, now))
    ensures Toggled(h, leaves, Item(key, s)) == Toggled(h, leaves, Item(key, SentAll(s, now))) <==> StampedAt(s, now)
  {
    var b := Bucket(h, key, |leaves|);
    var d, e := ItemDigest(h, Item(key, s)), ItemDigest(h, Item(key, SentAll(s, now)));
    XorCancels(leaves[b], d, e);
    assert Toggled(h, leaves, Item(key, s))[b] == Xor(leaves[b], d);
    assert Toggled(h, leaves, Item(key, SentAll(s, now)))[b] == Xor(leaves[b], e);
    SentContentIff(s, now);
  }
}
