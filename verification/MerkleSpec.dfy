/** The Merkle tree as values: the recursive hash, the heap layout and the search for differing buckets. */
module MerkleSpec {
  import opened Digests

  /** The hash of two concatenated child hashes; SHA-256 is left as an arbitrary function. */
  type Hash = seq<bv8> -> Digest

  function Pow2(k: nat): (r: nat)
    ensures r > 0
  {
    if k == 0 then 1 else 2 * Pow2(k - 1)
  }

  lemma {:induction false} Pow2Monotone(a: nat, b: nat)
    requires a <= b
    ensures Pow2(a) <= Pow2(b)
    decreases b
  {
    if a < b {
      Pow2Monotone(a, b - 1);
    }
  }

  /** Node `i` of a level in the heap layout; levels occupy disjoint stretches of the array. */
  function Index(level: nat, i: nat): nat
    requires i < Pow2(level)
  {
    Pow2(level) - 1 + i
  }

  lemma IndexInBounds(depth: nat, level: nat, i: nat)
    requires level < depth && i < Pow2(level)
    ensures Index(level, i) < Pow2(depth) - 1
  {
    Pow2Monotone(level + 1, depth);
  }

  // ----- the recursive hash -----

  function NodeHash(sha: Hash, depth: nat, leaves: seq<Digest>, level: nat, i: nat): Digest
    requires |leaves| == Pow2(depth) && level <= depth && i < Pow2(level)
    decreases depth - level
  {
    if level == depth then leaves[i]
    else sha(NodeHash(sha, depth, leaves, level + 1, 2 * i) + NodeHash(sha, depth, leaves, level + 1, 2 * i + 1))
  }

  datatype View = View(depth: nat, leaves: seq<Digest>, nodes: seq<Digest>)

  predicate Shaped(v: View) {
    |v.leaves| == Pow2(v.depth) && |v.nodes| == Pow2(v.depth) - 1
  }

  /** The hash stored for a node: an array entry, or the leaf itself. */
  function NodeAt(v: View, level: nat, i: nat): Digest
    requires Shaped(v) && level <= v.depth && i < Pow2(level)
  {
    if level == v.depth then v.leaves[i] else
      IndexInBounds(v.depth, level, i);
      v.nodes[Index(level, i)]
  }

  ghost predicate LevelCoherent(sha: Hash, v: View, level: nat)
    requires Shaped(v) && level <= v.depth
  {
    forall i: nat :: i < Pow2(level) ==> NodeAt(v, level, i) == NodeHash(sha, v.depth, v.leaves, level, i)
  }

  /** Every stored node agrees with the recursive hash of the leaves below it. */
  ghost predicate Coherent(sha: Hash, v: View) {
    Shaped(v) && forall level: nat :: level <= v.depth ==> LevelCoherent(sha, v, level)
  }

  // ----- the bucket ranges that the search splits -----

  datatype BucketRange = BucketRange(start: nat, end: nat)

  function Width(depth: nat, level: nat): nat
    requires level <= depth
  {
    Pow2(depth - level)
  }

  /** The first bucket below node `i` of a level. */
  function FirstBucket(depth: nat, level: nat, i: nat): nat
    requires level <= depth
    decreases depth - level
  {
    if level == depth then i else FirstBucket(depth, level + 1, 2 * i)
  }

  lemma {:induction false} NextFirstBucket(depth: nat, level: nat, i: nat)
    requires level <= depth
    ensures FirstBucket(depth, level, i + 1) == FirstBucket(depth, level, i) + Width(depth, level)
    decreases depth - level
  {
    if level < depth {
      NextFirstBucket(depth, level + 1, 2 * i);
      NextFirstBucket(depth, level + 1, 2 * i + 1);
    }
  }

  /** [start, end) is the range of buckets below node `i` of a level. */
  predicate Spans(depth: nat, level: nat, i: nat, start: nat, end: nat)
    requires level <= depth
  {
    i < Pow2(level) && start == FirstBucket(depth, level, i) && end == start + Width(depth, level)
  }

  lemma HalfWay(start: nat, w: nat)
    ensures (start + (start + 2 * w)) / 2 == start + w
  {
  }

  /** The midpoint splits the range of a node into the ranges of its two children. */
  lemma MidSplits(depth: nat, level: nat, i: nat, start: nat, end: nat)
    requires level < depth && Spans(depth, level, i, start, end)
    ensures Spans(depth, level + 1, 2 * i, start, (start + end) / 2)
    ensures Spans(depth, level + 1, 2 * i + 1, (start + end) / 2, end)
    ensures start < (start + end) / 2 < end
  {
    HalfWay(start, Width(depth, level + 1));
    NextFirstBucket(depth, level + 1, 2 * i);
  }

  lemma MulHalf(i: nat, w: nat)
    ensures i * (2 * w) == (2 * i) * w
  {
  }

  lemma {:induction false} FirstBucketIsMultiple(depth: nat, level: nat, i: nat)
    requires level <= depth
    ensures FirstBucket(depth, level, i) == i * Width(depth, level)
    decreases depth - level
  {
    if level < depth {
      FirstBucketIsMultiple(depth, level + 1, 2 * i);
      MulHalf(i, Width(depth, level + 1));
    }
  }

  lemma {:induction false} Pow2Split(depth: nat, level: nat)
    requires level <= depth
    ensures Pow2(depth) == Pow2(level) * Pow2(depth - level)
  {
    if level > 0 {
      Pow2Split(depth, level - 1);
      MulHalf(Pow2(level - 1), Pow2(depth - level));
    }
  }

  // ----- the root as a fold over the leaves -----

  /** The hash of a row of leaves: of the left half and the right half, in this order. */
  function Folded(sha: Hash, d: nat, leaves: seq<Digest>): Digest
    requires |leaves| == Pow2(d)
  {
    if d == 0 then leaves[0] else
      var half := Pow2(d - 1);
      sha(Folded(sha, d - 1, leaves[..half]) + Folded(sha, d - 1, leaves[half..]))
  }

  lemma {:induction false} MulGrows(a: nat, b: nat, w: nat)
    requires a < b
    ensures a * w + w <= b * w
    decreases b
  {
    assert b * w == (b - 1) * w + w;
    if a < b - 1 {
      MulGrows(a, b - 1, w);
    }
  }

  lemma RowFits(depth: nat, level: nat, i: nat)
    requires level <= depth && i < Pow2(level)
    ensures FirstBucket(depth, level, i) + Width(depth, level) <= Pow2(depth)
  {
    FirstBucketIsMultiple(depth, level, i);
    Pow2Split(depth, level);
    MulGrows(i, Pow2(level), Width(depth, level));
  }

  /** The leaves below node `i` of a level. */
  function Row(depth: nat, leaves: seq<Digest>, level: nat, i: nat): (r: seq<Digest>)
    requires |leaves| == Pow2(depth) && level <= depth && i < Pow2(level)
    ensures |r| == Pow2(depth - level)
  {
    RowFits(depth, level, i);
    leaves[FirstBucket(depth, level, i)..FirstBucket(depth, level, i) + Width(depth, level)]
  }

  lemma RowSplits(depth: nat, leaves: seq<Digest>, level: nat, i: nat)
    requires |leaves| == Pow2(depth) && level < depth && i < Pow2(level)
    ensures var half, row := Pow2(depth - level - 1), Row(depth, leaves, level, i);
            && row[..half] == Row(depth, leaves, level + 1, 2 * i)
            && row[half..] == Row(depth, leaves, level + 1, 2 * i + 1)
  {
    NextFirstBucket(depth, level + 1, 2 * i);
    RowFits(depth, level, i);
  }

  /** The hash of a node is that of the row of leaves below it. */
  lemma {:induction false} NodeHashIsFolded(sha: Hash, depth: nat, leaves: seq<Digest>, level: nat, i: nat)
    requires |leaves| == Pow2(depth) && level <= depth && i < Pow2(level)
    ensures NodeHash(sha, depth, leaves, level, i) == Folded(sha, depth - level, Row(depth, leaves, level, i))
    decreases depth - level
  {
    if level < depth {
      RowSplits(depth, leaves, level, i);
      NodeHashIsFolded(sha, depth, leaves, level + 1, 2 * i);
      NodeHashIsFolded(sha, depth, leaves, level + 1, 2 * i + 1);
    }
  }

  lemma Multiples(d: int, b: nat)
    ensures d >= 1 ==> d * b >= b
    ensures d <= -1 ==> d * b + b <= 0
  {
  }

  lemma DivExact(a: nat, b: nat)
    requires b > 0
    ensures (a * b) / b == a
  {
    var x := a * b;
    var q, r := x / b, x % b;
    assert x == q * b + r;
    assert (a - q) * b == r;
    Multiples(a - q, b);
  }

  lemma QuotientOf(x: nat, a: nat, b: nat)
    requires b > 0 && x == a * b
    ensures x / b == a
  {
    DivExact(a, b);
  }

  lemma MulCommutes(a: nat, b: nat)
    ensures a * b == b * a
  {
  }

  lemma QuotientIsWidth(depth: nat, level: nat)
    requires level <= depth
    ensures Pow2(depth) / Pow2(level) == Width(depth, level)
  {
    Pow2Split(depth, level);
    MulCommutes(Pow2(level), Width(depth, level));
    QuotientOf(Pow2(depth), Width(depth, level), Pow2(level));
  }

  lemma PositionOfFirstBucket(depth: nat, level: nat, i: nat)
    requires level <= depth
    ensures FirstBucket(depth, level, i) / Width(depth, level) == i
  {
    FirstBucketIsMultiple(depth, level, i);
    DivExact(i, Width(depth, level));
  }

  /** The index computed from a range start is the index of the left child in the heap layout. */
  lemma ChildIndex(depth: nat, level: nat, i: nat, start: nat, end: nat)
    requires level < depth && Spans(depth, level, i, start, end)
    ensures Pow2(depth) / Pow2(level + 1) > 0
    ensures start / (Pow2(depth) / Pow2(level + 1)) == 2 * i
  {
    QuotientIsWidth(depth, level + 1);
    PositionOfFirstBucket(depth, level + 1, 2 * i);
  }

  // ----- the search -----

  /** Descend wherever `differs` holds of a child. */
  function Search(depth: nat, differs: (nat, nat) -> bool, level: nat, i: nat): seq<BucketRange>
    requires level <= depth
    decreases depth - level, 0
  {
    if level == depth then [BucketRange(i, i + 1)] else
      SearchChild(depth, differs, level + 1, 2 * i) + SearchChild(depth, differs, level + 1, 2 * i + 1)
  }

  function SearchChild(depth: nat, differs: (nat, nat) -> bool, level: nat, i: nat): seq<BucketRange>
    requires level <= depth
    decreases depth - level, 1
  {
    if differs(level, i) then Search(depth, differs, level, i) else []
  }

  function Differs(v: View, w: View): (nat, nat) -> bool
    requires Shaped(v) && Shaped(w) && v.depth == w.depth
  {
    (level: nat, i: nat) => level <= v.depth && i < Pow2(level) && NodeAt(v, level, i) != NodeAt(w, level, i)
  }

  /** The hashes of both children of a range, found by the index arithmetic of the source. */
  method ChildHashes(v: View, level: nat, start: nat, end: nat, ghost i: nat) returns (left: Digest, right: Digest)
    requires Shaped(v) && level < v.depth && Spans(v.depth, level, i, start, end)
    ensures 2 * i + 1 < Pow2(level + 1)
    ensures left == NodeAt(v, level + 1, 2 * i) && right == NodeAt(v, level + 1, 2 * i + 1)
  {
    MidSplits(v.depth, level, i, start, end);
    if level == v.depth - 1 {
      left, right := v.leaves[start], v.leaves[(start + end) / 2];
    } else {
      ChildIndex(v.depth, level, i, start, end);
      IndexInBounds(v.depth, level + 1, 2 * i + 1);
      var leftIdx := Pow2(level + 1) - 1 + start / (Pow2(v.depth) / Pow2(level + 1));
      left, right := v.nodes[leftIdx], v.nodes[leftIdx + 1];
    }
  }

  /** The recursive search of the source over bucket ranges; `i` names the node whose range is searched. */
  method FindDifferences(v: View, w: View, level: nat, start: nat, end: nat, ghost i: nat)
    returns (diffs: seq<BucketRange>)
    requires Shaped(v) && Shaped(w) && v.depth == w.depth
    requires level <= v.depth && Spans(v.depth, level, i, start, end)
    ensures diffs == Search(v.depth, Differs(v, w), level, i)
    decreases v.depth - level
  {
    if level == v.depth {
      return [BucketRange(start, end)];
    }
    MidSplits(v.depth, level, i, start, end);
    var mid := (start + end) / 2;
    var left, right := ChildHashes(v, level, start, end, i);
    var otherLeft, otherRight := ChildHashes(w, level, start, end, i);
    var low: seq<BucketRange>, high: seq<BucketRange> := [], [];
    ghost var differs := Differs(v, w);
    assert differs(level + 1, 2 * i) == (left != otherLeft) && differs(level + 1, 2 * i + 1) == (right != otherRight);
    if left != otherLeft {
      low := FindDifferences(v, w, level + 1, start, mid, 2 * i);
    }
    if right != otherRight {
      high := FindDifferences(v, w, level + 1, mid, end, 2 * i + 1);
    }
    assert low == SearchChild(v.depth, differs, level + 1, 2 * i);
    assert high == SearchChild(v.depth, differs, level + 1, 2 * i + 1);
    diffs := low + high;
  }

  // ----- what the search returns -----

  /** The ancestor of bucket `b` on a level. */
  function Ancestor(depth: nat, b: nat, level: nat): nat
    decreases depth - level
  {
    if level >= depth then b else Ancestor(depth, b, level + 1) / 2
  }

  lemma {:induction false} AncestorInRange(depth: nat, b: nat, level: nat)
    requires b < Pow2(depth) && level <= depth
    ensures Ancestor(depth, b, level) < Pow2(level)
    decreases depth - level
  {
    if level < depth {
      AncestorInRange(depth, b, level + 1);
    }
  }

  lemma {:induction false} AncestorOfBucket(depth: nat, level: nat, i: nat, b: nat)
    requires level <= depth
    ensures Ancestor(depth, b, level) == i <==> FirstBucket(depth, level, i) <= b < FirstBucket(depth, level, i + 1)
    decreases depth - level
  {
    if level < depth {
      AncestorOfBucket(depth, level + 1, 2 * i, b);
      AncestorOfBucket(depth, level + 1, 2 * i + 1, b);
      NextFirstBucket(depth, level + 1, 2 * i);
      NextFirstBucket(depth, level + 1, 2 * i + 1);
    }
  }

  /** `differs` holds of bucket `b` and of every ancestor of it from `level` down. */
  ghost predicate DiffersFrom(depth: nat, differs: (nat, nat) -> bool, level: nat, b: nat)
    decreases depth + 1 - level
  {
    level > depth || (differs(level, Ancestor(depth, b, level)) && DiffersFrom(depth, differs, level + 1, b))
  }

  /** Ascending single-bucket ranges inside [start, end). */
  ghost predicate SingleBuckets(r: seq<BucketRange>, start: nat, end: nat) {
    && (forall k :: 0 <= k < |r| ==> start <= r[k].start < end && r[k].end == r[k].start + 1)
    && (forall j, k :: 0 <= j < k < |r| ==> r[j].start < r[k].start)
  }

  lemma SinglesConcat(a: seq<BucketRange>, b: seq<BucketRange>, start: nat, mid: nat, end: nat)
    requires start <= mid <= end && SingleBuckets(a, start, mid) && SingleBuckets(b, mid, end)
    ensures SingleBuckets(a + b, start, end)
  {
  }

  lemma {:induction false} SearchGivesSingles(depth: nat, differs: (nat, nat) -> bool, level: nat, i: nat)
    requires level <= depth
    ensures SingleBuckets(Search(depth, differs, level, i), FirstBucket(depth, level, i),
                          FirstBucket(depth, level, i + 1))
    decreases depth - level
  {
    if level < depth {
      SearchGivesSingles(depth, differs, level + 1, 2 * i);
      SearchGivesSingles(depth, differs, level + 1, 2 * i + 1);
      NextFirstBucket(depth, level + 1, 2 * i);
      NextFirstBucket(depth, level + 1, 2 * i + 1);
      SinglesConcat(
        SearchChild(depth, differs, level + 1, 2 * i), SearchChild(depth, differs, level + 1, 2 * i + 1),
        FirstBucket(depth, level, i), FirstBucket(depth, level + 1, 2 * i + 1), FirstBucket(depth, level, i + 1));
    }
  }

  predicate Reports(r: seq<BucketRange>, b: nat) {
    BucketRange(b, b + 1) in r
  }

  lemma Halves(x: nat, i: nat)
    ensures x / 2 == i <==> x == 2 * i || x == 2 * i + 1
  {
  }

  lemma ReportsConcat(r: seq<BucketRange>, q: seq<BucketRange>, b: nat)
    ensures Reports(r + q, b) <==> Reports(r, b) || Reports(q, b)
  {
  }

  /** A bucket is reported exactly when it lies below the node and every node on the way down to it differs. */
  lemma {:induction false} SearchIsExact(depth: nat, differs: (nat, nat) -> bool, level: nat, i: nat, b: nat)
    requires level <= depth
    ensures Reports(Search(depth, differs, level, i), b) <==>
            Ancestor(depth, b, level) == i && DiffersFrom(depth, differs, level + 1, b)
    decreases depth - level, 0
  {
    if level < depth {
      ChildIsExact(depth, differs, level + 1, 2 * i, b);
      ChildIsExact(depth, differs, level + 1, 2 * i + 1, b);
      Halves(Ancestor(depth, b, level + 1), i);
      ReportsConcat(SearchChild(depth, differs, level + 1, 2 * i),
                    SearchChild(depth, differs, level + 1, 2 * i + 1), b);
    }
  }

  lemma {:induction false} ChildIsExact(depth: nat, differs: (nat, nat) -> bool, level: nat, i: nat, b: nat)
    requires level <= depth
    ensures Reports(SearchChild(depth, differs, level, i), b) <==>
            Ancestor(depth, b, level) == i && DiffersFrom(depth, differs, level, b)
    decreases depth - level, 1
  {
    SearchIsExact(depth, differs, level, i, b);
  }

  // ----- comparing two whole trees -----

  /** What Compare returns for trees of equal depth: nothing for equal roots, else the search from the root. */
  function Difference(v: View, w: View): seq<BucketRange>
    requires Shaped(v) && Shaped(w) && v.depth == w.depth
  {
    SearchChild(v.depth, Differs(v, w), 0, 0)
  }

  lemma DifferenceGivesSingles(v: View, w: View)
    requires Shaped(v) && Shaped(w) && v.depth == w.depth
    ensures SingleBuckets(Difference(v, w), 0, Pow2(v.depth))
  {
    SearchGivesSingles(v.depth, Differs(v, w), 0, 0);
    RootSpans(v.depth);
  }

  lemma RootSpans(depth: nat)
    ensures FirstBucket(depth, 0, 0) == 0 && FirstBucket(depth, 0, 1) == Pow2(depth)
  {
    NextFirstBucket(depth, 0, 0);
    FirstBucketIsMultiple(depth, 0, 0);
  }

  /** A bucket is reported exactly when its leaves and all its ancestors, root included, have different hashes. */
  lemma DifferenceIsExact(v: View, w: View, b: nat)
    requires Shaped(v) && Shaped(w) && v.depth == w.depth && b < Pow2(v.depth)
    ensures Reports(Difference(v, w), b) <==> DiffersFrom(v.depth, Differs(v, w), 0, b)
  {
    ChildIsExact(v.depth, Differs(v, w), 0, 0, b);
    AncestorInRange(v.depth, b, 0);
  }

  lemma {:induction false} DiffersAtLeaf(depth: nat, differs: (nat, nat) -> bool, level: nat, b: nat)
    requires level <= depth && DiffersFrom(depth, differs, level, b)
    ensures differs(depth, b)
    decreases depth - level
  {
    if level < depth {
      DiffersAtLeaf(depth, differs, level + 1, b);
    }
  }

  /** No false alarms, whatever the hash function. */
  lemma ReportedBucketsDiffer(v: View, w: View, b: nat)
    requires Shaped(v) && Shaped(w) && v.depth == w.depth && b < Pow2(v.depth)
    requires Reports(Difference(v, w), b)
    ensures v.leaves[b] != w.leaves[b]
  {
    DifferenceIsExact(v, w, b);
    DiffersAtLeaf(v.depth, Differs(v, w), 0, b);
  }

  /** The bytes hashed for a node. */
  function Children(v: View, level: nat, i: nat): seq<bv8>
    requires Shaped(v) && level < v.depth && i < Pow2(level)
  {
    NodeAt(v, level + 1, 2 * i) + NodeAt(v, level + 1, 2 * i + 1)
  }

  /** The hash function tells apart the two inputs at every position of these two trees. */
  ghost predicate NoCollision(sha: Hash, v: View, w: View)
    requires Shaped(v) && Shaped(w) && v.depth == w.depth
  {
    forall level: nat, i: nat ::
      level < v.depth && i < Pow2(level) && Children(v, level, i) != Children(w, level, i) ==>
      sha(Children(v, level, i)) != sha(Children(w, level, i))
  }

  lemma NodeHashesChildren(sha: Hash, v: View, level: nat, i: nat)
    requires Coherent(sha, v) && level < v.depth && i < Pow2(level)
    ensures NodeAt(v, level, i) == sha(Children(v, level, i))
  {
    assert LevelCoherent(sha, v, level) && LevelCoherent(sha, v, level + 1);
    assert NodeAt(v, level, i) == NodeHash(sha, v.depth, v.leaves, level, i);
    assert NodeAt(v, level + 1, 2 * i) == NodeHash(sha, v.depth, v.leaves, level + 1, 2 * i);
    assert NodeAt(v, level + 1, 2 * i + 1) == NodeHash(sha, v.depth, v.leaves, level + 1, 2 * i + 1);
  }

  lemma PairsDiffer(a: Digest, b: Digest, c: Digest, d: Digest)
    requires a != c || b != d
    ensures a + b != c + d
  {
    assert a == (a + b)[..32] && c == (c + d)[..32];
    assert b == (a + b)[32..] && d == (c + d)[32..];
  }

  lemma ParentDiffers(sha: Hash, v: View, w: View, level: nat, i: nat, child: nat)
    requires Coherent(sha, v) && Coherent(sha, w) && v.depth == w.depth && NoCollision(sha, v, w)
    requires level < v.depth && i < Pow2(level) && child / 2 == i && Differs(v, w)(level + 1, child)
    ensures Differs(v, w)(level, i)
  {
    Halves(child, i);
    NodeHashesChildren(sha, v, level, i);
    NodeHashesChildren(sha, w, level, i);
    PairsDiffer(NodeAt(v, level + 1, 2 * i), NodeAt(v, level + 1, 2 * i + 1),
                NodeAt(w, level + 1, 2 * i), NodeAt(w, level + 1, 2 * i + 1));
  }

  lemma {:induction false} DifferenceRises(sha: Hash, v: View, w: View, level: nat, b: nat)
    requires Coherent(sha, v) && Coherent(sha, w) && v.depth == w.depth && NoCollision(sha, v, w)
    requires b < Pow2(v.depth) && v.leaves[b] != w.leaves[b] && level <= v.depth
    ensures Differs(v, w)(level, Ancestor(v.depth, b, level))
    ensures DiffersFrom(v.depth, Differs(v, w), level, b)
    decreases v.depth - level
  {
    if level < v.depth {
      DifferenceRises(sha, v, w, level + 1, b);
      AncestorInRange(v.depth, b, level);
      ParentDiffers(sha, v, w, level, Ancestor(v.depth, b, level), Ancestor(v.depth, b, level + 1));
    }
  }

  /** The diff is exact: without collisions between the two trees, the reported buckets are the differing ones. */
  lemma DiffFindsEveryBucket(sha: Hash, v: View, w: View, b: nat)
    requires Coherent(sha, v) && Coherent(sha, w) && v.depth == w.depth && NoCollision(sha, v, w)
    requires b < Pow2(v.depth)
    ensures Reports(Difference(v, w), b) <==> v.leaves[b] != w.leaves[b]
  {
    DifferenceIsExact(v, w, b);
    if v.leaves[b] != w.leaves[b] {
      DifferenceRises(sha, v, w, 0, b);
    } else if Reports(Difference(v, w), b) {
      ReportedBucketsDiffer(v, w, b);
    }
  }

  /** Without a collision the roots agree exactly when every bucket does. */
  lemma RootsAgreeIff(sha: Hash, v: View, w: View)
    requires Coherent(sha, v) && Coherent(sha, w) && v.depth == w.depth && NoCollision(sha, v, w)
    ensures NodeAt(v, 0, 0) == NodeAt(w, 0, 0) <==> v.leaves == w.leaves
  {
    if v.leaves != w.leaves {
      var b :| 0 <= b < |v.leaves| && v.leaves[b] != w.leaves[b];
      DifferenceRises(sha, v, w, 0, b);
      AncestorInRange(v.depth, b, 0);
    } else {
      assert LevelCoherent(sha, v, 0) && LevelCoherent(sha, w, 0);
    }
  }
}
