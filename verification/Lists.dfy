/** Filtering, and its interplay with first-occurrence deduplication. */
module Lists {
  import Dedup
  import opened Common

  function Filter<T>(p: T -> bool, s: seq<T>): seq<T> {
    if s == [] then [] else
      var n := |s| - 1;
      if p(s[n]) then Filter(p, s[..n]) + [s[n]] else Filter(p, s[..n])
  }

  method FilterLoop<T>(p: T -> bool, s: seq<T>) returns (r: seq<T>)
    ensures r == Filter(p, s)
  {
    r := [];
    for i := 0 to |s|
      invariant r == Filter(p, s[..i])
    {
      assert s[..i + 1][..i] == s[..i];
      if p(s[i]) {
        r := r + [s[i]];
      }
    }
    assert s[..|s|] == s;
  }

  lemma {:induction false} FilterMembers<T>(p: T -> bool, s: seq<T>)
    ensures forall x :: x in Filter(p, s) <==> x in s && p(x)
  {
    if s != [] {
      var n := |s| - 1;
      FilterMembers(p, s[..n]);
      assert s == s[..n] + [s[n]];
    }
  }

  lemma {:induction false} FilterShrinks<T>(p: T -> bool, s: seq<T>)
    ensures |Filter(p, s)| <= |s|
  {
    if s != [] {
      FilterShrinks(p, s[..|s| - 1]);
    }
  }

  lemma {:induction false} FilterConcat<T>(p: T -> bool, a: seq<T>, b: seq<T>)
    ensures Filter(p, a + b) == Filter(p, a) + Filter(p, b)
  {
    if b == [] {
      assert a + b == a;
    } else {
      var n := |b| - 1;
      assert (a + b)[..|a| + n] == a + b[..n];
      FilterConcat(p, a, b[..n]);
    }
  }

  lemma {:induction false} FilterMultiset<T>(p: T -> bool, s: seq<T>, x: T)
    ensures multiset(Filter(p, s))[x] == if p(x) then multiset(s)[x] else 0
  {
    if s != [] {
      var n := |s| - 1;
      FilterMultiset(p, s[..n], x);
      assert s == s[..n] + [s[n]];
    }
  }

  function Grow<T>(wanted: (seq<T>, T) -> bool, kept: seq<T>, x: T): seq<T> {
    if wanted(kept, x) then kept + [x] else kept
  }

  /** One pass over the first `k` elements, each kept when it is wanted beside those kept before it. */
  function Collect<T>(wanted: (seq<T>, T) -> bool, s: seq<T>, k: nat): seq<T>
    requires k <= |s|
  {
    if k == 0 then [] else Grow(wanted, Collect(wanted, s, k - 1), s[k - 1])
  }

  /** `inv(k, kept)` is a loop invariant of the pass. */
  ghost predicate Preserved<T(!new)>(wanted: (seq<T>, T) -> bool, s: seq<T>, inv: (nat, seq<T>) -> bool) {
    forall i: nat, kept: seq<T> {:trigger Grow(wanted, kept, s[i])} ::
      i < |s| && inv(i, kept) ==> inv(i + 1, Grow(wanted, kept, s[i]))
  }

  lemma {:induction false} CollectHolds<T(!new)>(wanted: (seq<T>, T) -> bool, s: seq<T>, inv: (nat, seq<T>) -> bool,
                                                 k: nat)
    requires k <= |s| && inv(0, []) && Preserved(wanted, s, inv)
    ensures inv(k, Collect(wanted, s, k))
  {
    if k > 0 {
      CollectHolds(wanted, s, inv, k - 1);
    }
  }

  /** Distinct elements in order of first occurrence. */
  function Distinct<T(==)>(s: seq<T>): seq<T> {
    Dedup.ByKey((x: T) => x, s)
  }

  predicate NoRepeats<T(==)>(s: seq<T>) {
    forall i, j :: 0 <= i < j < |s| ==> s[i] != s[j]
  }

  lemma {:induction false} FilterKeepsDistinct<T>(p: T -> bool, s: seq<T>)
    requires NoRepeats(s)
    ensures NoRepeats(Filter(p, s))
  {
    if s != [] {
      var n := |s| - 1;
      FilterKeepsDistinct(p, s[..n]);
      FilterMembers(p, s[..n]);
      forall i | 0 <= i < |Filter(p, s[..n])| ensures Filter(p, s[..n])[i] != s[n] {
        assert Filter(p, s[..n])[i] in Filter(p, s[..n]);
      }
    }
  }

  lemma ElementsTake<T>(s: seq<T>, k: nat)
    requires k < |s|
    ensures Elements(s[..k + 1]) == Elements(s[..k]) + {s[k]}
    ensures NoRepeats(s) ==> s[k] !in Elements(s[..k])
  {
    assert s[..k + 1] == s[..k] + [s[k]];
  }

  /** The lists of all keys, one after another. */
  function Flatten<K, T>(f: K -> seq<T>, keys: seq<K>): seq<T> {
    if keys == [] then [] else Flatten(f, keys[..|keys| - 1]) + f(keys[|keys| - 1])
  }

  lemma {:induction false} FlattenMembers<K, T>(f: K -> seq<T>, keys: seq<K>, x: T)
    ensures x in Flatten(f, keys) <==> exists k :: k in keys && x in f(k)
  {
    if keys != [] {
      var n := |keys| - 1;
      FlattenMembers(f, keys[..n], x);
      assert keys == keys[..n] + [keys[n]];
    }
  }

  function MapOver<K, V, W>(f: V -> W, m: map<K, V>): map<K, W> {
    map k | k in m :: f(m[k])
  }

  lemma MapOverUpdate<K, V, W>(f: V -> W, m: map<K, V>, k: K, v: V)
    ensures MapOver(f, m[k := v]) == MapOver(f, m)[k := f(v)]
  {
  }

  /** The keys all get one value. */
  function AllTo<K, V>(m: map<K, V>, keys: set<K>, v: V): map<K, V> {
    m + map k | k in keys :: v
  }

  lemma AllToMore<K, V>(m: map<K, V>, keys: set<K>, k: K, v: V)
    ensures AllTo(m, keys + {k}, v) == AllTo(m, keys, v)[k := v]
    ensures AllTo(m, {}, v) == m
  {
  }

  lemma DistinctProperties<T>(s: seq<T>)
    ensures NoRepeats(Distinct(s))
    ensures Elements(Distinct(s)) == Elements(s)
  {
    var id := (x: T) => x;
    Dedup.ByKeyFrom(id, s);
    forall i, j | 0 <= i < j < |Distinct(s)| ensures Distinct(s)[i] != Distinct(s)[j] {
      Dedup.ByKeyDistinct(id, s, i, j);
    }
    forall x | x in s ensures x in Distinct(s) {
      var y := Dedup.ByKeyKeepsKey(id, s, x);
    }
  }

  lemma {:induction false} NoRepeatsSize<T>(s: seq<T>)
    requires NoRepeats(s)
    ensures |s| == |Elements(s)|
  {
    if s != [] {
      var n := |s| - 1;
      NoRepeatsSize(s[..n]);
      assert s == s[..n] + [s[n]];
      assert Elements(s) == Elements(s[..n]) + {s[n]};
      assert s[n] !in s[..n];
    }
  }

  lemma DistinctSnoc<T>(s: seq<T>, x: T)
    ensures Distinct(s + [x]) == if x in s then Distinct(s) else Distinct(s) + [x]
  {
    var id := (y: T) => y;
    assert (s + [x])[..|s|] == s;
    Dedup.KeysOfMembers(id, s);
  }

  lemma {:induction false} DistinctOfPrefix<T>(s: seq<T>, i: nat)
    requires i <= |s|
    ensures Distinct(s[..i]) <= Distinct(s)
  {
    if i < |s| {
      var n := |s| - 1;
      DistinctOfPrefix(s[..n], i);
      assert s[..n][..i] == s[..i];
      assert s == s[..n] + [s[n]];
      DistinctSnoc(s[..n], s[n]);
    } else {
      assert s[..i] == s;
    }
  }

  /** The first occurrence of an earlier distinct element comes before every occurrence of a later one. */
  lemma {:induction false} FirstOfDistinct<T>(s: seq<T>, x: nat, y: nat) returns (a: nat)
    requires x < y < |Distinct(s)|
    ensures a < |s| && s[a] == Distinct(s)[x] && forall b :: 0 <= b < |s| && s[b] == Distinct(s)[y] ==> a < b
  {
    var n := |s| - 1;
    var d := Distinct(s[..n]);
    assert s == s[..n] + [s[n]];
    DistinctSnoc(s[..n], s[n]);
    if y < |d| {
      a := FirstOfDistinct(s[..n], x, y);
      assert forall b :: 0 <= b < n ==> s[..n][b] == s[b];
    } else {
      DistinctProperties(s[..n]);
      assert d[x] in Elements(d);
      a :| 0 <= a < n && s[..n][a] == d[x];
      assert forall b :: 0 <= b < n ==> s[b] in s[..n];
    }
  }

  /** Sequences that agree wherever they agreed before are equal. */
  lemma SameByPrefixes<T>(a: seq<T>, b: seq<T>)
    requires |a| == |b| && forall m: nat :: m < |a| && a[..m] == b[..m] ==> a[m] == b[m]
    ensures a == b
  {
    for m := 0 to |a|
      invariant a[..m] == b[..m]
    {
      assert a[..m + 1] == a[..m] + [a[m]] && b[..m + 1] == b[..m] + [b[m]];
    }
    assert a[..|a|] == a && b[..|b|] == b;
  }

  lemma DistinctKeepsHead<T>(s: seq<T>)
    requires s != []
    ensures Distinct(s) != [] && Distinct(s)[0] == s[0]
  {
    Dedup.ByKeyKeepsHead((x: T) => x, s);
  }

  /** Deleting elements and keeping first occurrences commute. */
  lemma {:induction false} DistinctOfFilter<T>(p: T -> bool, s: seq<T>)
    ensures Distinct(Filter(p, s)) == Filter(p, Distinct(s))
  {
    if s != [] {
      var n := |s| - 1;
      var x := s[n];
      DistinctOfFilter(p, s[..n]);
      assert s == s[..n] + [x];
      DistinctSnoc(s[..n], x);
      FilterMembers(p, s[..n]);
      DistinctSnoc(Filter(p, s[..n]), x);
      FilterConcat(p, Distinct(s[..n]), [x]);
      FilterOne(p, x);
    }
  }

  lemma FilterOne<T>(p: T -> bool, x: T)
    ensures Filter(p, [x]) == if p(x) then [x] else []
  {
    assert [x][..0] == [];
  }

  function Min(a: nat, b: nat): nat {
    if a < b then a else b
  }

  function Prefix<T>(s: seq<T>, n: nat): seq<T> {
    s[..Min(n, |s|)]
  }

  /** Stopping the walk early gives a prefix of the full list. */
  lemma PrefixReached<T>(s: seq<T>, i: nat, want: nat)
    requires i <= |s| && |Distinct(s[..i])| <= want
    requires i == |s| || |Distinct(s[..i])| == want
    ensures Distinct(s[..i]) == Prefix(Distinct(s), want)
  {
    DistinctOfPrefix(s, i);
    if i == |s| {
      assert s[..i] == s;
    }
  }

  lemma ElementsConcat<T>(a: seq<T>, b: seq<T>)
    ensures Elements(a + b) == Elements(a) + Elements(b)
  {
    forall x | x in a ensures x in a + b {
      var i :| 0 <= i < |a| && a[i] == x;
      assert (a + b)[i] == x;
    }
    forall x | x in b ensures x in a + b {
      var i :| 0 <= i < |b| && b[i] == x;
      assert (a + b)[|a| + i] == x;
    }
  }

  lemma RotationElements<T>(s: seq<T>, k: nat)
    requires k <= |s|
    ensures Elements(s[k..] + s[..k]) == Elements(s)
  {
    ElementsConcat(s[k..], s[..k]);
    ElementsConcat(s[..k], s[k..]);
    assert s == s[..k] + s[k..];
  }

  lemma MultisetInit<T>(a: seq<T>, b: seq<T>)
    requires |a| > 0 && |b| > 0 && a[|a| - 1] == b[|b| - 1] && multiset(a) == multiset(b)
    ensures multiset(a[..|a| - 1]) == multiset(b[..|b| - 1])
  {
    InitMultiset(a);
    InitMultiset(b);
  }

  lemma InitMultiset<T>(a: seq<T>)
    requires |a| > 0
    ensures multiset(a[..|a| - 1]) == multiset(a) - multiset{a[|a| - 1]}
  {
    var m := |a| - 1;
    assert a == a[..m] + [a[m]];
    assert multiset(a) == multiset(a[..m]) + multiset{a[m]};
  }

  lemma {:induction false} FilterKeepsAll<T>(p: T -> bool, s: seq<T>)
    requires forall i :: 0 <= i < |s| ==> p(s[i])
    ensures Filter(p, s) == s
  {
    if s != [] {
      var n := |s| - 1;
      FilterKeepsAll(p, s[..n]);
      assert s == s[..n] + [s[n]];
    }
  }

  lemma FilterAround<T>(p: T -> bool, a: seq<T>, x: T, b: seq<T>)
    requires !p(x)
    requires (forall i :: 0 <= i < |a| ==> p(a[i])) && (forall i :: 0 <= i < |b| ==> p(b[i]))
    ensures Filter(p, a + ([x] + b)) == a + b
  {
    FilterConcat(p, a, [x] + b);
    FilterConcat(p, [x], b);
    FilterOne(p, x);
    FilterKeepsAll(p, a);
    FilterKeepsAll(p, b);
    assert [] + b == b;
  }

  /** Deleting the only element that fails a test. */
  lemma FilterSplit<T>(p: T -> bool, s: seq<T>, i: nat)
    requires i < |s| && !p(s[i]) && forall j :: 0 <= j < |s| && j != i ==> p(s[j])
    ensures Filter(p, s) == s[..i] + s[i + 1..]
  {
    SplitAt(s, i);
    FilterAround(p, s[..i], s[i], s[i + 1..]);
  }

  lemma SplitAt<T>(s: seq<T>, i: nat)
    requires i < |s|
    ensures s == s[..i] + ([s[i]] + s[i + 1..])
    ensures forall j {:trigger s[i + 1..][j]} :: 0 <= j < |s| - i - 1 ==> s[i + 1..][j] == s[i + 1 + j]
  {
  }

  /** One step of a walk that collects distinct elements. */
  lemma WalkStep<T>(s: seq<T>, i: nat)
    requires i < |s|
    ensures Distinct(s[..i + 1]) == if s[i] in s[..i] then Distinct(s[..i]) else Distinct(s[..i]) + [s[i]]
    ensures Elements(s[..i + 1]) == Elements(s[..i]) + {s[i]}
  {
    assert s[..i + 1] == s[..i] + [s[i]];
    DistinctSnoc(s[..i], s[i]);
    ElementsConcat(s[..i], [s[i]]);
  }

  lemma PrefixOfInsertion<T>(after: seq<T>, i: nat, n: nat)
    requires i < |after|
    ensures var before := after[..i] + after[i + 1..];
            var m := Min(n, |after|);
            if m <= i then Prefix(after, n) == Prefix(before, n)
            else Prefix(after, n) == before[..i] + [after[i]] + before[i..m - 1]
  {
  }
}
