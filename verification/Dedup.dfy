/** First-occurrence deduplication by a key. */
module Dedup {

  function KeysOf<T, K>(key: T -> K, s: seq<T>): set<K> {
    if s == [] then {} else KeysOf(key, s[..|s| - 1]) + {key(s[|s| - 1])}
  }

  /** The first element of each key, in order. */
  function ByKey<T, K(==)>(key: T -> K, s: seq<T>): seq<T> {
    if s == [] then [] else
      var n := |s| - 1;
      if key(s[n]) in KeysOf(key, s[..n]) then ByKey(key, s[..n]) else ByKey(key, s[..n]) + [s[n]]
  }

  lemma {:induction false} KeysOfMembers<T, K>(key: T -> K, s: seq<T>)
    ensures forall x :: x in s ==> key(x) in KeysOf(key, s)
    ensures forall k :: k in KeysOf(key, s) ==> exists i :: 0 <= i < |s| && key(s[i]) == k
  {
    if s != [] {
      var n := |s| - 1;
      KeysOfMembers(key, s[..n]);
      assert s == s[..n] + [s[n]];
    }
  }

  lemma KeysOfSnoc<T, K>(key: T -> K, s: seq<T>, x: T)
    ensures KeysOf(key, s + [x]) == KeysOf(key, s) + {key(x)}
  {
    assert (s + [x])[..|s|] == s;
  }

  lemma {:induction false} ByKeyFrom<T, K>(key: T -> K, s: seq<T>)
    ensures forall x :: x in ByKey(key, s) ==> x in s
  {
    if s != [] {
      var n := |s| - 1;
      ByKeyFrom(key, s[..n]);
      assert s == s[..n] + [s[n]];
    }
  }

  lemma {:induction false} ByKeyKeys<T, K>(key: T -> K, s: seq<T>)
    ensures KeysOf(key, ByKey(key, s)) == KeysOf(key, s)
  {
    if s != [] {
      var n := |s| - 1;
      ByKeyKeys(key, s[..n]);
      KeysOfSnoc(key, ByKey(key, s[..n]), s[n]);
    }
  }

  lemma {:induction false} ByKeyDistinct<T, K>(key: T -> K, s: seq<T>, i: nat, j: nat)
    requires i < j < |ByKey(key, s)|
    ensures key(ByKey(key, s)[i]) != key(ByKey(key, s)[j])
  {
    var n := |s| - 1;
    var d := ByKey(key, s[..n]);
    if j < |d| {
      ByKeyDistinct(key, s[..n], i, j);
    } else {
      ByKeyKeys(key, s[..n]);
      KeysOfMembers(key, d);
      assert d[i] in d;
    }
  }

  /** Some kept element has the key of any given element. */
  lemma ByKeyKeepsKey<T, K>(key: T -> K, s: seq<T>, x: T) returns (y: T)
    requires x in s
    ensures y in ByKey(key, s) && y in s && key(y) == key(x)
  {
    var d := ByKey(key, s);
    ByKeyFrom(key, s);
    ByKeyKeys(key, s);
    KeysOfMembers(key, s);
    KeysOfMembers(key, d);
    var i :| 0 <= i < |d| && key(d[i]) == key(x);
    y := d[i];
  }

  /** An element of the second part is dropped when its key occurs in the first part. */
  lemma {:induction false} FirstWins<T, K>(key: T -> K, a: seq<T>, b: seq<T>, x: T, y: T)
    requires y in a && key(x) == key(y) && x in ByKey(key, a + b)
    ensures x in a
  {
    if b == [] {
      assert a + b == a;
      ByKeyFrom(key, a);
    } else {
      var n := |b| - 1;
      var rest := a + b[..n];
      assert (a + b)[..|a| + n] == rest && (a + b)[|a| + n] == b[n];
      KeysOfMembers(key, rest);
      assert y in rest;
      FirstWins(key, a, b[..n], x, y);
    }
  }

  /** No earlier element has the key of this one. */
  predicate First<T, K(==)>(key: T -> K, s: seq<T>, i: nat) {
    i < |s| && forall j :: 0 <= j < i ==> key(s[j]) != key(s[i])
  }

  lemma FirstOfPrefix<T, K>(key: T -> K, s: seq<T>, n: nat, i: nat)
    requires i < n <= |s|
    ensures First(key, s[..n], i) <==> First(key, s, i)
  {
    if First(key, s[..n], i) {
      forall j | 0 <= j < i ensures key(s[j]) != key(s[i]) {
        assert key(s[..n][j]) != key(s[..n][i]);
      }
    }
  }

  lemma NewKeyIsFirst<T, K>(key: T -> K, s: seq<T>)
    requires s != []
    ensures First(key, s, |s| - 1) <==> key(s[|s| - 1]) !in KeysOf(key, s[..|s| - 1])
  {
    var n := |s| - 1;
    KeysOfMembers(key, s[..n]);
    assert forall i :: 0 <= i < n ==> s[..n][i] == s[i];
    if key(s[n]) !in KeysOf(key, s[..n]) {
      forall j | 0 <= j < n ensures key(s[j]) != key(s[n]) {
        assert s[..n][j] in s[..n];
      }
    }
  }

  ghost predicate HasFirst<T, K>(key: T -> K, s: seq<T>, x: T) {
    exists i: nat :: First(key, s, i) && s[i] == x
  }

  lemma HasFirstSnoc<T, K>(key: T -> K, s: seq<T>, x: T)
    requires s != []
    ensures var n := |s| - 1;
            HasFirst(key, s, x) <==> HasFirst(key, s[..n], x) || (First(key, s, n) && s[n] == x)
  {
    var n := |s| - 1;
    forall i: nat | i < n ensures First(key, s[..n], i) <==> First(key, s, i) {
      FirstOfPrefix(key, s, n, i);
    }
    if HasFirst(key, s[..n], x) {
      var i: nat :| First(key, s[..n], i) && s[..n][i] == x;
      assert First(key, s, i) && s[i] == x;
    }
    if HasFirst(key, s, x) {
      var i: nat :| First(key, s, i) && s[i] == x;
      assert i < n ==> First(key, s[..n], i) && s[..n][i] == x;
    }
  }

  /** The kept elements are exactly those that no earlier element shares its key with. */
  lemma {:induction false} ByKeyMembers<T, K>(key: T -> K, s: seq<T>, x: T)
    ensures x in ByKey(key, s) <==> HasFirst(key, s, x)
  {
    if s != [] {
      ByKeyMembers(key, s[..|s| - 1], x);
      NewKeyIsFirst(key, s);
      HasFirstSnoc(key, s, x);
    }
  }

  lemma {:induction false} ByKeyKeepsHead<T, K>(key: T -> K, s: seq<T>)
    requires s != []
    ensures ByKey(key, s) != [] && ByKey(key, s)[0] == s[0]
  {
    var n := |s| - 1;
    if n > 0 {
      ByKeyKeepsHead(key, s[..n]);
    } else {
      assert s[..0] == [] && KeysOf(key, s[..0]) == {};
    }
  }

  lemma {:induction false} ByKeyOneKey<T, K>(key: T -> K, s: seq<T>)
    requires |s| > 0 && forall x :: x in s ==> key(x) == key(s[0])
    ensures ByKey(key, s) == [s[0]]
  {
    var n := |s| - 1;
    if n > 0 {
      ByKeyOneKey(key, s[..n]);
      KeysOfMembers(key, s[..n]);
      assert s[..n][0] == s[0];
      assert s[..n][0] in s[..n] && s[n] in s;
    } else {
      assert s == [s[0]] && s[..0] == [];
    }
  }

  method Run<T, K(==)>(key: T -> K, s: seq<T>) returns (result: seq<T>)
    ensures result == ByKey(key, s)
  {
    var seen: set<K> := {};
    result := [];
    for i := 0 to |s|
      invariant seen == KeysOf(key, s[..i])
      invariant result == ByKey(key, s[..i])
    {
      assert s[..i + 1][..i] == s[..i];
      var k := key(s[i]);
      if k !in seen {
        seen := seen + {k};
        result := result + [s[i]];
      }
    }
    assert s[..|s|] == s;
  }
}

