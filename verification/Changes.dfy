/** Changes to a keyed collection, and the items they toggle in and out. */
module Changes {
  import opened Common
  import opened Digests

  datatype Item<K, V> = Item(key: K, value: V)

  /** A change of one key: a new value, or removal. */
  datatype Change<K, V> = Change(key: K, after: Option<V>)

  function Changed<K, V>(c: map<K, V>, x: Change<K, V>): map<K, V> {
    if x.after.Some? then c[x.key := x.after.value] else c - {x.key}
  }

  /** Toggle the old value out, then the new one in. */
  function Toggles<K, V>(c: map<K, V>, x: Change<K, V>): seq<Item<K, V>> {
    (if x.key in c then [Item(x.key, c[x.key])] else [])
    + if x.after.Some? then [Item(x.key, x.after.value)] else []
  }

  function ContentsAfter<K, V>(changes: seq<Change<K, V>>): map<K, V> {
    if changes == [] then map[] else Changed(ContentsAfter(changes[..|changes| - 1]), changes[|changes| - 1])
  }

  function TogglesOf<K(==), V>(changes: seq<Change<K, V>>): seq<Item<K, V>> {
    if changes == [] then [] else
      var n := |changes| - 1;
      TogglesOf(changes[..n]) + Toggles(ContentsAfter(changes[..n]), changes[n])
  }

  predicate Holds<K, V(==)>(c: map<K, V>, x: Item<K, V>) {
    x.key in c && c[x.key] == x.value
  }

  function Ones(b: bool): nat {
    if b then 1 else 0
  }

  /** A scan of the contents: every key once, in any order. */
  ghost predicate ScanOf<K(!new), V(!new)>(c: map<K, V>, scan: seq<Item<K, V>>) {
    forall x: Item<K, V> :: multiset(scan)[x] == Ones(Holds(c, x))
  }

  lemma CountConcat<T>(a: seq<T>, b: seq<T>, y: T)
    ensures multiset(a + b)[y] == multiset(a)[y] + multiset(b)[y]
  {
    assert multiset(a + b) == multiset(a) + multiset(b);
  }

  /** A list of at most one element holds `y` an odd number of times exactly when it is that element. */
  lemma OddInOption<T>(p: bool, x: T, y: T)
    ensures Odd(multiset(if p then [x] else [])[y]) <==> p && x == y
  {
    assert Odd(1) && !Odd(0);
  }

  lemma OneChangeParity<K, V>(c: map<K, V>, x: Change<K, V>, y: Item<K, V>)
    ensures Odd(multiset(Toggles(c, x))[y]) <==> Holds(c, y) != Holds(Changed(c, x), y)
  {
    var a: seq<Item<K, V>> := if x.key in c then [Item(x.key, c[x.key])] else [];
    var b: seq<Item<K, V>> := if x.after.Some? then [Item(x.key, x.after.value)] else [];
    CountConcat(a, b, y);
    OddSum(multiset(a)[y], multiset(b)[y]);
    if x.key in c {
      OddInOption(true, Item(x.key, c[x.key]), y);
    } else {
      assert !Odd(multiset(a)[y]);
    }
    if x.after.Some? {
      OddInOption(true, Item(x.key, x.after.value), y);
    } else {
      assert !Odd(multiset(b)[y]);
    }
  }

  /** After any changes, the items toggled an odd number of times are exactly the current contents. */
  lemma {:induction false} OddTogglesAreContents<K, V>(changes: seq<Change<K, V>>, y: Item<K, V>)
    ensures Odd(multiset(TogglesOf(changes))[y]) <==> Holds(ContentsAfter(changes), y)
  {
    if changes != [] {
      var n := |changes| - 1;
      var c := ContentsAfter(changes[..n]);
      var p, q := TogglesOf(changes[..n]), Toggles(c, changes[n]);
      OddTogglesAreContents(changes[..n], y);
      OneChangeParity(c, changes[n], y);
      CountConcat(p, q, y);
      OddSum(multiset(p)[y], multiset(q)[y]);
    }
  }

  lemma ScanHasSameParity<K(!new), V(!new)>(changes: seq<Change<K, V>>, scan: seq<Item<K, V>>)
    requires ScanOf(ContentsAfter(changes), scan)
    ensures SameParity(TogglesOf(changes), scan)
  {
    forall y: Item<K, V> ensures Odd(multiset(TogglesOf(changes))[y]) == Odd(multiset(scan)[y]) {
      OddTogglesAreContents(changes, y);
      assert Odd(1) && !Odd(0);
    }
  }
}
