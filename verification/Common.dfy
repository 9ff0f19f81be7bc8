/** Bytes, fixed-width integers and the byte order on node identifiers. */
module Common {

  type Byte = x: int | 0 <= x < 256
  type Bytes = seq<Byte>

  /** A Go string used as a node identifier: a sequence of bytes. */
  type NodeID = Bytes

  const TWO64: int := 0x1_0000_0000_0000_0000
  const TWO63: int := 0x8000_0000_0000_0000

  type Uint64 = x: int | 0 <= x < TWO64
  type Int64 = x: int | -TWO63 <= x < TWO63

  datatype Option<+T> = None | Some(value: T)

  datatype Result<+T> = Ok(value: T) | Err

  /** Bytes put in front of an encoding that may have failed. */
  function Prepend(b: Bytes, r: Result<Bytes>): Result<Bytes> {
    match r
    case Ok(tail) => Ok(b + tail)
    case Err => Err
  }

  lemma PrependTwice(a: Bytes, b: Bytes, r: Result<Bytes>)
    ensures Prepend(a, Prepend(b, r)) == Prepend(a + b, r)
  {
    if r.Ok? {
      assert a + (b + r.value) == (a + b) + r.value;
    }
  }

  lemma Assoc<T>(a: seq<T>, b: seq<T>, c: seq<T>)
    ensures (a + b) + c == a + (b + c)
  {
  }

  /** Unsigned 64-bit increment, with the wrap-around of Go's `++`. */
  function Inc64(x: Uint64): Uint64 {
    if x == TWO64 - 1 then 0 else x + 1
  }

  /** Signed 64-bit subtraction, with the wrap-around of Go's `-`. */
  function Sub64(a: Int64, b: Int64): Int64 {
    var d := a - b;
    if d >= TWO63 then d - TWO64 else if d < -TWO63 then d + TWO64 else d
  }

  // ----- byte-wise lexicographic order, as Go compares strings -----

  predicate Less(a: Bytes, b: Bytes) {
    |b| > 0 && (|a| == 0 || a[0] < b[0] || (a[0] == b[0] && Less(a[1..], b[1..])))
  }

  lemma {:induction false} LessIsStrict(a: Bytes)
    ensures !Less(a, a)
  {
    if a != [] {
      LessIsStrict(a[1..]);
    }
  }

  lemma {:induction false} LessIsTransitive(a: Bytes, b: Bytes, c: Bytes)
    requires Less(a, b) && Less(b, c)
    ensures Less(a, c)
  {
    if a != [] && a[0] == b[0] && b[0] == c[0] {
      LessIsTransitive(a[1..], b[1..], c[1..]);
    }
  }

  lemma {:induction false} LessIsTotal(a: Bytes, b: Bytes)
    ensures a == b || Less(a, b) || Less(b, a)
  {
    if a != [] && b != [] && a[0] == b[0] {
      LessIsTotal(a[1..], b[1..]);
      assert a == [a[0]] + a[1..] && b == [b[0]] + b[1..];
    }
  }

  predicate IsLeast(x: Bytes, s: set<Bytes>) {
    x in s && forall y :: y in s ==> y == x || Less(x, y)
  }

  lemma {:induction false} LeastExists(s: set<Bytes>)
    requires s != {}
    ensures exists x :: IsLeast(x, s)
  {
    var z :| z in s;
    if s != {z} {
      var rest := s - {z};
      assert s == rest + {z};
      LeastExists(rest);
      var m :| IsLeast(m, rest);
      LessIsTotal(m, z);
      if Less(z, m) {
        forall y | y in s && y != z ensures Less(z, y) {
          if y != m {
            LessIsTransitive(z, m, y);
          }
        }
        assert IsLeast(z, s);
      } else {
        assert IsLeast(m, s);
      }
    } else {
      assert IsLeast(z, s);
    }
  }

  lemma LeastIsUnique(x: Bytes, y: Bytes, s: set<Bytes>)
    requires IsLeast(x, s) && IsLeast(y, s)
    ensures x == y
  {
    if x != y {
      LessIsTransitive(x, y, x);
      LessIsStrict(x);
    }
  }

  lemma LeastIsDetermined(s: set<Bytes>)
    requires s != {}
    ensures exists x :: x in s && IsLeast(x, s)
    ensures forall x, y :: IsLeast(x, s) && IsLeast(y, s) ==> x == y
  {
    LeastExists(s);
    forall x, y | IsLeast(x, s) && IsLeast(y, s) ensures x == y {
      LeastIsUnique(x, y, s);
    }
  }

  function Least(s: set<Bytes>): (x: Bytes)
    requires s != {}
    ensures IsLeast(x, s)
  {
    LeastIsDetermined(s);
    var x :| x in s && IsLeast(x, s);
    x
  }

  ghost predicate Ascending(s: seq<Bytes>) {
    forall i, j :: 0 <= i < j < |s| ==> Less(s[i], s[j])
  }

  ghost function Elements<T>(s: seq<T>): set<T> {
    set x | x in s
  }

  lemma ConsElements<T>(x: T, s: seq<T>)
    ensures Elements([x] + s) == {x} + Elements(s)
  {
    var l := [x] + s;
    forall y | y in {x} + Elements(s) ensures y in l {
      if y != x {
        var i :| 0 <= i < |s| && s[i] == y;
        assert l[i + 1] == y;
      }
    }
  }

  lemma ConsAscending(x: Bytes, s: seq<Bytes>, all: set<Bytes>)
    requires Ascending(s) && IsLeast(x, all) && Elements(s) == all - {x}
    ensures Ascending([x] + s)
  {
    forall j | 0 <= j < |s| ensures Less(x, s[j]) {
      assert s[j] in Elements(s);
    }
  }

  /** The members of a set in ascending byte order. */
  function SortedIds(s: set<NodeID>): seq<NodeID> {
    if s == {} then [] else [Least(s)] + SortedIds(s - {Least(s)})
  }

  lemma {:induction false} SortedIdsAreSorted(s: set<NodeID>)
    ensures Ascending(SortedIds(s))
    ensures Elements(SortedIds(s)) == s
    ensures |SortedIds(s)| == |s|
  {
    if s != {} {
      var x := Least(s);
      SortedIdsAreSorted(s - {x});
      ConsElements(x, SortedIds(s - {x}));
      ConsAscending(x, SortedIds(s - {x}), s);
    }
  }
}
