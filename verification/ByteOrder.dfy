/** Little-endian integers and the byte reader of the record format. */
module ByteOrder {
  import opened Common

  function Pow256(k: nat): nat {
    if k == 0 then 1 else 256 * Pow256(k - 1)
  }

  function LE(n: nat, k: nat): (r: Bytes)
    ensures |r| == k
  {
    if k == 0 then [] else [n % 256] + LE(n / 256, k - 1)
  }

  function UnLE(b: Bytes): nat {
    if b == [] then 0 else b[0] + 256 * UnLE(b[1..])
  }

  lemma {:induction false} LERoundTrip(n: nat, k: nat)
    requires n < Pow256(k)
    ensures UnLE(LE(n, k)) == n
  {
    if k > 0 {
      LERoundTrip(n / 256, k - 1);
      assert LE(n, k)[1..] == LE(n / 256, k - 1);
    }
  }

  lemma {:induction false} UnLEBound(b: Bytes)
    ensures UnLE(b) < Pow256(|b|)
  {
    if b != [] {
      UnLEBound(b[1..]);
    }
  }

  lemma Widths()
    ensures Pow256(1) == 0x100 && Pow256(2) == 0x1_0000 && Pow256(4) == 0x1_0000_0000
    ensures Pow256(8) == TWO64
  {
    assert Pow256(3) == 0x100_0000;
    assert Pow256(5) == 0x100_0000_0000;
    assert Pow256(6) == 0x1_0000_0000_0000;
    assert Pow256(7) == 0x100_0000_0000_0000;
  }

  // ----- numbers of two, four and eight bytes, least significant first -----

  function Num16(a: int, b: int): int {
    a + 0x100 * b
  }

  function Num32(a: int, b: int, c: int, d: int): int {
    a + 0x100 * b + 0x1_0000 * c + 0x100_0000 * d
  }

  /** The eight bytes from position `k`. */
  function Num64(s: Bytes, k: nat): int
    requires k + 8 <= |s|
  {
    Num32(s[k], s[k + 1], s[k + 2], s[k + 3]) + 0x1_0000_0000 * Num32(s[k + 4], s[k + 5], s[k + 6], s[k + 7])
  }

  lemma TwoBytes(b: Bytes)
    requires |b| == 2
    ensures UnLE(b) == Num16(b[0], b[1])
  {
    assert b[1..][1..] == [] && UnLE(b[1..]) == b[1];
  }

  lemma {:induction false} UnLEConcat(a: Bytes, b: Bytes)
    ensures UnLE(a + b) == UnLE(a) + Pow256(|a|) * UnLE(b)
  {
    if a == [] {
      assert a + b == b;
    } else {
      UnLEConcat(a[1..], b);
      assert (a + b)[1..] == a[1..] + b && (a + b)[0] == a[0];
      Distribute(UnLE(a[1..]), Pow256(|a| - 1), UnLE(b));
    }
  }

  lemma Distribute(x: int, p: int, y: int)
    ensures 256 * (x + p * y) == 256 * x + (256 * p) * y
  {
  }

  lemma FourBytes(b: Bytes)
    requires |b| == 4
    ensures UnLE(b) == Num32(b[0], b[1], b[2], b[3])
  {
    Quarters(b[..2], b[2..]);
    assert b[..2] + b[2..] == b;
  }

  lemma Quarters(a: Bytes, b: Bytes)
    requires |a| == |b| == 2
    ensures UnLE(a + b) == Num32(a[0], a[1], b[0], b[1])
  {
    Widths();
    TwoBytes(a);
    TwoBytes(b);
    UnLEConcat(a, b);
  }

  lemma EightBytes(s: Bytes, k: nat)
    requires k + 8 <= |s|
    ensures UnLE(s[k..k + 8]) == Num64(s, k)
  {
    var b := s[k..k + 8];
    Halves(b[..4], b[4..]);
    assert b[..4] + b[4..] == b;
  }

  lemma Halves(a: Bytes, b: Bytes)
    requires |a| == |b| == 4
    ensures UnLE(a + b) == Num32(a[0], a[1], a[2], a[3]) + 0x1_0000_0000 * Num32(b[0], b[1], b[2], b[3])
  {
    Widths();
    FourBytes(a);
    FourBytes(b);
    UnLEConcat(a, b);
  }

  /** Two's complement of a signed 64-bit integer, and back. */
  function ToUnsigned(x: Int64): Uint64 {
    if x < 0 then x + TWO64 else x
  }

  function ToSigned(u: Uint64): Int64 {
    if u >= TWO63 then u - TWO64 else u
  }

  // ----- the reader: a value and the bytes still unread -----

  datatype Read<+T> = Got(value: T, rest: Bytes) | Failed

  /** A fixed-width read fails when too few bytes remain. */
  function ReadUint(buf: Bytes, k: nat): (r: Read<nat>)
    ensures r.Got? ==> r.value < Pow256(k)
    ensures r.Got? ==> |r.rest| + k == |buf|
  {
    UnLEBound(if k <= |buf| then buf[..k] else []);
    if k <= |buf| then Got(UnLE(buf[..k]), buf[k..]) else Failed
  }

  function Read64(buf: Bytes): (r: Read<Uint64>)
    ensures r.Got? ==> |r.rest| + 8 == |buf|
  {
    Widths();
    match ReadUint(buf, 8)
    case Got(v, rest) => Got(v, rest)
    case Failed => Failed
  }

  function Zeros(n: nat): Bytes {
    seq(n, _ => 0)
  }

  /** A slice read fails only at the end of input; a short one leaves the tail zero. */
  function ReadSlice(buf: Bytes, n: nat): (r: Read<Bytes>)
    ensures r.Got? ==> |r.value| == n
    ensures r.Got? ==> |r.rest| <= |buf|
  {
    if buf == [] then Failed
    else if n <= |buf| then Got(buf[..n], buf[n..])
    else Got(buf + Zeros(n - |buf|), [])
  }

  lemma ReadUintOf(n: nat, k: nat, rest: Bytes)
    requires n < Pow256(k)
    ensures ReadUint(LE(n, k) + rest, k) == Got(n, rest)
  {
    LERoundTrip(n, k);
    assert (LE(n, k) + rest)[..k] == LE(n, k);
    assert (LE(n, k) + rest)[k..] == rest;
  }

  lemma Read64Of(n: Uint64, rest: Bytes)
    ensures Read64(LE(n, 8) + rest) == Got(n, rest)
  {
    Widths();
    ReadUintOf(n, 8, rest);
  }

  lemma ReadSliceOf(s: Bytes, rest: Bytes)
    requires s != []
    ensures ReadSlice(s + rest, |s|) == Got(s, rest)
  {
    assert (s + rest)[..|s|] == s && (s + rest)[|s|..] == rest;
  }

  // ----- repeated items -----

  function Following<T>(done: seq<T>, r: Result<seq<T>>): Result<seq<T>> {
    match r
    case Err => Err
    case Ok(tail) => Ok(done + tail)
  }

  lemma FollowingTwice<T>(a: seq<T>, b: seq<T>, r: Result<seq<T>>)
    ensures Following(a, Following(b, r)) == Following(a + b, r)
    ensures Following([], r) == r
  {
    if r.Ok? {
      assert a + (b + r.value) == (a + b) + r.value;
      assert [] + r.value == r.value;
    }
  }

  /** `count` items in a row; the first failure fails the whole. */
  function ReadMany<T>(one: Bytes -> Read<T>, count: nat, buf: Bytes): Result<seq<T>> {
    if count == 0 then Ok([]) else
      match one(buf)
      case Failed => Err
      case Got(x, rest) => Following([x], ReadMany(one, count - 1, rest))
  }

  lemma {:induction false} ReadManyLength<T>(one: Bytes -> Read<T>, count: nat, buf: Bytes)
    ensures ReadMany(one, count, buf).Ok? ==> |ReadMany(one, count, buf).value| == count
  {
    if count > 0 && one(buf).Got? {
      ReadManyLength(one, count - 1, one(buf).rest);
    }
  }

  lemma {:induction false} ReadManyAll<T(!new)>(one: Bytes -> Read<T>, good: T -> bool, count: nat, buf: Bytes)
    requires forall b :: one(b).Got? ==> good(one(b).value)
    requires ReadMany(one, count, buf).Ok?
    ensures forall i :: 0 <= i < |ReadMany(one, count, buf).value| ==> good(ReadMany(one, count, buf).value[i])
  {
    if count > 0 {
      ReadManyAll(one, good, count - 1, one(buf).rest);
    }
  }

  method ReadManyLoop<T>(one: Bytes -> Read<T>, count: nat, start: Bytes) returns (r: Result<seq<T>>)
    ensures r == ReadMany(one, count, start)
  {
    var buf := start;
    var items: seq<T> := [];
    FollowingTwice([], [], ReadMany(one, count, start));
    for i := 0 to count
      invariant ReadMany(one, count, start) == Following(items, ReadMany(one, count - i, buf))
    {
      var x := one(buf);
      if x.Failed? {
        return Err;
      }
      FollowingTwice(items, [x.value], ReadMany(one, count - i - 1, x.rest));
      items := items + [x.value];
      buf := x.rest;
    }
    assert items + [] == items;
    r := Ok(items);
  }

  function WriteMany<T>(one: T -> Result<Bytes>, s: seq<T>): Result<Bytes> {
    if s == [] then Ok([]) else
      match one(s[0])
      case Err => Err
      case Ok(b) => Prepend(b, WriteMany(one, s[1..]))
  }

  /** Reading undoes writing for one item when the item is good, and fails otherwise. */
  ghost predicate Inverse<T(!new)>(write: T -> Result<Bytes>, read: Bytes -> Read<T>, good: T -> bool, x: T) {
    write(x).Ok? ==>
      forall rest: Bytes :: read(write(x).value + rest) == if good(x) then Got(x, rest) else Failed
  }

  ghost function AllOrNothing<T>(good: T -> bool, s: seq<T>): Result<seq<T>> {
    if forall i :: 0 <= i < |s| ==> good(s[i]) then Ok(s) else Err
  }

  lemma AllOrNothingCons<T>(good: T -> bool, s: seq<T>)
    requires s != []
    ensures AllOrNothing(good, s) == if good(s[0]) then Following([s[0]], AllOrNothing(good, s[1..])) else Err
  {
    assert forall i :: 0 <= i < |s[1..]| ==> s[1..][i] == s[i + 1];
    assert s == [s[0]] + s[1..];
    if good(s[0]) && AllOrNothing(good, s[1..]).Ok? {
      forall i | 0 <= i < |s| ensures good(s[i]) {
        assert i > 0 ==> good(s[1..][i - 1]);
      }
    }
  }

  /** Hence reading undoes writing a whole sequence exactly when every item is good. */
  lemma {:induction false} ManyRoundTrip<T(!new)>(write: T -> Result<Bytes>, read: Bytes -> Read<T>,
                                                  good: T -> bool, s: seq<T>)
    requires forall i :: 0 <= i < |s| ==> Inverse(write, read, good, s[i])
    requires WriteMany(write, s).Ok?
    ensures ReadMany(read, |s|, WriteMany(write, s).value) == AllOrNothing(good, s)
  {
    if s != [] {
      ManyRoundTrip(write, read, good, s[1..]);
      AllOrNothingCons(good, s);
      assert Inverse(write, read, good, s[0]);
    }
  }

  /** Items that were written are read back before whatever follows them. */
  lemma {:induction false} ReadWrittenFirst<T(!new)>(write: T -> Result<Bytes>, read: Bytes -> Read<T>,
                                                     good: T -> bool, s: seq<T>, more: nat, rest: Bytes)
    requires forall i :: 0 <= i < |s| ==> Inverse(write, read, good, s[i]) && good(s[i])
    requires WriteMany(write, s).Ok?
    ensures ReadMany(read, |s| + more, WriteMany(write, s).value + rest) == Following(s, ReadMany(read, more, rest))
  {
    if s == [] {
      assert WriteMany(write, s).value + rest == rest;
      FollowingTwice([], [], ReadMany(read, more, rest));
    } else {
      ReadWrittenFirst(write, read, good, s[1..], more, rest);
      assert Inverse(write, read, good, s[0]);
      var tail := WriteMany(write, s[1..]).value;
      assert WriteMany(write, s).value + rest == write(s[0]).value + (tail + rest);
      FollowingTwice([s[0]], s[1..], ReadMany(read, more, rest));
      assert [s[0]] + s[1..] == s;
    }
  }
}
