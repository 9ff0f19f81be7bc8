/** Where each field of the record format lies, byte by byte. */
module Layout {
  import opened Common
  import opened VClock
  import opened ByteOrder
  import opened ClockText
  import opened ClockCodec
  import opened RecordCodec
  import opened Siblings
  import opened Lists

  /** The eight bytes from position `k` are the two's complement of `x`. */
  predicate HoldsInt64(s: Bytes, k: nat, x: Int64) {
    k + 8 <= |s| && Num64(s, k) == if x < 0 then x + 0x1_0000_0000_0000_0000 else x
  }

  lemma WrittenInt64(a: Bytes, x: Int64, b: Bytes)
    ensures HoldsInt64(a + LE(ToUnsigned(x), 8) + b, |a|, x)
  {
    var s := a + LE(ToUnsigned(x), 8) + b;
    Widths();
    LERoundTrip(ToUnsigned(x), 8);
    assert s[|a|..|a| + 8] == LE(ToUnsigned(x), 8);
    EightBytes(s, |a|);
  }

  lemma Written32(a: Bytes, n: nat, b: Bytes)
    requires n < 0x1_0000_0000
    ensures var s := a + LE(n, 4) + b;
            Num32(s[|a|], s[|a| + 1], s[|a| + 2], s[|a| + 3]) == n
  {
    var s := a + LE(n, 4) + b;
    Widths();
    LERoundTrip(n, 4);
    assert s[|a|..|a| + 4] == LE(n, 4);
    FourBytes(s[|a|..|a| + 4]);
  }

  /** A clock entry: the length of the identifier, the identifier, the counter, the time. */
  lemma EntryLayout(n: NodeID, e: Entry)
    requires |n| < 0x1_0000
    ensures var d := EncodeEntry(n, e);
            && |d| == |n| + 18 && Num16(d[0], d[1]) == |n| && d[2..2 + |n|] == n
            && Num64(d, 2 + |n|) == e.counter && HoldsInt64(d, 10 + |n|, e.timestamp)
  {
    var d := EncodeEntry(n, e);
    var l, c, t := LE(|n|, 2), LE(e.counter, 8), LE(ToUnsigned(e.timestamp), 8);
    assert d == l + n + c + t + [];
    Widths();
    LERoundTrip(|n|, 2);
    assert d[..2] == l;
    TwoBytes(d[..2]);
    LERoundTrip(e.counter, 8);
    assert d[2 + |n|..2 + |n| + 8] == c;
    EightBytes(d, 2 + |n|);
    WrittenInt64(l + n + c, e.timestamp, []);
  }

  function EntryOf(c: Clock): NodeID -> Bytes {
    (n: NodeID) => if n in c then EncodeEntry(n, c[n]) else []
  }

  lemma {:induction false} FlattenCons<K, T>(f: K -> seq<T>, keys: seq<K>)
    requires keys != []
    ensures Flatten(f, keys) == f(keys[0]) + Flatten(f, keys[1..])
  {
    var n := |keys| - 1;
    if n == 0 {
      assert keys[..0] == [] && keys[1..] == [];
      assert [] + f(keys[0]) == f(keys[0]) + [];
    } else {
      FlattenCons(f, keys[..n]);
      var rest := keys[1..];
      assert keys[..n][1..] == rest[..n - 1] && keys[..n][0] == keys[0] && rest[n - 1] == keys[n];
      Assoc(f(keys[0]), Flatten(f, rest[..n - 1]), f(keys[n]));
    }
  }

  lemma {:induction false} EntriesAreFlat(c: Clock, ids: seq<NodeID>)
    requires forall i :: 0 <= i < |ids| ==> ids[i] in c
    requires EncodeEntries(c, ids).Ok?
    ensures EncodeEntries(c, ids).value == Flatten(EntryOf(c), ids)
  {
    if ids != [] {
      EntriesAreFlat(c, ids[1..]);
      FlattenCons(EntryOf(c), ids);
    }
  }

  /** A clock: the number of entries, then the entries by ascending identifier. */
  lemma ClockLayout(c: Clock)
    requires EncodeClock(c).Ok?
    ensures var d := EncodeClock(c).value;
            |d| >= 2 && Num16(d[0], d[1]) == |c| && d[2..] == Flatten(EntryOf(c), SortedIds(c.Keys))
  {
    var d := EncodeClock(c).value;
    SortedIdsInClock(c);
    Widths();
    LERoundTrip(|c|, 2);
    assert d[..2] == LE(|c|, 2);
    TwoBytes(d[..2]);
    EntriesAreFlat(c, SortedIds(c.Keys));
  }

  /** The byte after the clock: the first bit marks a tombstone, the third an expiry; no other is set. */
  predicate HoldsFlags(b: Byte, x: Sibling) {
    b == (if x.tombstone then 1 else 0) + (if x.expiresAt != 0 then 4 else 0)
  }

  /** Where the length of the value stands, seen from the flags. */
  function LengthOffset(x: Sibling): nat {
    if x.expiresAt != 0 then 17 else 9
  }

  lemma TailLayout(x: Sibling)
    requires |x.value| <= 1048576
    ensures var d, k := EncodeTail(x), LengthOffset(x);
            && |d| == k + 4 + |x.value| && HoldsFlags(d[0], x) && HoldsInt64(d, 1, x.timestamp)
            && (x.expiresAt != 0 ==> HoldsInt64(d, 9, x.expiresAt))
            && Num32(d[k], d[k + 1], d[k + 2], d[k + 3]) == |x.value| && d[k + 4..] == x.value
  {
    var f, t, e := [Flags(x)], LE(ToUnsigned(x.timestamp), 8), ExpiryField(x);
    var l, v := LE(|x.value|, 4), x.value;
    Assoc(f + t, e, l + v);
    Assoc(f + t + e, l, v);
    assert EncodeTail(x) == f + t + (e + (l + v));
    WrittenInt64(f, x.timestamp, e + (l + v));
    if x.expiresAt != 0 {
      WrittenInt64(f + t, x.expiresAt, l + v);
    }
    Written32(f + t + e, |v|, v);
  }

  /** A sibling: the length of its clock, the clock, then flags, time, expiry if any, length of the value, value. */
  lemma SiblingLayout(x: Sibling)
    requires EncodeSibling(x).Ok? && |EncodeClock(x.clock).value| < 0x1_0000_0000
    ensures var d, c := EncodeSibling(x).value, EncodeClock(x.clock).value;
            && |d| >= 4 + |c| && Num32(d[0], d[1], d[2], d[3]) == |c| && d[4..4 + |c|] == c
            && d[4 + |c|..] == EncodeTail(x)
  {
    SmallClock(x);
    ThreeParts(EncodeClock(x.clock).value, EncodeTail(x));
  }

  lemma SmallClock(x: Sibling)
    requires EncodeSibling(x).Ok? && |EncodeClock(x.clock).value| < 0x1_0000_0000
    ensures var c := EncodeClock(x.clock).value;
            EncodeSibling(x).value == LE(|c|, 4) + (c + EncodeTail(x))
  {
    assert |EncodeClock(x.clock).value| % TWO32 == |EncodeClock(x.clock).value|;
  }

  lemma ThreeParts(c: Bytes, t: Bytes)
    requires |c| < 0x1_0000_0000
    ensures var d := LE(|c|, 4) + (c + t);
            |d| >= 4 + |c| && Num32(d[0], d[1], d[2], d[3]) == |c| && d[4..4 + |c|] == c && d[4 + |c|..] == t
  {
    var l: Bytes, none: Bytes := LE(|c|, 4), [];
    assert none + l == l;
    Written32(none, |c|, c + t);
    AfterFour(l, c, t);
  }

  lemma AfterFour(l: Bytes, c: Bytes, t: Bytes)
    requires |l| == 4
    ensures var d := l + (c + t);
            |d| == 4 + |c| + |t| && d[4..4 + |c|] == c && d[4 + |c|..] == t
  {
  }

  function SiblingOf(): Sibling -> Bytes {
    (x: Sibling) => if EncodeSibling(x).Ok? then EncodeSibling(x).value else []
  }

  lemma {:induction false} SiblingsAreFlat(s: seq<Sibling>)
    requires EncodeSiblings(s).Ok?
    ensures EncodeSiblings(s).value == Flatten(SiblingOf(), s)
  {
    if s != [] {
      SiblingsAreFlat(s[1..]);
      FlattenCons(SiblingOf(), s);
    }
  }

  /** A record: the number of siblings, the siblings in order, and the checksum of all that. */
  lemma RecordLayout(crc: Checksum, s: seq<Sibling>)
    requires Encode(crc, s).Ok?
    ensures var d := Encode(crc, s).value;
            && |d| >= 6 && Intact(crc, d) && Num16(d[0], d[1]) == |s|
            && d[2..|d| - 4] == Flatten(SiblingOf(), s)
  {
    var d, body := Encode(crc, s).value, EncodeSiblings(s).value;
    var payload := LE(|s|, 2) + body;
    assert d == payload + LE(crc(payload), 4) + [];
    assert d[..|d| - 4] == payload;
    Written32(payload, crc(payload), []);
    Widths();
    LERoundTrip(|s|, 2);
    assert d[..2] == LE(|s|, 2);
    TwoBytes(d[..2]);
    SiblingsAreFlat(s);
  }

  // ----- records that end too early -----

  /** The value after its first `k` bytes, filled up with zeros. */
  function Padded(x: Sibling, k: nat): Sibling
    requires k <= |x.value|
  {
    x.(value := x.value[..k] + Zeros(|x.value| - k))
  }

  /** The flags, the times and the length of the value. */
  function BeforeValue(x: Sibling): Bytes {
    [Flags(x)] + LE(ToUnsigned(x.timestamp), 8) + ExpiryField(x) + LE(|x.value|, 4)
  }

  lemma ShortValue(v: Bytes, k: nat)
    requires 0 < k <= |v| <= 1048576
    ensures DecodeValue(LE(|v|, 4) + v[..k]) == Got(v[..k] + Zeros(|v| - k), [])
  {
    Widths();
    ReadUintOf(|v|, 4, v[..k]);
    if k == |v| {
      assert v[..k] + Zeros(0) == v[..k] && v[..k][..k] == v[..k];
    }
  }

  lemma FourParts(f: Bytes, t: Bytes, e: Bytes, l: Bytes, v: Bytes)
    ensures f + t + e + l + v == f + (t + (e + (l + v)))
  {
    Assoc(f + t + e, l, v);
    Assoc(f + t, e, l + v);
    Assoc(f, t, e + (l + v));
  }

  lemma ShortAfterTime(x: Sibling, k: nat)
    requires 0 < k <= |x.value| <= 1048576
    ensures DecodeAfterTime(x.clock, Flags(x), x.timestamp, ExpiryField(x) + (LE(|x.value|, 4) + x.value[..k]))
         == Got(Padded(x, k), [])
  {
    ShortValue(x.value, k);
    DecodeFlagged(x, LE(|x.value|, 4) + x.value[..k], Padded(x, k).value, []);
  }

  lemma ShortTail(x: Sibling, k: nat)
    requires 0 < k <= |x.value| <= 1048576
    ensures DecodeTail(x.clock, BeforeValue(x) + x.value[..k]) == Got(Padded(x, k), [])
  {
    var f, t, e := [Flags(x)], LE(ToUnsigned(x.timestamp), 8), ExpiryField(x);
    var l, v := LE(|x.value|, 4), x.value[..k];
    var buf := f + (t + (e + (l + v)));
    FourParts(f, t, e, l, v);
    assert buf[1..] == t + (e + (l + v)) && buf[0] == Flags(x);
    Read64Of(ToUnsigned(x.timestamp), e + (l + v));
    ShortAfterTime(x, k);
  }

  /** Everything of a sibling but its value. */
  function Head(x: Sibling): Bytes
    requires EncodeSibling(x).Ok?
  {
    var c := EncodeClock(x.clock).value;
    LE(|c| % TWO32, 4) + (c + BeforeValue(x))
  }

  lemma HeadThenValue(x: Sibling)
    requires EncodeSibling(x).Ok?
    ensures EncodeSibling(x).value == Head(x) + x.value
  {
    var c := EncodeClock(x.clock).value;
    Assoc(LE(|c| % TWO32, 4), c + BeforeValue(x), x.value);
    Assoc(c, BeforeValue(x), x.value);
  }

  lemma ShortBody(x: Sibling, k: nat)
    requires EncodeSibling(x).Ok? && ReadableClock(x.clock) && 0 < k <= |x.value|
    ensures var c := EncodeClock(x.clock).value;
            DecodeBody(|c|, c + (BeforeValue(x) + x.value[..k])) == Got(Padded(x, k), [])
  {
    EncodedClockNotEmpty(x.clock);
    ReadSliceOf(EncodeClock(x.clock).value, BeforeValue(x) + x.value[..k]);
    ClockRoundTrip(x.clock);
    ShortTail(x, k);
  }

  lemma HeadOf(x: Sibling, rest: Bytes)
    requires EncodeSibling(x).Ok? && ReadableClock(x.clock)
    ensures var c := EncodeClock(x.clock).value;
            Head(x) + rest == LE(|c|, 4) + (c + (BeforeValue(x) + rest))
  {
    var c := EncodeClock(x.clock).value;
    assert |c| % TWO32 == |c|;
    Assoc(LE(|c|, 4), c + BeforeValue(x), rest);
    Assoc(c, BeforeValue(x), rest);
  }

  lemma ShortSibling(x: Sibling, k: nat)
    requires EncodeSibling(x).Ok? && ReadableClock(x.clock) && 0 < k <= |x.value|
    ensures DecodeSibling(Head(x) + x.value[..k]) == Got(Padded(x, k), [])
  {
    var c := EncodeClock(x.clock).value;
    HeadOf(x, x.value[..k]);
    Widths();
    ReadUintOf(|c|, 4, c + (BeforeValue(x) + x.value[..k]));
    ShortBody(x, k);
  }

  lemma LastItem<T>(read: Bytes -> Read<T>, buf: Bytes, x: T)
    requires read(buf) == Got(x, [])
    ensures ReadMany(read, 1, buf) == Ok([x])
  {
    assert ReadMany(read, 0, []) == Ok([]);
    assert [x] + [] == [x];
  }

  lemma ReadableFirst(s: seq<Sibling>, more: nat, rest: Bytes)
    requires EncodeSiblings(s).Ok? && ReadableClocks(s)
    ensures DecodeSiblings(|s| + more, EncodeSiblings(s).value + rest) == Following(s, DecodeSiblings(more, rest))
  {
    var good := (y: Sibling) => ReadableClock(y.clock);
    forall i | 0 <= i < |s| ensures Inverse(EncodeSibling, DecodeSibling, good, s[i]) && good(s[i]) {
      SiblingInverse(s[i]);
    }
    ReadWrittenFirst(EncodeSibling, DecodeSibling, good, s, more, rest);
  }

  lemma ShortSiblings(s: seq<Sibling>, x: Sibling, k: nat)
    requires EncodeSiblings(s).Ok? && ReadableClocks(s)
    requires EncodeSibling(x).Ok? && ReadableClock(x.clock) && 0 < k <= |x.value|
    ensures DecodeSiblings(|s| + 1, EncodeSiblings(s).value + (Head(x) + x.value[..k])) == Ok(s + [Padded(x, k)])
  {
    var short := Head(x) + x.value[..k];
    ReadableFirst(s, 1, short);
    ShortSibling(x, k);
    LastItem(DecodeSibling, short, Padded(x, k));
  }

  /** The bytes before the checksum. */
  function Payload(s: seq<Sibling>): Bytes
    requires EncodeSiblings(s).Ok?
  {
    LE(|s|, 2) + EncodeSiblings(s).value
  }

  lemma {:induction false} WriteManySnoc<T>(write: T -> Result<Bytes>, s: seq<T>, x: T)
    requires WriteMany(write, s + [x]).Ok?
    ensures WriteMany(write, s).Ok? && write(x).Ok?
    ensures WriteMany(write, s + [x]).value == WriteMany(write, s).value + write(x).value
  {
    if s == [] {
      assert s + [x] == [x] && [x][1..] == [];
      assert WriteMany(write, [x]) == Prepend(write(x).value, WriteMany(write, []));
    } else {
      assert (s + [x])[0] == s[0] && (s + [x])[1..] == s[1..] + [x];
      WriteManySnoc(write, s[1..], x);
    }
  }

  lemma CutPayload(s: seq<Sibling>, x: Sibling, k: nat)
    requires EncodeSiblings(s + [x]).Ok? && k <= |x.value|
    ensures EncodeSiblings(s).Ok? && EncodeSibling(x).Ok? && |Payload(s + [x])| >= |x.value|
    ensures Payload(s + [x])[..|Payload(s + [x])| - (|x.value| - k)]
         == LE(|s| + 1, 2) + (EncodeSiblings(s).value + (Head(x) + x.value[..k]))
  {
    WriteManySnoc(EncodeSibling, s, x);
    HeadThenValue(x);
    CutEnd(LE(|s| + 1, 2), EncodeSiblings(s).value, Head(x), x.value, k);
  }

  lemma CutEnd(a: Bytes, b: Bytes, c: Bytes, v: Bytes, k: nat)
    requires k <= |v|
    ensures var all := a + (b + (c + v));
            |all| >= |v| && all[..|all| - (|v| - k)] == a + (b + (c + v[..k]))
  {
  }

  /** A record that ends within its last value, with a checksum to match, is not refused: the decoder fills the value
      up with zeros. */
  lemma ShortRecordIsPadded(crc: Checksum, s: seq<Sibling>, x: Sibling, k: nat)
    requires EncodeSiblings(s + [x]).Ok? && ReadableClocks(s + [x]) && |s| < 65535 && 0 < k <= |x.value|
    ensures var p := Payload(s + [x]);
            |p| >= |x.value| && Decode(crc, WithChecksum(crc, p[..|p| - (|x.value| - k)])) == Ok(s + [Padded(x, k)])
  {
    CutPayload(s, x, k);
    var rest := EncodeSiblings(s).value + (Head(x) + x.value[..k]);
    assert (s + [x])[|s|] == x && forall i :: 0 <= i < |s| ==> (s + [x])[i] == s[i];
    Widths();
    ChecksumVerifies(crc, LE(|s| + 1, 2) + rest);
    ReadUintOf(|s| + 1, 2, rest);
    ShortSiblings(s, x, k);
  }
}
