/** The binary form of a vector clock. */
module ClockCodec {
  import opened Common
  import opened VClock
  import opened ByteOrder
  import opened ClockText

  const MAX_ENTRIES: nat := 65535
  const MAX_ID_WRITE: nat := 65535
  const MAX_ID_READ: nat := 1024

  // ----- specification -----

  function EncodeEntry(n: NodeID, e: Entry): Bytes {
    LE(|n|, 2) + (n + (LE(e.counter, 8) + LE(ToUnsigned(e.timestamp), 8)))
  }

  function EncodeEntries(c: Clock, ids: seq<NodeID>): Result<Bytes>
    requires forall i :: 0 <= i < |ids| ==> ids[i] in c
  {
    if ids == [] then Ok([])
    else if |ids[0]| > MAX_ID_WRITE then Err
    else Prepend(EncodeEntry(ids[0], c[ids[0]]), EncodeEntries(c, ids[1..]))
  }

  /** Entry count, then the entries in ascending order of node identifier. */
  function EncodeClock(c: Clock): Result<Bytes> {
    SortedIdsInClock(c);
    if |c| > MAX_ENTRIES then Err
    else Prepend(LE(|c|, 2), EncodeEntries(c, SortedIds(c.Keys)))
  }

  datatype NamedEntry = NamedEntry(id: NodeID, entry: Entry)

  function DecodeEntry(buf: Bytes): (r: Read<NamedEntry>)
    ensures r.Got? ==> |r.rest| < |buf|
  {
    match ReadUint(buf, 2)
    case Failed => Failed
    case Got(len, afterLen) =>
      if len == 0 || len > MAX_ID_READ then Failed else
        match ReadSlice(afterLen, len)
        case Failed => Failed
        case Got(id, afterId) =>
          match Read64(afterId)
          case Failed => Failed
          case Got(counter, afterCounter) =>
            match Read64(afterCounter)
            case Failed => Failed
            case Got(ts, rest) => Got(NamedEntry(id, Entry(counter, ToSigned(ts))), rest)
  }

  /** `count` entries in a row, added to a clock; the first failure fails the whole. */
  function AddEntries(one: Bytes -> Read<NamedEntry>, count: nat, buf: Bytes, acc: Clock): Result<Clock> {
    if count == 0 then Ok(acc)
    else match one(buf)
      case Failed => Err
      case Got(e, rest) => AddEntries(one, count - 1, rest, acc[e.id := e.entry])
  }

  function DecodeEntries(count: nat, buf: Bytes, acc: Clock): Result<Clock> {
    AddEntries(DecodeEntry, count, buf, acc)
  }

  function DecodeClock(data: Bytes): Result<Clock> {
    match ReadUint(data, 2)
    case Failed => Err
    case Got(count, rest) => DecodeEntries(count, rest, map[])
  }

  // ----- the loops -----

  lemma SortedStep(s: set<NodeID>, n: NodeID)
    requires n in s && IsLeast(n, s)
    ensures SortedIds(s) == [n] + SortedIds(s - {n})
  {
    LeastIsUnique(n, Least(s), s);
  }

  /** Sort the identifiers, as the source does for a deterministic encoding. */
  method SortedKeys(c: Clock) returns (ids: seq<NodeID>)
    ensures ids == SortedIds(c.Keys)
  {
    ids := [];
    var todo := c.Keys;
    while todo != {}
      invariant ids + SortedIds(todo) == SortedIds(c.Keys)
      decreases todo
    {
      LeastIsDetermined(todo);
      var n :| n in todo && IsLeast(n, todo);
      SortedStep(todo, n);
      assert ids + ([n] + SortedIds(todo - {n})) == (ids + [n]) + SortedIds(todo - {n});
      ids := ids + [n];
      todo := todo - {n};
    }
  }

  method MarshalBinary(c: Clock) returns (r: Result<Bytes>)
    ensures r == EncodeClock(c)
  {
    if |c| > MAX_ENTRIES {
      return Err;
    }
    var buf := LE(|c|, 2);
    var ids := SortedKeys(c);
    SortedIdsInClock(c);
    assert ids[0..] == ids;
    for i := 0 to |ids|
      invariant EncodeClock(c) == Prepend(buf, EncodeEntries(c, ids[i..]))
    {
      assert ids[i..][0] == ids[i] && ids[i..][1..] == ids[i + 1..];
      if |ids[i]| > MAX_ID_WRITE {
        return Err;
      }
      PrependTwice(buf, EncodeEntry(ids[i], c[ids[i]]), EncodeEntries(c, ids[i + 1..]));
      buf := WriteEntry(buf, ids[i], c[ids[i]]);
    }
    assert buf + [] == buf;
    r := Ok(buf);
  }

  method WriteEntry(before: Bytes, n: NodeID, e: Entry) returns (buf: Bytes)
    ensures buf == before + EncodeEntry(n, e)
  {
    buf := before + LE(|n|, 2);
    buf := buf + n;
    buf := buf + LE(e.counter, 8);
    buf := buf + LE(ToUnsigned(e.timestamp), 8);
  }

  method UnmarshalBinary(data: Bytes) returns (r: Result<Clock>)
    ensures r == DecodeClock(data)
  {
    if |data| < 2 {
      return Err;
    }
    var head := ReadUint(data, 2);
    r := AddEntriesLoop(DecodeEntry, head.value, head.rest);
  }

  method AddEntriesLoop(one: Bytes -> Read<NamedEntry>, count: nat, start: Bytes) returns (r: Result<Clock>)
    ensures r == AddEntries(one, count, start, map[])
  {
    var buf := start;
    var entries: Clock := map[];
    for i := 0 to count
      invariant AddEntries(one, count - i, buf, entries) == AddEntries(one, count, start, map[])
    {
      var e := one(buf);
      if e.Failed? {
        return Err;
      }
      entries := entries[e.value.id := e.value.entry];
      buf := e.rest;
    }
    r := Ok(entries);
  }

  // ----- round trip -----

  predicate ReadableId(n: NodeID) {
    1 <= |n| <= MAX_ID_READ
  }

  lemma DecodeOneEntry(n: NodeID, e: Entry, rest: Bytes)
    requires |n| <= MAX_ID_WRITE
    ensures ReadableId(n) ==> DecodeEntry(EncodeEntry(n, e) + rest) == Got(NamedEntry(n, e), rest)
    ensures !ReadableId(n) ==> DecodeEntry(EncodeEntry(n, e) + rest) == Failed
  {
    Widths();
    var s3 := LE(ToUnsigned(e.timestamp), 8) + rest;
    var s2 := LE(e.counter, 8) + s3;
    var s1 := n + s2;
    assert EncodeEntry(n, e) + rest == LE(|n|, 2) + s1;
    ReadUintOf(|n|, 2, s1);
    if ReadableId(n) {
      ReadSliceOf(n, s2);
      Read64Of(e.counter, s3);
      Read64Of(ToUnsigned(e.timestamp), rest);
    }
  }

  ghost predicate AllReadable(ids: seq<NodeID>) {
    forall i :: 0 <= i < |ids| ==> ReadableId(ids[i])
  }

  ghost function Added(acc: Clock, c: Clock, ids: seq<NodeID>): Clock
    requires forall i :: 0 <= i < |ids| ==> ids[i] in c
    decreases |ids|
  {
    if ids == [] then acc else Added(acc[ids[0] := c[ids[0]]], c, ids[1..])
  }

  lemma AllReadableCons(ids: seq<NodeID>)
    requires ids != []
    ensures AllReadable(ids) <==> ReadableId(ids[0]) && AllReadable(ids[1..])
  {
    assert ids == [ids[0]] + ids[1..];
  }

  lemma DecodeFirst(count: nat, n: NodeID, e: Entry, rest: Bytes, acc: Clock)
    requires count > 0 && |n| <= MAX_ID_WRITE
    ensures DecodeEntries(count, EncodeEntry(n, e) + rest, acc)
         == if ReadableId(n) then DecodeEntries(count - 1, rest, acc[n := e]) else Err
  {
    DecodeOneEntry(n, e, rest);
  }

  lemma {:induction false} DecodeEncodedEntries(c: Clock, ids: seq<NodeID>, acc: Clock, rest: Bytes)
    requires forall i :: 0 <= i < |ids| ==> ids[i] in c
    requires EncodeEntries(c, ids).Ok?
    ensures DecodeEntries(|ids|, EncodeEntries(c, ids).value + rest, acc)
         == if AllReadable(ids) then Ok(Added(acc, c, ids)) else Err
    decreases |ids|
  {
    if ids != [] {
      var tail := EncodeEntries(c, ids[1..]).value;
      var e := c[ids[0]];
      assert EncodeEntries(c, ids).value + rest == EncodeEntry(ids[0], e) + (tail + rest);
      DecodeFirst(|ids|, ids[0], e, tail + rest, acc);
      DecodeEncodedEntries(c, ids[1..], acc[ids[0] := e], rest);
      AllReadableCons(ids);
    }
  }

  lemma {:induction false} AddedIsWhole(acc: Clock, c: Clock, ids: seq<NodeID>)
    requires forall i :: 0 <= i < |ids| ==> ids[i] in c
    ensures Added(acc, c, ids).Keys == acc.Keys + Elements(ids)
    ensures forall n :: n in Added(acc, c, ids) ==>
              Added(acc, c, ids)[n] == if n in ids then c[n] else acc[n]
    decreases |ids|
  {
    if ids != [] {
      AddedIsWhole(acc[ids[0] := c[ids[0]]], c, ids[1..]);
      assert ids == [ids[0]] + ids[1..];
      ConsElements(ids[0], ids[1..]);
    }
  }

  predicate ReadableIds(c: Clock) {
    forall n :: n in c ==> ReadableId(n)
  }

  /** A clock reads back unchanged exactly when every identifier has 1 to 1024 bytes; otherwise reading fails. */
  lemma ClockRoundTrip(c: Clock)
    requires EncodeClock(c).Ok?
    ensures DecodeClock(EncodeClock(c).value) == if ReadableIds(c) then Ok(c) else Err
  {
    SortedIdsInClock(c);
    Widths();
    var ids := SortedIds(c.Keys);
    var body := EncodeEntries(c, ids).value;
    ReadUintOf(|c|, 2, body);
    assert body + [] == body;
    DecodeEncodedEntries(c, ids, map[], []);
    AddedIsWhole(map[], c, ids);
    assert forall n :: n in c <==> n in Elements(ids);
    assert Added(map[], c, ids) == c;
    if ReadableIds(c) {
      assert AllReadable(ids);
    }
    if AllReadable(ids) {
      forall n | n in c ensures ReadableId(n) {
        assert n in ids;
      }
    }
  }

  // ----- size -----

  lemma {:induction false} EntriesSize(c: Clock, ids: seq<NodeID>)
    requires forall i :: 0 <= i < |ids| ==> ids[i] in c && |ids[i]| <= 64
    requires EncodeEntries(c, ids).Ok?
    ensures |EncodeEntries(c, ids).value| <= 82 * |ids|
  {
    if ids != [] {
      EntriesSize(c, ids[1..]);
      assert |EncodeEntry(ids[0], c[ids[0]])| == 18 + |ids[0]|;
    }
  }

  lemma {:induction false} EntriesEncode(c: Clock, ids: seq<NodeID>)
    requires forall i :: 0 <= i < |ids| ==> ids[i] in c && |ids[i]| <= MAX_ID_WRITE
    ensures EncodeEntries(c, ids).Ok?
  {
    if ids != [] {
      EntriesEncode(c, ids[1..]);
    }
  }

  /** With identifiers of at most 64 bytes a clock takes at most 2 + 82 bytes per entry. */
  lemma ClockSize(c: Clock)
    requires |c| <= MAX_ENTRIES && forall n :: n in c ==> |n| <= 64
    ensures EncodeClock(c).Ok? && |EncodeClock(c).value| <= 2 + 82 * |c|
  {
    SortedIdsInClock(c);
    var ids := SortedIds(c.Keys);
    EntriesEncode(c, ids);
    EntriesSize(c, ids);
  }

  lemma {:induction false} EntriesLargest(c: Clock, ids: seq<NodeID>)
    requires forall i :: 0 <= i < |ids| ==> ids[i] in c
    requires EncodeEntries(c, ids).Ok?
    ensures |EncodeEntries(c, ids).value| <= 65553 * |ids|
  {
    if ids != [] {
      EntriesLargest(c, ids[1..]);
      assert |EncodeEntry(ids[0], c[ids[0]])| == 18 + |ids[0]|;
    }
  }

  lemma OneEntryNeeds(buf: Bytes)
    ensures DecodeEntry(buf).Got? ==> |DecodeEntry(buf).rest| + 19 <= |buf|
  {
  }

  /** Every decoded entry takes at least 19 bytes. */
  lemma {:induction false} EntriesNeed(count: nat, buf: Bytes, acc: Clock)
    requires DecodeEntries(count, buf, acc).Ok?
    ensures 19 * count <= |buf|
    decreases count
  {
    if count > 0 {
      OneEntryNeeds(buf);
      var e := DecodeEntry(buf);
      EntriesNeed(count - 1, e.rest, acc[e.value.id := e.value.entry]);
    }
  }

  /** A clock of a gigabyte and more has so many entries that no short prefix of it decodes. */
  lemma HugeClockPrefixFails(c: Clock, len: nat)
    requires EncodeClock(c).Ok? && len <= 10000 && |EncodeClock(c).value| >= 0x4000_0000
    ensures DecodeClock(EncodeClock(c).value[..len]).Err?
  {
    SortedIdsInClock(c);
    Widths();
    var ids := SortedIds(c.Keys);
    EntriesLargest(c, ids);
    assert |c| > 1000;
    if len >= 2 {
      var data := EncodeClock(c).value[..len];
      LERoundTrip(|c|, 2);
      assert data[..2] == LE(|c|, 2);
      if DecodeClock(data).Ok? {
        EntriesNeed(|c|, data[2..], map[]);
      }
    }
  }
}
