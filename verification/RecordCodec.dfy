/** The binary form of a sibling set, with its checksum and size limits. */
module RecordCodec {
  import opened Common
  import opened VClock
  import opened ByteOrder
  import opened ClockCodec
  import opened Siblings

  const MAX_VALUE: nat := 1048576
  const MAX_SIBLINGS: nat := 65535
  const MAX_CLOCK_READ: nat := 10000
  const TWO32: nat := 0x1_0000_0000

  type Uint32 = x: int | 0 <= x < TWO32

  /** CRC-32 is left as an arbitrary function of the payload. */
  type Checksum = Bytes -> Uint32

  // ----- specification of the encoder -----

  function Flags(x: Sibling): Byte {
    (if x.tombstone then 1 else 0) + (if x.expiresAt != 0 then 4 else 0)
  }

  function ExpiryField(x: Sibling): Bytes {
    if x.expiresAt != 0 then LE(ToUnsigned(x.expiresAt), 8) else []
  }

  function EncodeTail(x: Sibling): Bytes {
    [Flags(x)] + LE(ToUnsigned(x.timestamp), 8) + ExpiryField(x) + LE(|x.value|, 4) + x.value
  }

  function EncodeSibling(x: Sibling): Result<Bytes> {
    if |x.value| > MAX_VALUE then Err else
      match EncodeClock(x.clock)
      case Err => Err
      case Ok(c) => Ok(LE(|c| % TWO32, 4) + (c + EncodeTail(x)))
  }

  function EncodeSiblings(s: seq<Sibling>): Result<Bytes> {
    WriteMany(EncodeSibling, s)
  }

  function WithChecksum(crc: Checksum, payload: Bytes): Bytes {
    payload + LE(crc(payload), 4)
  }

  function Encode(crc: Checksum, s: seq<Sibling>): Result<Bytes> {
    if |s| == 0 || |s| > MAX_SIBLINGS then Err else
      match Prepend(LE(|s|, 2), EncodeSiblings(s))
      case Err => Err
      case Ok(payload) => Ok(WithChecksum(crc, payload))
  }

  // ----- specification of the decoder -----

  function DecodeValue(buf: Bytes): (r: Read<Bytes>) {
    match ReadUint(buf, 4)
    case Failed => Failed
    case Got(len, rest) =>
      if len > MAX_VALUE then Failed
      else if len == 0 then Got([], rest)
      else ReadSlice(rest, len)
  }

  function DecodeExpiry(flags: Byte, buf: Bytes): (r: Read<Int64>) {
    if flags / 4 % 2 == 0 then Got(0, buf) else
      match Read64(buf)
      case Failed => Failed
      case Got(u, rest) => Got(ToSigned(u), rest)
  }

  function DecodeAfterTime(c: Clock, flags: Byte, ts: Int64, buf: Bytes): Read<Sibling> {
    match DecodeExpiry(flags, buf)
    case Failed => Failed
    case Got(expiresAt, afterExpiry) =>
      match DecodeValue(afterExpiry)
      case Failed => Failed
      case Got(value, rest) => Got(Sibling(value, c, ts, flags % 2 == 1, expiresAt), rest)
  }

  function DecodeTail(c: Clock, buf: Bytes): Read<Sibling> {
    if buf == [] then Failed else
      match Read64(buf[1..])
      case Failed => Failed
      case Got(ts, rest) => DecodeAfterTime(c, buf[0], ToSigned(ts), rest)
  }

  /** A clock of the announced length, then the rest of the sibling. */
  function DecodeBody(len: nat, buf: Bytes): Read<Sibling> {
    if len == 0 || len > MAX_CLOCK_READ then Failed else
      match ReadSlice(buf, len)
      case Failed => Failed
      case Got(clockBytes, afterClock) =>
        match DecodeClock(clockBytes)
        case Err => Failed
        case Ok(c) => DecodeTail(c, afterClock)
  }

  function DecodeSibling(buf: Bytes): Read<Sibling> {
    match ReadUint(buf, 4)
    case Failed => Failed
    case Got(len, rest) => DecodeBody(len, rest)
  }

  function DecodeSiblings(count: nat, buf: Bytes): Result<seq<Sibling>> {
    ReadMany(DecodeSibling, count, buf)
  }

  function DecodePayload(payload: Bytes): Result<seq<Sibling>> {
    match ReadUint(payload, 2)
    case Failed => Err
    case Got(count, buf) => if count == 0 then Err else DecodeSiblings(count, buf)
  }

  function Decode(crc: Checksum, data: Bytes): Result<seq<Sibling>> {
    if |data| < 6 then Err else
      var payload := data[..|data| - 4];
      if UnLE(data[|data| - 4..]) != crc(payload) then Err else DecodePayload(payload)
  }

  // ----- the loops -----

  method EncodeSiblingSet(crc: Checksum, s: seq<Sibling>) returns (r: Result<Bytes>)
    ensures r == Encode(crc, s)
  {
    if |s| == 0 || |s| > MAX_SIBLINGS {
      return Err;
    }
    var buf := LE(|s|, 2);
    assert s[0..] == s;
    for i := 0 to |s|
      invariant Prepend(LE(|s|, 2), EncodeSiblings(s)) == Prepend(buf, EncodeSiblings(s[i..]))
    {
      assert s[i..][0] == s[i] && s[i..][1..] == s[i + 1..];
      var one := WriteSibling(s[i]);
      if one.Err? {
        return Err;
      }
      PrependTwice(buf, one.value, EncodeSiblings(s[i + 1..]));
      buf := buf + one.value;
    }
    assert buf + [] == buf;
    r := Ok(buf + LE(crc(buf), 4));
  }

  method WriteSibling(x: Sibling) returns (r: Result<Bytes>)
    ensures r == EncodeSibling(x)
  {
    if |x.value| > MAX_VALUE {
      return Err;
    }
    var clockBytes := MarshalBinary(x.clock);
    if clockBytes.Err? {
      return Err;
    }
    var tail := WriteTail(x);
    r := Ok(LE(|clockBytes.value| % TWO32, 4) + (clockBytes.value + tail));
  }

  method WriteTail(x: Sibling) returns (buf: Bytes)
    ensures buf == EncodeTail(x)
  {
    var flags := 0;
    if x.tombstone {
      flags := flags + 1;
    }
    if x.expiresAt != 0 {
      flags := flags + 4;
    }
    buf := [flags];
    buf := buf + LE(ToUnsigned(x.timestamp), 8);
    if x.expiresAt != 0 {
      buf := buf + LE(ToUnsigned(x.expiresAt), 8);
    } else {
      assert buf + ExpiryField(x) == buf;
    }
    buf := buf + LE(|x.value|, 4);
    buf := buf + x.value;
  }

  method DecodeSiblingSet(crc: Checksum, data: Bytes) returns (r: Result<seq<Sibling>>)
    ensures r == Decode(crc, data)
  {
    if |data| < 6 {
      return Err;
    }
    var payload := data[..|data| - 4];
    var stored := UnLE(data[|data| - 4..]);
    if stored != crc(payload) {
      return Err;
    }
    var head := ReadUint(payload, 2);
    if head.value == 0 {
      return Err;
    }
    r := ReadManyLoop(DecodeSibling, head.value, head.rest);
  }

  // ----- any bytes -----

  /** The last four bytes, least significant first, are the checksum of everything before them. */
  predicate Intact(crc: Checksum, data: Bytes) {
    var n := |data|;
    n >= 4 && Num32(data[n - 4], data[n - 3], data[n - 2], data[n - 1]) == crc(data[..n - 4])
  }

  lemma DecodedValueIsSmall(buf: Bytes)
    ensures DecodeSibling(buf).Got? ==> |DecodeSibling(buf).value.value| <= 1048576
  {
  }

  /** Bytes whose checksum does not match are refused, whatever they are. What is accepted has a matching checksum,
      at least six bytes, a count that is not zero and is the number of siblings, and no value over 1 MiB. */
  lemma DecodingChecks(crc: Checksum, data: Bytes)
    ensures !Intact(crc, data) ==> Decode(crc, data) == Err
    ensures Decode(crc, data).Ok? ==>
              && Intact(crc, data) && |data| >= 6
              && |Decode(crc, data).value| == Num16(data[0], data[1]) > 0
              && forall i :: 0 <= i < |Decode(crc, data).value| ==> |Decode(crc, data).value[i].value| <= 1048576
  {
    if |data| >= 6 {
      var n := |data|;
      FourBytes(data[n - 4..]);
      if Decode(crc, data).Ok? {
        var payload := data[..n - 4];
        TwoBytes(payload[..2]);
        var count := UnLE(payload[..2]);
        assert Decode(crc, data) == DecodeSiblings(count, payload[2..]);
        ReadManyLength(DecodeSibling, count, payload[2..]);
        forall b ensures DecodeSibling(b).Got? ==> |DecodeSibling(b).value.value| <= 1048576 {
          DecodedValueIsSmall(b);
        }
        ReadManyAll(DecodeSibling, (x: Sibling) => |x.value| <= 1048576, count, payload[2..]);
      }
    }
  }

  // ----- round trip -----

  /** The decoder accepts the clock of a record it is given. */
  predicate ReadableClock(c: Clock) {
    && EncodeClock(c).Ok? && |EncodeClock(c).value| <= MAX_CLOCK_READ && ReadableIds(c)
  }

  lemma DecodeEncodedValue(v: Bytes, rest: Bytes)
    requires |v| <= MAX_VALUE
    ensures DecodeValue((LE(|v|, 4) + v) + rest) == Got(v, rest)
  {
    Widths();
    Assoc(LE(|v|, 4), v, rest);
    ReadUintOf(|v|, 4, v + rest);
    if v != [] {
      ReadSliceOf(v, rest);
    }
  }

  lemma DecodeEncodedExpiry(x: Sibling, rest: Bytes)
    ensures DecodeExpiry(Flags(x), ExpiryField(x) + rest) == Got(x.expiresAt, rest)
  {
    if x.expiresAt != 0 {
      Read64Of(ToUnsigned(x.expiresAt), rest);
    } else {
      assert ExpiryField(x) + rest == rest;
    }
  }

  /** Everything after the flags byte. */
  function AfterFlags(x: Sibling, rest: Bytes): Bytes {
    LE(ToUnsigned(x.timestamp), 8) + (ExpiryField(x) + ((LE(|x.value|, 4) + x.value) + rest))
  }

  lemma TailLayout(x: Sibling, rest: Bytes)
    ensures EncodeTail(x) + rest == [Flags(x)] + AfterFlags(x, rest)
  {
    Regrouped([Flags(x)], LE(ToUnsigned(x.timestamp), 8), ExpiryField(x), LE(|x.value|, 4), x.value, rest);
  }

  lemma Regrouped(f: Bytes, t: Bytes, e: Bytes, l: Bytes, v: Bytes, rest: Bytes)
    ensures (f + t + e + l + v) + rest == f + (t + (e + ((l + v) + rest)))
  {
    Assoc(f + t + e, l, v);
    Assoc(f + t + e, l + v, rest);
    Assoc(f + t, e, (l + v) + rest);
    Assoc(f, t, e + ((l + v) + rest));
  }

  lemma FlagBits(x: Sibling)
    ensures Flags(x) % 2 == 1 <==> x.tombstone
  {
  }

  lemma DecodeFlagged(x: Sibling, buf: Bytes, value: Bytes, rest: Bytes)
    requires DecodeValue(buf) == Got(value, rest)
    ensures DecodeAfterTime(x.clock, Flags(x), x.timestamp, ExpiryField(x) + buf) == Got(x.(value := value), rest)
  {
    DecodeEncodedExpiry(x, buf);
    FlagBits(x);
  }

  lemma DecodeEncodedAfterTime(x: Sibling, rest: Bytes)
    requires |x.value| <= MAX_VALUE
    ensures DecodeAfterTime(x.clock, Flags(x), x.timestamp, ExpiryField(x) + ((LE(|x.value|, 4) + x.value) + rest))
         == Got(x, rest)
  {
    DecodeEncodedValue(x.value, rest);
    DecodeFlagged(x, (LE(|x.value|, 4) + x.value) + rest, x.value, rest);
  }

  lemma DecodeEncodedTail(x: Sibling, rest: Bytes)
    requires |x.value| <= MAX_VALUE
    ensures DecodeTail(x.clock, EncodeTail(x) + rest) == Got(x, rest)
  {
    TailLayout(x, rest);
    var s1 := AfterFlags(x, rest);
    var buf := [Flags(x)] + s1;
    assert buf[1..] == s1 && buf[0] == Flags(x);
    Read64Of(ToUnsigned(x.timestamp), ExpiryField(x) + ((LE(|x.value|, 4) + x.value) + rest));
    DecodeEncodedAfterTime(x, rest);
  }

  lemma EncodedClockNotEmpty(c: Clock)
    requires EncodeClock(c).Ok?
    ensures |EncodeClock(c).value| >= 2
  {
  }

  lemma DecodeEncodedBody(x: Sibling, rest: Bytes)
    requires EncodeSibling(x).Ok?
    ensures var c := EncodeClock(x.clock).value;
            DecodeBody(|c|, c + (EncodeTail(x) + rest)) == if ReadableClock(x.clock) then Got(x, rest) else Failed
  {
    var c := EncodeClock(x.clock).value;
    EncodedClockNotEmpty(x.clock);
    ReadSliceOf(c, EncodeTail(x) + rest);
    ClockRoundTrip(x.clock);
    DecodeEncodedTail(x, rest);
  }

  /** Whatever length a clock of 2^32 bytes and more seems to have, reading it fails. */
  lemma HugeBodyFails(x: Sibling, len: nat, rest: Bytes)
    requires EncodeSibling(x).Ok? && |EncodeClock(x.clock).value| >= TWO32
    ensures DecodeBody(len, EncodeClock(x.clock).value + rest) == Failed
  {
    var c := EncodeClock(x.clock).value;
    if 0 < len <= MAX_CLOCK_READ {
      assert (c + rest)[..len] == c[..len];
      HugeClockPrefixFails(x.clock, len);
    }
  }

  lemma DecodeEncodedSibling(x: Sibling, rest: Bytes)
    requires EncodeSibling(x).Ok?
    ensures DecodeSibling(EncodeSibling(x).value + rest) == if ReadableClock(x.clock) then Got(x, rest) else Failed
  {
    Widths();
    var c, tail := EncodeClock(x.clock).value, EncodeTail(x);
    var len := |c| % TWO32;
    Assoc(LE(len, 4), c + tail, rest);
    Assoc(c, tail, rest);
    ReadUintOf(len, 4, c + (tail + rest));
    if |c| < TWO32 {
      assert len == |c|;
      DecodeEncodedBody(x, rest);
    } else {
      HugeBodyFails(x, len, tail + rest);
    }
  }

  predicate ReadableClocks(s: seq<Sibling>) {
    forall i :: 0 <= i < |s| ==> ReadableClock(s[i].clock)
  }

  lemma DecodeEncodedSiblings(s: seq<Sibling>)
    requires EncodeSiblings(s).Ok?
    ensures DecodeSiblings(|s|, EncodeSiblings(s).value) == if ReadableClocks(s) then Ok(s) else Err
  {
    var good := (x: Sibling) => ReadableClock(x.clock);
    forall i | 0 <= i < |s| ensures Inverse(EncodeSibling, DecodeSibling, good, s[i]) {
      SiblingInverse(s[i]);
    }
    ManyRoundTrip(EncodeSibling, DecodeSibling, good, s);
    assert forall i :: 0 <= i < |s| ==> good(s[i]) == ReadableClock(s[i].clock);
  }

  lemma SiblingInverse(x: Sibling)
    ensures Inverse(EncodeSibling, DecodeSibling, (y: Sibling) => ReadableClock(y.clock), x)
  {
    if EncodeSibling(x).Ok? {
      forall rest: Bytes
        ensures DecodeSibling(EncodeSibling(x).value + rest) ==
                if ReadableClock(x.clock) then Got(x, rest) else Failed
      {
        DecodeEncodedSibling(x, rest);
      }
    }
  }

  lemma ChecksumVerifies(crc: Checksum, payload: Bytes)
    requires |payload| >= 2
    ensures Decode(crc, WithChecksum(crc, payload)) == DecodePayload(payload)
  {
    Widths();
    var data := WithChecksum(crc, payload);
    assert data[..|data| - 4] == payload && data[|data| - 4..] == LE(crc(payload), 4);
    LERoundTrip(crc(payload), 4);
  }

  /** A record reads back as the set that was written exactly when every clock is readable, whatever its size;
      otherwise the storage refuses the record it wrote itself. */
  lemma RecordRoundTrip(crc: Checksum, s: seq<Sibling>)
    requires Encode(crc, s).Ok?
    ensures Decode(crc, Encode(crc, s).value) == if ReadableClocks(s) then Ok(s) else Err
  {
    Widths();
    var body := EncodeSiblings(s).value;
    ChecksumVerifies(crc, LE(|s|, 2) + body);
    ReadUintOf(|s|, 2, body);
    DecodeEncodedSiblings(s);
  }

  lemma {:induction false} SiblingsEncode(s: seq<Sibling>)
    requires forall i :: 0 <= i < |s| ==> |s[i].value| <= MAX_VALUE && EncodeClock(s[i].clock).Ok?
    ensures EncodeSiblings(s).Ok?
  {
    if s != [] {
      SiblingsEncode(s[1..]);
    }
  }
}
