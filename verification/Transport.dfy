/** What a sibling looks like after it crossed the wire between two nodes. */
module Transport {
  import opened Common
  import opened VClock
  import opened ClockText
  import opened ClockCodec
  import opened RecordCodec
  import opened Siblings

  /** Only the counters travel; the receiver stamps every entry with its own time. */
  function Restamped(c: Clock, now: Int64): Clock {
    map n | n in c :: Entry(c[n].counter, now)
  }

  /** The wire form also has no expiry field. */
  function Sent(x: Sibling, now: Int64): Sibling {
    Sibling(x.value, Restamped(x.clock, now), x.timestamp, x.tombstone, 0)
  }

  function SentAll(s: seq<Sibling>, now: Int64): (r: seq<Sibling>) {
    seq(|s|, i requires 0 <= i < |s| => Sent(s[i], now))
  }

  /** What crosses the wire: value, write time, tombstone mark and counters. Entry times are those of arrival, and an
      expiry is gone. */
  lemma WhatIsSent(s: seq<Sibling>, now: Int64)
    ensures |SentAll(s, now)| == |s|
    ensures forall i :: 0 <= i < |s| ==>
              var y := SentAll(s, now)[i];
              && y.value == s[i].value && y.timestamp == s[i].timestamp && y.tombstone == s[i].tombstone
              && y.expiresAt == 0 && y.clock.Keys == s[i].clock.Keys
              && forall n :: n in y.clock ==> y.clock[n].counter == s[i].clock[n].counter && y.clock[n].timestamp == now
  {
  }

  /** One counter of a clock on the wire. */
  datatype ContextEntry = ContextEntry(nodeID: NodeID, counter: Uint64)

  /** The wire form lists every counter of the clock once. */
  ghost predicate Transcribes(c: Clock, dto: seq<ContextEntry>) {
    && (forall i :: 0 <= i < |dto| ==> dto[i].nodeID in c && c[dto[i].nodeID].counter == dto[i].counter)
    && (forall n :: n in c ==> exists i :: 0 <= i < |dto| && dto[i].nodeID == n)
  }

  method VClockToDTO(c: Clock) returns (dto: seq<ContextEntry>)
    ensures Transcribes(c, dto)
  {
    dto := [];
    var todo := c.Keys;
    while todo != {}
      invariant todo <= c.Keys
      invariant forall i :: 0 <= i < |dto| ==> dto[i].nodeID in c && c[dto[i].nodeID].counter == dto[i].counter
      invariant forall n :: n in c && n !in todo ==> exists i :: 0 <= i < |dto| && dto[i].nodeID == n
      decreases todo
    {
      var n :| n in todo;
      ghost var was := dto;
      dto := dto + [ContextEntry(n, c[n].counter)];
      todo := todo - {n};
      assert dto[|was|].nodeID == n;
      forall m | m in c && m !in todo ensures exists i :: 0 <= i < |dto| && dto[i].nodeID == m {
        if m != n {
          var i :| 0 <= i < |was| && was[i].nodeID == m;
          assert dto[i].nodeID == m;
        }
      }
    }
  }

  /** Setting each listed counter in a new clock restamps the clock that was transcribed. */
  method DTOToVClock(dto: seq<ContextEntry>, now: Int64, ghost c: Clock) returns (vc: VectorClock)
    requires Transcribes(c, dto)
    ensures fresh(vc) && vc.entries == Restamped(c, now)
    ensures vc.entries.Keys == c.Keys
    ensures forall n :: n in c ==> vc.entries[n].counter == c[n].counter && vc.entries[n].timestamp == now
  {
    vc := new VectorClock();
    for i := 0 to |dto|
      invariant vc.entries.Keys == set j | 0 <= j < i :: dto[j].nodeID
      invariant forall n :: n in vc.entries ==> n in c && vc.entries[n] == Entry(c[n].counter, now)
    {
      vc.Set(dto[i].nodeID, dto[i].counter, now);
      assert Counter(vc.entries, dto[i].nodeID) == dto[i].counter;
    }
  }

  lemma RestampedCounters(c: Clock, now: Int64)
    ensures Counters(Restamped(c, now)) == Counters(c)
    ensures Leq(c, Restamped(c, now)) && Leq(Restamped(c, now), c)
    ensures PlainClock(c) ==> PlainClock(Restamped(c, now))
  {
    assert Counters(Restamped(c, now)).Keys == Counters(c).Keys;
  }

  lemma {:induction false} EntriesSameSize(c: Clock, d: Clock, ids: seq<NodeID>)
    requires forall i :: 0 <= i < |ids| ==> ids[i] in c && ids[i] in d
    ensures EncodeEntries(c, ids).Ok? == EncodeEntries(d, ids).Ok?
    ensures EncodeEntries(c, ids).Ok? ==> |EncodeEntries(c, ids).value| == |EncodeEntries(d, ids).value|
  {
    if ids != [] {
      EntriesSameSize(c, d, ids[1..]);
      assert |EncodeEntry(ids[0], c[ids[0]])| == |EncodeEntry(ids[0], d[ids[0]])|;
    }
  }

  /** Readability depends on the identifiers alone. */
  lemma RestampedIsReadable(c: Clock, now: Int64)
    ensures EncodeClock(Restamped(c, now)).Ok? == EncodeClock(c).Ok?
    ensures ReadableClock(Restamped(c, now)) <==> ReadableClock(c)
  {
    var d := Restamped(c, now);
    assert d.Keys == c.Keys && |d| == |c.Keys| == |c|;
    SortedIdsInClock(c);
    EntriesSameSize(c, d, SortedIds(c.Keys));
  }

  lemma SentCovers(x: Sibling, now: Int64, c: Clock)
    ensures Leq(c, Sent(x, now).clock) <==> Leq(c, x.clock)
  {
    RestampedCounters(x.clock, now);
    var d := Restamped(x.clock, now);
    if Leq(c, d) {
      LeqTransitive(c, d, x.clock);
    }
    if Leq(c, x.clock) {
      LeqTransitive(c, x.clock, d);
    }
  }

  /** Transport keeps the cover and the versions. */
  lemma SentAllCovers(s: seq<Sibling>, now: Int64, c: Clock)
    ensures Covers(SentAll(s, now), c) <==> Covers(s, c)
  {
    var t := SentAll(s, now);
    if Covers(s, c) {
      var i :| 0 <= i < |s| && Leq(c, s[i].clock);
      SentCovers(s[i], now, c);
      assert Leq(c, t[i].clock);
    }
    if Covers(t, c) {
      var i :| 0 <= i < |t| && Leq(c, t[i].clock);
      SentCovers(s[i], now, c);
    }
  }

  lemma SentAllPlain(s: seq<Sibling>, now: Int64)
    requires Plain(s)
    ensures Plain(SentAll(s, now))
  {
    forall i | 0 <= i < |s| ensures PlainClock(SentAll(s, now)[i].clock) {
      RestampedCounters(s[i].clock, now);
    }
  }
}
