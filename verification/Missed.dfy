/** Runs in which a read misses a write: what the quorum sizes and the decoder really decide. */
module Missed {
  import opened Common
  import opened VClock
  import opened ClockText
  import opened ClockCodec
  import opened RecordCodec
  import opened Siblings
  import opened ReadMerge
  import opened StorageEngine
  import opened Transport
  import opened HashRing
  import opened Lists
  import opened Quorum
  import Runs

  /** One write and one later read of a key. `acks` are the members that acknowledge, every other member fails,
      and `answering` are the members that answer the read. */
  datatype Scenario = Scenario(key: Bytes, value: Bytes, context: Clock, coordinator: NodeID, now: Int64,
                               acks: seq<NodeID>, reader: NodeID, answering: seq<NodeID>)

  function Written(sc: Scenario): Sibling {
    Sibling(sc.value, Ticked(sc.context, sc.coordinator, sc.now), sc.now, false, 0)
  }

  /** The write is one that every empty replica stores as it is. */
  predicate Writable(cfg: Config, x: Sibling, now: Int64) {
    && PlainClock(x.clock) && EncodeClock(x.clock).Ok? && |x.value| <= MAX_VALUE
    && PruneIsIdle(x.clock, now, cfg.opts.pruneThreshold, cfg.opts.maxEntries) && cfg.opts.maxSiblings > 0
  }

  /** Enough acknowledgements, from the list or from overflow nodes. */
  predicate Attainable(cfg: Config, key: Bytes, acks: nat) {
    acks >= cfg.w || (cfg.sloppy && |Overflow(cfg, key, cfg.w - acks)| >= cfg.w - acks)
  }

  ghost predicate Plausible(cfg: Config, sc: Scenario) {
    && ValidKey(sc.key) && PlainClock(sc.context) && PlainId(sc.coordinator) && Writable(cfg, Written(sc), sc.now)
    && NoRepeats(sc.acks) && NoRepeats(sc.answering)
    && (forall n :: n in sc.acks || n in sc.answering ==> n in PrefList(cfg, sc.key))
    && Attainable(cfg, sc.key, |sc.acks|) && |sc.answering| >= cfg.r
  }

  /** Nobody who answers has a record that it can show. */
  predicate Silent(sc: Scenario) {
    forall n :: n in sc.answering && n in sc.acks ==> n != sc.reader && !ReadableClock(Written(sc).clock)
  }

  // ----- a first write -----

  lemma DeliveredIsWritable(cfg: Config, p: PutOp, node: NodeID, now: Int64)
    requires Writable(cfg, p.sibling, now)
    ensures Writable(cfg, Delivered(p, node, now)[0], now)
  {
    var c := p.sibling.clock;
    RestampedCounters(c, now);
    RestampedIsReadable(c, now);
    assert Restamped(c, now).Keys == c.Keys && |Restamped(c, now)| == |c.Keys| == |c|;
  }

  lemma FirstPut(cfg: Config, key: Bytes, x: Sibling, now: Int64)
    requires Writable(cfg, x, now)
    ensures Encode(cfg.crc, [x]).Ok? && Quiet([], [x], cfg.opts, now)
    ensures PutStep(cfg.crc, cfg.opts, map[], key, [x], now, map[key := Encode(cfg.crc, [x]).value])
    ensures Decode(cfg.crc, Encode(cfg.crc, [x]).value) == if ReadableClock(x.clock) then Ok([x]) else Err
  {
    var none: seq<Sibling> := [];
    assert Quiet(none, [x], cfg.opts, now);
    QuietPutIsPossible(none, [x], cfg.opts, now);
    SiblingsEncode([x]);
    RecordRoundTrip(cfg.crc, [x]);
    var empty: Database := map[];
    assert empty[key := Encode(cfg.crc, [x]).value] == map[key := Encode(cfg.crc, [x]).value];
  }

  // ----- the states of the run -----

  function RecordOf(cfg: Config, p: PutOp, n: NodeID, now: Int64): Bytes {
    var e := Encode(cfg.crc, Delivered(p, n, now));
    if e.Ok? then e.value else []
  }

  /** Only the nodes that acknowledged hold anything. */
  function WriteState(cfg: Config, p: PutOp, now: Int64): State {
    State(map n | n in p.acked + p.overflow :: map[p.key := RecordOf(cfg, p, n, now)], map[0 := p], map[])
  }

  function ReadState(cfg: Config, p: PutOp, now: Int64, g: GetOp): State {
    WriteState(cfg, p, now).(gets := map[0 := g])
  }

  function Begun(sc: Scenario): PutOp {
    PutOp(sc.key, sc.coordinator, Written(sc), {}, {}, {}, Writing)
  }

  lemma AckedPut(cfg: Config, p: PutOp, node: NodeID, now: Int64)
    requires Writable(cfg, p.sibling, now) && !Responded(p, node)
    ensures var s, d := WriteState(cfg, p, now), Delivered(p, node, now);
            && StoredAt(cfg, s, node, p.key) == [] && Quiet([], d, cfg.opts, now)
            && PutStep(cfg.crc, cfg.opts, DatabaseAt(s, node), p.key, d, now, map[p.key := RecordOf(cfg, p, node, now)])
  {
    var d := Delivered(p, node, now);
    DeliveredIsWritable(cfg, p, node, now);
    FirstPut(cfg, p.key, d[0], now);
    assert d == [d[0]] && DatabaseAt(WriteState(cfg, p, now), node) == map[];
  }

  lemma AckedState(cfg: Config, p: PutOp, node: NodeID, now: Int64)
    ensures var s, p' := WriteState(cfg, p, now), WithAck(cfg, p, node);
            WriteState(cfg, p', now) ==
            WithDatabase(s, node, map[p.key := RecordOf(cfg, p, node, now)]).(puts := s.puts[0 := p'])
  {
    AckedRecords(cfg, p, node, now);
    assert WriteState(cfg, p, now).puts[0 := WithAck(cfg, p, node)] == map[0 := WithAck(cfg, p, node)];
  }

  lemma AckStep(cfg: Config, p: PutOp, node: NodeID, now: Int64)
    requires Writable(cfg, p.sibling, now) && p.status == Writing && Contacted(cfg, p, node) && !Responded(p, node)
    ensures MildStep(cfg, WriteState(cfg, p, now), ReplicaPut(0, node, now),
                     WriteState(cfg, WithAck(cfg, p, node), now))
  {
    AckedPut(cfg, p, node, now);
    AckedState(cfg, p, node, now);
    PutAcked(cfg, WriteState(cfg, p, now), 0, node, now, map[p.key := RecordOf(cfg, p, node, now)]);
  }

  lemma PutAcked(cfg: Config, s: State, op: OpId, node: NodeID, now: Int64, db: Database)
    requires op in s.puts && s.puts[op].status == Writing && Contacted(cfg, s.puts[op], node)
    requires !Responded(s.puts[op], node)
    requires Quiet(StoredAt(cfg, s, node, s.puts[op].key), Delivered(s.puts[op], node, now), cfg.opts, now)
    requires PutStep(cfg.crc, cfg.opts, DatabaseAt(s, node), s.puts[op].key, Delivered(s.puts[op], node, now), now, db)
    ensures MildStep(cfg, s, ReplicaPut(op, node, now),
                     WithDatabase(s, node, db).(puts := s.puts[op := WithAck(cfg, s.puts[op], node)]))
  {
  }

  lemma AckedRecords(cfg: Config, p: PutOp, node: NodeID, now: Int64)
    ensures WriteState(cfg, WithAck(cfg, p, node), now).replicas
         == WriteState(cfg, p, now).replicas[node := map[p.key := RecordOf(cfg, p, node, now)]]
  {
    var p' := WithAck(cfg, p, node);
    assert p'.acked + p'.overflow == p.acked + p.overflow + {node};
    assert forall n :: RecordOf(cfg, p', n, now) == RecordOf(cfg, p, n, now);
  }

  lemma FailStep(cfg: Config, p: PutOp, node: NodeID, now: Int64)
    requires p.status == Writing && Contacted(cfg, p, node) && !Responded(p, node)
    ensures MildStep(cfg, WriteState(cfg, p, now), ReplicaPutFails(0, node),
                     WriteState(cfg, p.(failed := p.failed + {node}), now))
  {
    SameRecords(cfg, p, p.(failed := p.failed + {node}), now);
  }

  lemma SameRecords(cfg: Config, p: PutOp, q: PutOp, now: Int64)
    requires q == p.(failed := q.failed, status := q.status)
    ensures WriteState(cfg, q, now) == WriteState(cfg, p, now).(puts := map[0 := q])
  {
    assert forall n :: RecordOf(cfg, q, n, now) == RecordOf(cfg, p, n, now);
  }

  // ----- the write -----

  function Missing(cfg: Config, sc: Scenario): seq<NodeID> {
    Filter((n: NodeID) => n !in sc.acks, PrefList(cfg, sc.key))
  }

  function Fallback(cfg: Config, sc: Scenario): seq<NodeID> {
    if |sc.acks| >= cfg.w then [] else Overflow(cfg, sc.key, cfg.w - |sc.acks|)
  }

  ghost function AckedBy(sc: Scenario, k: nat): PutOp
    requires k <= |sc.acks|
  {
    Begun(sc).(acked := Elements(sc.acks[..k]))
  }

  ghost function FailedBy(cfg: Config, sc: Scenario, k: nat): PutOp
    requires k <= |Missing(cfg, sc)|
  {
    AckedBy(sc, |sc.acks|).(failed := Elements(Missing(cfg, sc)[..k]))
  }

  ghost function HelpedBy(cfg: Config, sc: Scenario, k: nat): PutOp
    requires k <= |Fallback(cfg, sc)|
  {
    FailedBy(cfg, sc, |Missing(cfg, sc)|).(overflow := Elements(Fallback(cfg, sc)[..k]))
  }

  ghost function Returned(cfg: Config, sc: Scenario): PutOp {
    HelpedBy(cfg, sc, |Fallback(cfg, sc)|).(status := Succeeded)
  }

  lemma ListIsDistinct(cfg: Config, sc: Scenario)
    ensures NoRepeats(PrefList(cfg, sc.key)) && NoRepeats(Missing(cfg, sc)) && NoRepeats(Fallback(cfg, sc))
    ensures forall n :: n in Missing(cfg, sc) <==> n in PrefList(cfg, sc.key) && n !in sc.acks
    ensures forall n :: n in Fallback(cfg, sc) ==> n !in PrefList(cfg, sc.key)
  {
    OrderOfElements(cfg.vnodes, cfg.keyHash(sc.key));
    FilterKeepsDistinct((n: NodeID) => n !in sc.acks, PrefList(cfg, sc.key));
    FilterMembers((n: NodeID) => n !in sc.acks, PrefList(cfg, sc.key));
    if |sc.acks| < cfg.w {
      OverflowIsDistinct(cfg, sc.key, cfg.w - |sc.acks|);
    }
  }

  lemma OverflowIsDistinct(cfg: Config, key: Bytes, need: nat)
    ensures NoRepeats(Overflow(cfg, key, need))
    ensures forall n :: n in Overflow(cfg, key, need) ==> n !in PrefList(cfg, key)
  {
    OrderOfElements(cfg.vnodes, cfg.keyHash(key));
    var extended := Prefix(NodeOrder(cfg.vnodes, cfg.keyHash(key)), cfg.n + need);
    if |extended| > cfg.n {
      assert NoRepeats(extended[cfg.n..]);
      FilterKeepsDistinct((n: NodeID) => n !in PrefList(cfg, key), extended[cfg.n..]);
      FilterMembers((n: NodeID) => n !in PrefList(cfg, key), extended[cfg.n..]);
      assert Overflow(cfg, key, need) == Filter((n: NodeID) => n !in PrefList(cfg, key), extended[cfg.n..]);
    }
  }

  lemma AckMove(cfg: Config, sc: Scenario, k: nat)
    requires Plausible(cfg, sc) && k < |sc.acks|
    ensures MildStep(cfg, WriteState(cfg, AckedBy(sc, k), sc.now), ReplicaPut(0, sc.acks[k], sc.now),
                     WriteState(cfg, AckedBy(sc, k + 1), sc.now))
  {
    var p := AckedBy(sc, k);
    ElementsTake(sc.acks, k);
    assert sc.acks[k] in sc.acks;
    assert WithAck(cfg, p, sc.acks[k]) == AckedBy(sc, k + 1);
    AckStep(cfg, p, sc.acks[k], sc.now);
  }

  lemma FailMove(cfg: Config, sc: Scenario, k: nat)
    requires Plausible(cfg, sc) && k < |Missing(cfg, sc)|
    ensures MildStep(cfg, WriteState(cfg, FailedBy(cfg, sc, k), sc.now), ReplicaPutFails(0, Missing(cfg, sc)[k]),
                     WriteState(cfg, FailedBy(cfg, sc, k + 1), sc.now))
  {
    var p, node := FailedBy(cfg, sc, k), Missing(cfg, sc)[k];
    ListIsDistinct(cfg, sc);
    ElementsTake(Missing(cfg, sc), k);
    assert node in Missing(cfg, sc);
    assert sc.acks[..|sc.acks|] == sc.acks;
    assert p.(failed := p.failed + {node}) == FailedBy(cfg, sc, k + 1);
    FailStep(cfg, p, node, sc.now);
  }

  lemma EveryoneResponded(cfg: Config, sc: Scenario, k: nat)
    requires Plausible(cfg, sc) && k <= |Fallback(cfg, sc)|
    ensures var p := HelpedBy(cfg, sc, k);
            && p.acked == Elements(sc.acks) && |p.acked| == |sc.acks|
            && forall n :: n in PrefList(cfg, sc.key) ==> Responded(p, n)
  {
    ListIsDistinct(cfg, sc);
    NoRepeatsSize(sc.acks);
    assert sc.acks[..|sc.acks|] == sc.acks;
    assert Missing(cfg, sc)[..|Missing(cfg, sc)|] == Missing(cfg, sc);
  }

  lemma HelpMove(cfg: Config, sc: Scenario, k: nat)
    requires Plausible(cfg, sc) && k < |Fallback(cfg, sc)|
    ensures MildStep(cfg, WriteState(cfg, HelpedBy(cfg, sc, k), sc.now), ReplicaPut(0, Fallback(cfg, sc)[k], sc.now),
                     WriteState(cfg, HelpedBy(cfg, sc, k + 1), sc.now))
  {
    var p, node := HelpedBy(cfg, sc, k), Fallback(cfg, sc)[k];
    ListIsDistinct(cfg, sc);
    EveryoneResponded(cfg, sc, k);
    ElementsTake(Fallback(cfg, sc), k);
    assert node in Fallback(cfg, sc) && node !in PrefList(cfg, sc.key);
    HelperIsNew(cfg, sc, k);
    assert WithAck(cfg, p, node) == HelpedBy(cfg, sc, k + 1);
    AckStep(cfg, p, node, sc.now);
  }

  lemma HelperIsNew(cfg: Config, sc: Scenario, k: nat)
    requires Plausible(cfg, sc) && k < |Fallback(cfg, sc)|
    ensures !Responded(HelpedBy(cfg, sc, k), Fallback(cfg, sc)[k])
  {
    var node := Fallback(cfg, sc)[k];
    ListIsDistinct(cfg, sc);
    ElementsTake(Fallback(cfg, sc), k);
    assert node in Fallback(cfg, sc);
    assert sc.acks[..|sc.acks|] == sc.acks;
    assert Missing(cfg, sc)[..|Missing(cfg, sc)|] == Missing(cfg, sc);
  }

  lemma ReturnStep(cfg: Config, p: PutOp, now: Int64)
    requires p.status == Writing && |p.acked| + |p.overflow| >= cfg.w
    requires forall n :: Contacted(cfg, p, n) ==> Responded(p, n)
    ensures MildStep(cfg, WriteState(cfg, p, now), ReturnPut(0), WriteState(cfg, p.(status := Succeeded), now))
  {
    SameRecords(cfg, p, p.(status := Succeeded), now);
  }

  lemma FallbackSuffices(cfg: Config, sc: Scenario)
    requires Attainable(cfg, sc.key, |sc.acks|)
    ensures |sc.acks| + |Fallback(cfg, sc)| >= cfg.w
  {
  }

  lemma EnoughAcks(cfg: Config, sc: Scenario)
    requires Plausible(cfg, sc)
    ensures var p := HelpedBy(cfg, sc, |Fallback(cfg, sc)|);
            |p.acked| + |p.overflow| >= cfg.w
  {
    FallbackSuffices(cfg, sc);
    EveryoneResponded(cfg, sc, |Fallback(cfg, sc)|);
    HelpersCount(cfg, sc);
  }

  lemma HelpersCount(cfg: Config, sc: Scenario)
    ensures |HelpedBy(cfg, sc, |Fallback(cfg, sc)|).overflow| == |Fallback(cfg, sc)|
  {
    var over := Fallback(cfg, sc);
    ListIsDistinct(cfg, sc);
    NoRepeatsSize(over);
    assert over[..|over|] == over;
  }

  lemma ReturnMove(cfg: Config, sc: Scenario)
    requires Plausible(cfg, sc)
    ensures MildStep(cfg, WriteState(cfg, HelpedBy(cfg, sc, |Fallback(cfg, sc)|), sc.now), ReturnPut(0),
                     WriteState(cfg, Returned(cfg, sc), sc.now))
  {
    EnoughAcks(cfg, sc);
    AllContactedResponded(cfg, sc);
    ReturnStep(cfg, HelpedBy(cfg, sc, |Fallback(cfg, sc)|), sc.now);
  }

  lemma AllContactedResponded(cfg: Config, sc: Scenario)
    requires Plausible(cfg, sc)
    ensures var p := HelpedBy(cfg, sc, |Fallback(cfg, sc)|);
            forall n :: Contacted(cfg, p, n) ==> Responded(p, n)
  {
    var over := Fallback(cfg, sc);
    EveryoneResponded(cfg, sc, |over|);
    assert over[..|over|] == over;
  }

  // ----- the read -----

  function AnsweredBy(sc: Scenario, k: nat): GetOp
    requires k <= |sc.answering|
  {
    GetOp(sc.key, sc.reader, seq(k, i requires 0 <= i < k => Answer(sc.answering[i], [])), None)
  }

  lemma ReturnedPut(cfg: Config, sc: Scenario)
    requires Plausible(cfg, sc)
    ensures var p := Returned(cfg, sc);
            && p.acked == Elements(sc.acks) && p.key == sc.key && p.sibling == Written(sc)
            && p.coordinator == sc.coordinator
            && p.status == Succeeded && forall n :: n in p.overflow ==> n !in PrefList(cfg, sc.key)
  {
    EveryoneResponded(cfg, sc, |Fallback(cfg, sc)|);
    ListIsDistinct(cfg, sc);
  }

  lemma EmptyReport(cfg: Config, s: State, n: NodeID, g: GetOp, now: Int64)
    requires StoredAt(cfg, s, n, g.key) == [] && (n == g.coordinator ==> RecordAt(cfg, s, n, g.key).Ok?)
    ensures Reported(cfg, s, n, g, now) == Answer(n, [])
  {
    var none: seq<Sibling> := [];
    assert Unexpired(none, now) == none && SentAll(Live(none), now) == none;
  }

  /** What the database of a node is when the read begins. */
  lemma DatabaseThen(cfg: Config, sc: Scenario, g: GetOp, n: NodeID)
    requires Plausible(cfg, sc) && n in PrefList(cfg, sc.key)
    ensures DatabaseAt(ReadState(cfg, Returned(cfg, sc), sc.now, g), n) ==
            if n in sc.acks then map[sc.key := RecordOf(cfg, Returned(cfg, sc), n, sc.now)] else map[]
  {
    ReturnedPut(cfg, sc);
  }

  /** A member shows nothing, because it holds nothing or because its record cannot be read. */
  lemma NothingShown(cfg: Config, sc: Scenario, g: GetOp, k: nat)
    requires Plausible(cfg, sc) && Silent(sc) && k < |sc.answering| && g.key == sc.key && g.coordinator == sc.reader
    ensures var s := ReadState(cfg, Returned(cfg, sc), sc.now, g);
            && StoredAt(cfg, s, sc.answering[k], sc.key) == []
            && Reported(cfg, s, sc.answering[k], g, sc.now) == Answer(sc.answering[k], [])
  {
    var n := sc.answering[k];
    var s := ReadState(cfg, Returned(cfg, sc), sc.now, g);
    assert n in sc.answering;
    DatabaseThen(cfg, sc, g, n);
    if n in sc.acks {
      UnreadableRecord(cfg, sc, n);
    }
    EmptyReport(cfg, s, n, g, sc.now);
  }

  lemma UnreadableRecord(cfg: Config, sc: Scenario, n: NodeID)
    requires Plausible(cfg, sc) && !ReadableClock(Written(sc).clock)
    ensures Decode(cfg.crc, RecordOf(cfg, Returned(cfg, sc), n, sc.now)).Err?
  {
    var p := Returned(cfg, sc);
    ReturnedPut(cfg, sc);
    var d := Delivered(p, n, sc.now);
    DeliveredIsWritable(cfg, p, n, sc.now);
    FirstPut(cfg, sc.key, d[0], sc.now);
    RestampedIsReadable(Written(sc).clock, sc.now);
    assert d == [d[0]];
  }

  lemma AnswerMove(cfg: Config, sc: Scenario, k: nat)
    requires Plausible(cfg, sc) && Silent(sc) && k < |sc.answering|
    ensures MildStep(cfg, ReadState(cfg, Returned(cfg, sc), sc.now, AnsweredBy(sc, k)),
                     ReplicaGet(0, sc.answering[k], sc.now),
                     ReadState(cfg, Returned(cfg, sc), sc.now, AnsweredBy(sc, k + 1)))
  {
    var g := AnsweredBy(sc, k);
    NothingShown(cfg, sc, g, k);
    assert sc.answering[k] in sc.answering;
    NewAnswer(sc, k);
    AnswerStep(cfg, ReadState(cfg, Returned(cfg, sc), sc.now, g), sc.answering[k], sc.now, AnsweredBy(sc, k + 1));
  }

  lemma NewAnswer(sc: Scenario, k: nat)
    requires NoRepeats(sc.answering) && k < |sc.answering|
    ensures var g := AnsweredBy(sc, k);
            && sc.answering[k] !in Answered(g.answers)
            && AnsweredBy(sc, k + 1) == g.(answers := g.answers + [Answer(sc.answering[k], [])])
  {
  }

  lemma AnswerStep(cfg: Config, s: State, node: NodeID, now: Int64, g': GetOp)
    requires 0 in s.gets && s.gets == map[0 := s.gets[0]] && s.gets[0].outcome == None
    requires node in PrefList(cfg, s.gets[0].key) && node !in Answered(s.gets[0].answers)
    requires var stored := StoredAt(cfg, s, node, s.gets[0].key);
             forall i :: 0 <= i < |stored| ==> !Expired(stored[i], now)
    requires g' == s.gets[0].(answers := s.gets[0].answers + [Reported(cfg, s, node, s.gets[0], now)])
    ensures MildStep(cfg, s, ReplicaGet(0, node, now), s.(gets := map[0 := g']))
  {
    assert s.gets[0 := g'] == map[0 := g'];
  }

  lemma {:induction false} NoSiblings(answers: seq<Answer>)
    requires forall i :: 0 <= i < |answers| ==> answers[i].Answer? && answers[i].siblings == []
    ensures AllSiblings(answers) == [] && Successes(answers) == |answers|
  {
    if answers != [] {
      NoSiblings(answers[..|answers| - 1]);
    }
  }

  ghost function Done(cfg: Config, sc: Scenario): GetOp {
    AnsweredBy(sc, |sc.answering|).(outcome := Some(NotFound))
  }

  lemma FinishStep(cfg: Config, s: State)
    requires 0 in s.gets && s.gets == map[0 := s.gets[0]] && s.gets[0].outcome == None
    ensures MildStep(cfg, s, ReturnGet(0),
                     s.(gets := map[0 := s.gets[0].(outcome := Some(ReadResult(cfg, s.gets[0].answers)))]))
  {
    var g := s.gets[0].(outcome := Some(ReadResult(cfg, s.gets[0].answers)));
    assert s.gets[0 := g] == map[0 := g];
  }

  lemma NothingFound(cfg: Config, sc: Scenario)
    requires |sc.answering| >= cfg.r
    ensures ReadResult(cfg, AnsweredBy(sc, |sc.answering|).answers) == NotFound
  {
    NoSiblings(AnsweredBy(sc, |sc.answering|).answers);
    var none: seq<Sibling> := [];
    assert Maximal(none) == none && Live(none) == none;
  }

  lemma FinishMove(cfg: Config, sc: Scenario)
    requires Plausible(cfg, sc)
    ensures MildStep(cfg, ReadState(cfg, Returned(cfg, sc), sc.now, AnsweredBy(sc, |sc.answering|)), ReturnGet(0),
                     ReadState(cfg, Returned(cfg, sc), sc.now, Done(cfg, sc)))
  {
    NothingFound(cfg, sc);
    FinishStep(cfg, ReadState(cfg, Returned(cfg, sc), sc.now, AnsweredBy(sc, |sc.answering|)));
  }

  // ----- the run -----

  /** A run in which the write succeeds by state `j` and the later read ends with not found. */
  ghost predicate MissingRun(cfg: Config, sc: Scenario, run: seq<State>, steps: seq<Step>, j: nat) {
    && Runs.IsRun(MildSteps(cfg), run, steps) && run[0] == INITIAL
    && (forall k :: 0 <= k < |steps| ==> Harmless(sc, steps[k]))
    && ReadAfterWrite(cfg, run, j, |run| - 1, 0, 0)
    && run[j].puts[0].key == sc.key && run[j].puts[0].acked == Elements(sc.acks)
    && run[j].puts[0].sibling == Written(sc)
    && run[|run| - 1].gets[0].outcome == Some(NotFound)
  }

  /** No clock enters the cluster except the written one. */
  ghost predicate Harmless(sc: Scenario, step: Step) {
    && !step.BeginDelete? && !step.Background?
    && (step.BeginPut? ==> Ticked(step.context, step.coordinator, step.now) == Written(sc).clock)
  }

  lemma BeginMove(cfg: Config, sc: Scenario)
    requires Plausible(cfg, sc)
    ensures MildStep(cfg, INITIAL, BeginPut(0, sc.coordinator, sc.key, sc.value, sc.context, 0, sc.now),
                     WriteState(cfg, AckedBy(sc, 0), sc.now))
  {
    assert sc.acks[..0] == [];
    assert AckedBy(sc, 0) == Begun(sc);
    assert INITIAL.puts[0 := Begun(sc)] == map[0 := Begun(sc)];
    assert WriteState(cfg, Begun(sc), sc.now).replicas == map[];
  }

  lemma OpenStep(cfg: Config, s: State, reader: NodeID, key: Bytes)
    requires s.gets == map[] && ValidKey(key)
    ensures MildStep(cfg, s, BeginGet(0, reader, key), s.(gets := map[0 := GetOp(key, reader, [], None)]))
  {
    assert s.gets[0 := GetOp(key, reader, [], None)] == map[0 := GetOp(key, reader, [], None)];
  }

  lemma OpenMove(cfg: Config, sc: Scenario)
    requires Plausible(cfg, sc)
    ensures MildStep(cfg, WriteState(cfg, Returned(cfg, sc), sc.now), BeginGet(0, sc.reader, sc.key),
                     ReadState(cfg, Returned(cfg, sc), sc.now, AnsweredBy(sc, 0)))
  {
    assert AnsweredBy(sc, 0) == GetOp(sc.key, sc.reader, [], None);
    OpenStep(cfg, WriteState(cfg, Returned(cfg, sc), sc.now), sc.reader, sc.key);
  }

  type Stretch = Runs.Phase<State, Step>

  /** A single move. */
  function Single(a: State, move: Step, b: State): Stretch {
    Runs.Phase(k => if k == 0 then a else b, _ => move, 1)
  }

  ghost function Acking(cfg: Config, sc: Scenario): Stretch {
    Runs.Phase((k: nat) => WriteState(cfg, AckedBy(sc, if k <= |sc.acks| then k else 0), sc.now),
               (k: nat) => ReplicaPut(0, if k < |sc.acks| then sc.acks[k] else [], sc.now), |sc.acks|)
  }

  ghost function Failing(cfg: Config, sc: Scenario): Stretch {
    var missing := Missing(cfg, sc);
    Runs.Phase((k: nat) => WriteState(cfg, FailedBy(cfg, sc, if k <= |missing| then k else 0), sc.now),
               (k: nat) => ReplicaPutFails(0, if k < |missing| then missing[k] else []), |missing|)
  }

  ghost function Helping(cfg: Config, sc: Scenario): Stretch {
    var over := Fallback(cfg, sc);
    Runs.Phase((k: nat) => WriteState(cfg, HelpedBy(cfg, sc, if k <= |over| then k else 0), sc.now),
               (k: nat) => ReplicaPut(0, if k < |over| then over[k] else [], sc.now), |over|)
  }

  ghost function Answering(cfg: Config, sc: Scenario): Stretch {
    Runs.Phase((k: nat) =>
                 ReadState(cfg, Returned(cfg, sc), sc.now, AnsweredBy(sc, if k <= |sc.answering| then k else 0)),
               (k: nat) => ReplicaGet(0, if k < |sc.answering| then sc.answering[k] else [], sc.now), |sc.answering|)
  }

  ghost function HarmlessTo(sc: Scenario): Step -> bool {
    step => Harmless(sc, step)
  }

  lemma AckingBy(next: (State, Step, State) -> bool, cfg: Config, sc: Scenario)
    requires forall k: nat :: k < |sc.acks| ==>
               next(WriteState(cfg, AckedBy(sc, k), sc.now), ReplicaPut(0, sc.acks[k], sc.now),
                    WriteState(cfg, AckedBy(sc, k + 1), sc.now))
    ensures Runs.Valid(next, HarmlessTo(sc), Acking(cfg, sc))
  {
  }

  lemma AckingIsValid(cfg: Config, sc: Scenario)
    requires Plausible(cfg, sc)
    ensures Runs.Valid(MildSteps(cfg), HarmlessTo(sc), Acking(cfg, sc))
  {
    forall k: nat | k < |sc.acks|
      ensures MildSteps(cfg)(WriteState(cfg, AckedBy(sc, k), sc.now), ReplicaPut(0, sc.acks[k], sc.now),
                             WriteState(cfg, AckedBy(sc, k + 1), sc.now))
    {
      AckMove(cfg, sc, k);
    }
    AckingBy(MildSteps(cfg), cfg, sc);
  }

  lemma FailingBy(next: (State, Step, State) -> bool, cfg: Config, sc: Scenario)
    requires forall k: nat :: k < |Missing(cfg, sc)| ==>
               next(WriteState(cfg, FailedBy(cfg, sc, k), sc.now), ReplicaPutFails(0, Missing(cfg, sc)[k]),
                    WriteState(cfg, FailedBy(cfg, sc, k + 1), sc.now))
    ensures Runs.Valid(next, HarmlessTo(sc), Failing(cfg, sc))
  {
  }

  lemma FailingIsValid(cfg: Config, sc: Scenario)
    requires Plausible(cfg, sc)
    ensures Runs.Valid(MildSteps(cfg), HarmlessTo(sc), Failing(cfg, sc))
  {
    forall k: nat | k < |Missing(cfg, sc)|
      ensures MildSteps(cfg)(WriteState(cfg, FailedBy(cfg, sc, k), sc.now), ReplicaPutFails(0, Missing(cfg, sc)[k]),
                             WriteState(cfg, FailedBy(cfg, sc, k + 1), sc.now))
    {
      FailMove(cfg, sc, k);
    }
    FailingBy(MildSteps(cfg), cfg, sc);
  }

  lemma HelpingBy(next: (State, Step, State) -> bool, cfg: Config, sc: Scenario)
    requires forall k: nat :: k < |Fallback(cfg, sc)| ==>
               next(WriteState(cfg, HelpedBy(cfg, sc, k), sc.now), ReplicaPut(0, Fallback(cfg, sc)[k], sc.now),
                    WriteState(cfg, HelpedBy(cfg, sc, k + 1), sc.now))
    ensures Runs.Valid(next, HarmlessTo(sc), Helping(cfg, sc))
  {
  }

  lemma HelpingIsValid(cfg: Config, sc: Scenario)
    requires Plausible(cfg, sc)
    ensures Runs.Valid(MildSteps(cfg), HarmlessTo(sc), Helping(cfg, sc))
  {
    forall k: nat | k < |Fallback(cfg, sc)|
      ensures MildSteps(cfg)(WriteState(cfg, HelpedBy(cfg, sc, k), sc.now), ReplicaPut(0, Fallback(cfg, sc)[k], sc.now),
                             WriteState(cfg, HelpedBy(cfg, sc, k + 1), sc.now))
    {
      HelpMove(cfg, sc, k);
    }
    HelpingBy(MildSteps(cfg), cfg, sc);
  }

  lemma AnsweringBy(next: (State, Step, State) -> bool, cfg: Config, sc: Scenario)
    requires forall k: nat :: k < |sc.answering| ==>
               next(ReadState(cfg, Returned(cfg, sc), sc.now, AnsweredBy(sc, k)),
                    ReplicaGet(0, sc.answering[k], sc.now),
                    ReadState(cfg, Returned(cfg, sc), sc.now, AnsweredBy(sc, k + 1)))
    ensures Runs.Valid(next, HarmlessTo(sc), Answering(cfg, sc))
  {
  }

  lemma AnsweringIsValid(cfg: Config, sc: Scenario)
    requires Plausible(cfg, sc) && Silent(sc)
    ensures Runs.Valid(MildSteps(cfg), HarmlessTo(sc), Answering(cfg, sc))
  {
    forall k: nat | k < |sc.answering|
      ensures MildSteps(cfg)(ReadState(cfg, Returned(cfg, sc), sc.now, AnsweredBy(sc, k)),
                             ReplicaGet(0, sc.answering[k], sc.now),
                             ReadState(cfg, Returned(cfg, sc), sc.now, AnsweredBy(sc, k + 1)))
    {
      AnswerMove(cfg, sc, k);
    }
    AnsweringBy(MildSteps(cfg), cfg, sc);
  }

  lemma SingleIsValid(next: (State, Step, State) -> bool, good: Step -> bool, a: State, move: Step, b: State)
    requires next(a, move, b) && good(move)
    ensures Runs.Valid(next, good, Single(a, move, b)) && Single(a, move, b).Start() == a
    ensures Single(a, move, b).End() == b
  {
  }

  ghost function WritePhases(cfg: Config, sc: Scenario): seq<Stretch> {
    [Single(INITIAL, BeginPut(0, sc.coordinator, sc.key, sc.value, sc.context, 0, sc.now), Acking(cfg, sc).Start()),
     Acking(cfg, sc), Failing(cfg, sc), Helping(cfg, sc),
     Single(Helping(cfg, sc).End(), ReturnPut(0), WriteState(cfg, Returned(cfg, sc), sc.now))]
  }

  ghost function ReadPhases(cfg: Config, sc: Scenario): seq<Stretch> {
    [Single(WriteState(cfg, Returned(cfg, sc), sc.now), BeginGet(0, sc.reader, sc.key), Answering(cfg, sc).Start()),
     Answering(cfg, sc),
     Single(Answering(cfg, sc).End(), ReturnGet(0), ReadState(cfg, Returned(cfg, sc), sc.now, Done(cfg, sc)))]
  }

  lemma PhasesMeet(cfg: Config, sc: Scenario)
    ensures Acking(cfg, sc).End() == Failing(cfg, sc).Start() && Failing(cfg, sc).End() == Helping(cfg, sc).Start()
  {
    assert Missing(cfg, sc)[..0] == [] && Fallback(cfg, sc)[..0] == [];
    assert FailedBy(cfg, sc, 0) == AckedBy(sc, |sc.acks|);
    assert HelpedBy(cfg, sc, 0) == FailedBy(cfg, sc, |Missing(cfg, sc)|);
  }

  lemma BeginIsValid(cfg: Config, sc: Scenario)
    requires Plausible(cfg, sc)
    ensures Runs.Valid(MildSteps(cfg), HarmlessTo(sc), WritePhases(cfg, sc)[0])
  {
    BeginMove(cfg, sc);
    SingleIsValid(MildSteps(cfg), HarmlessTo(sc), INITIAL,
                  BeginPut(0, sc.coordinator, sc.key, sc.value, sc.context, 0, sc.now), Acking(cfg, sc).Start());
  }

  lemma ReturnIsValid(cfg: Config, sc: Scenario)
    requires Plausible(cfg, sc)
    ensures Runs.Valid(MildSteps(cfg), HarmlessTo(sc), WritePhases(cfg, sc)[4])
  {
    ReturnMove(cfg, sc);
    SingleIsValid(MildSteps(cfg), HarmlessTo(sc), Helping(cfg, sc).End(), ReturnPut(0),
                  WriteState(cfg, Returned(cfg, sc), sc.now));
  }

  lemma OpenIsValid(cfg: Config, sc: Scenario)
    requires Plausible(cfg, sc)
    ensures Runs.Valid(MildSteps(cfg), HarmlessTo(sc), ReadPhases(cfg, sc)[0])
  {
    OpenMove(cfg, sc);
    SingleIsValid(MildSteps(cfg), HarmlessTo(sc), WriteState(cfg, Returned(cfg, sc), sc.now),
                  BeginGet(0, sc.reader, sc.key), Answering(cfg, sc).Start());
  }

  lemma FinishIsValid(cfg: Config, sc: Scenario)
    requires Plausible(cfg, sc)
    ensures Runs.Valid(MildSteps(cfg), HarmlessTo(sc), ReadPhases(cfg, sc)[2])
  {
    FinishMove(cfg, sc);
    SingleIsValid(MildSteps(cfg), HarmlessTo(sc), Answering(cfg, sc).End(), ReturnGet(0),
                  ReadState(cfg, Returned(cfg, sc), sc.now, Done(cfg, sc)));
  }

  lemma WritePhasesLink(next: (State, Step, State) -> bool, good: Step -> bool, cfg: Config, sc: Scenario)
    requires Runs.Valid(next, good, WritePhases(cfg, sc)[0]) && Runs.Valid(next, good, Acking(cfg, sc))
    requires Runs.Valid(next, good, Failing(cfg, sc)) && Runs.Valid(next, good, Helping(cfg, sc))
    requires Runs.Valid(next, good, WritePhases(cfg, sc)[4])
    ensures Runs.Linked(next, good, WritePhases(cfg, sc))
  {
    PhasesMeet(cfg, sc);
  }

  lemma ReadPhasesLink(next: (State, Step, State) -> bool, good: Step -> bool, cfg: Config, sc: Scenario)
    requires Runs.Valid(next, good, ReadPhases(cfg, sc)[0]) && Runs.Valid(next, good, Answering(cfg, sc))
    requires Runs.Valid(next, good, ReadPhases(cfg, sc)[2])
    ensures Runs.Linked(next, good, ReadPhases(cfg, sc))
  {
  }

  lemma PhasesAreLinked(cfg: Config, sc: Scenario)
    requires Plausible(cfg, sc) && Silent(sc)
    ensures Runs.Linked(MildSteps(cfg), HarmlessTo(sc), WritePhases(cfg, sc))
    ensures Runs.Linked(MildSteps(cfg), HarmlessTo(sc), ReadPhases(cfg, sc))
  {
    BeginIsValid(cfg, sc);
    AckingIsValid(cfg, sc);
    FailingIsValid(cfg, sc);
    HelpingIsValid(cfg, sc);
    ReturnIsValid(cfg, sc);
    WritePhasesLink(MildSteps(cfg), HarmlessTo(sc), cfg, sc);
    OpenIsValid(cfg, sc);
    AnsweringIsValid(cfg, sc);
    FinishIsValid(cfg, sc);
    ReadPhasesLink(MildSteps(cfg), HarmlessTo(sc), cfg, sc);
  }

  lemma WriteThenRead(next: (State, Step, State) -> bool, good: Step -> bool, cfg: Config, sc: Scenario)
    returns (run: seq<State>, steps: seq<Step>, j: nat)
    requires Runs.Linked(next, good, WritePhases(cfg, sc)) && Runs.Linked(next, good, ReadPhases(cfg, sc))
    ensures Runs.GoodRun(next, good, run, steps) && j < |run|
    ensures run[0] == INITIAL && run[j] == WriteState(cfg, Returned(cfg, sc), sc.now)
    ensures run[|run| - 1] == ReadState(cfg, Returned(cfg, sc), sc.now, Done(cfg, sc))
  {
    run, steps, j := Runs.RunOfTwo(next, good, WritePhases(cfg, sc), ReadPhases(cfg, sc));
  }

  /** Every plausible scenario with silent answers is a run that misses the write. */
  lemma ScenarioRuns(cfg: Config, sc: Scenario) returns (run: seq<State>, steps: seq<Step>, j: nat)
    requires Plausible(cfg, sc) && Silent(sc)
    ensures MissingRun(cfg, sc, run, steps, j)
  {
    PhasesAreLinked(cfg, sc);
    run, steps, j := WriteThenRead(MildSteps(cfg), HarmlessTo(sc), cfg, sc);
    ReturnedPut(cfg, sc);
  }

  // ----- what the quorum sizes decide -----

  lemma MissingRunIsLive(cfg: Config, sc: Scenario, run: seq<State>, steps: seq<Step>, j: nat)
    requires MissingRun(cfg, sc, run, steps, j) && ReadableClock(Written(sc).clock)
    ensures LiveRun(cfg, run, steps)
  {
    forall i | 0 <= i < |steps| ensures LiveSteps(cfg)(run[i], steps[i], run[i + 1]) {
      assert MildSteps(cfg)(run[i], steps[i], run[i + 1]) && Harmless(sc, steps[i]);
      HarmlessIsCalm(sc, steps[i]);
    }
  }

  lemma HarmlessIsCalm(sc: Scenario, step: Step)
    requires Harmless(sc, step) && ReadableClock(Written(sc).clock)
    ensures ReadableStep(step) && LiveStep(step)
  {
  }

  function Example(list: seq<NodeID>, key: Bytes, acks: nat, answers: nat): Scenario
    requires acks + answers <= |list|
  {
    Scenario(key, [], map[], [99], 0, list[..acks], [99], list[acks..acks + answers])
  }

  lemma ExampleIsReadable(cfg: Config, list: seq<NodeID>, key: Bytes, acks: nat, answers: nat)
    requires acks + answers <= |list| && cfg.opts.maxSiblings > 0 && cfg.opts.maxEntries > 0
    ensures var x := Written(Example(list, key, acks, answers));
            Writable(cfg, x, 0) && ReadableClock(x.clock)
  {
    var c := Ticked(map[], [99], 0);
    assert c.Keys == {[99]} && |c| == |c.Keys| == 1;
    ClockSize(c);
  }

  lemma ExampleIsPlausible(cfg: Config, key: Bytes, acks: nat)
    requires ValidKey(key) && cfg.opts.maxSiblings > 0 && cfg.opts.maxEntries > 0
    requires acks + cfg.r <= |PrefList(cfg, key)| && Attainable(cfg, key, acks)
    ensures var sc := Example(PrefList(cfg, key), key, acks, cfg.r);
            Plausible(cfg, sc) && Silent(sc) && ReadableClock(Written(sc).clock)
            && sc.key == key && |Elements(sc.acks)| == acks
  {
    var list := PrefList(cfg, key);
    ListHasNoRepeats(cfg, key);
    ExampleIsReadable(cfg, list, key, acks, cfg.r);
    NoRepeatsSize(Example(list, key, acks, cfg.r).acks);
    SlicesAreDisjoint(list, acks, cfg.r);
  }

  lemma ListHasNoRepeats(cfg: Config, key: Bytes)
    ensures NoRepeats(PrefList(cfg, key))
  {
    OrderOfElements(cfg.vnodes, cfg.keyHash(key));
  }

  lemma SlicesAreDisjoint<T>(s: seq<T>, a: nat, b: nat)
    requires NoRepeats(s) && a + b <= |s|
    ensures NoRepeats(s[..a]) && NoRepeats(s[a..a + b]) && forall x :: x in s[a..a + b] ==> x !in s[..a] && x in s
  {
    forall x | x in s[a..a + b] ensures x !in s[..a] && x in s {
      var i :| 0 <= i < b && s[a..a + b][i] == x;
      assert s[a + i] == x;
    }
  }

  /** A read of the key after a successful write in a live run. */
  ghost predicate LiveRead(cfg: Config, key: Bytes, run: seq<State>, steps: seq<Step>, j: nat, i: nat, put: OpId,
                           get: OpId) {
    LiveRun(cfg, run, steps) && ReadAfterWrite(cfg, run, j, i, put, get) && run[j].puts[put].key == key
  }

  /** There is a live run in which a write with this many acknowledgements from the list succeeds and is missed. */
  lemma MissedWrite(cfg: Config, key: Bytes, acks: nat) returns (run: seq<State>, steps: seq<Step>, j: nat)
    requires ValidKey(key) && cfg.opts.maxSiblings > 0 && cfg.opts.maxEntries > 0
    requires acks + cfg.r <= |PrefList(cfg, key)| && Attainable(cfg, key, acks)
    ensures |run| > 0 && LiveRead(cfg, key, run, steps, j, |run| - 1, 0, 0) && |run[j].puts[0].acked| == acks
    ensures run[|run| - 1].gets[0].outcome == Some(NotFound)
  {
    var sc := Example(PrefList(cfg, key), key, acks, cfg.r);
    ExampleIsPlausible(cfg, key, acks);
    run, steps, j := ScenarioRuns(cfg, sc);
    MissingRunIsLive(cfg, sc, run, steps, j);
  }

  /** In every live run, every later read of the key meets each successful write that this many members acknowledged. */
  ghost predicate EveryReadMeets(cfg: Config, key: Bytes, acks: nat) {
    forall run: seq<State>, steps, j: nat, i: nat, put: OpId, get: OpId ::
      LiveRead(cfg, key, run, steps, j, i, put, get) && |run[j].puts[put].acked| == acks ==> Met(run, j, i, put, get)
  }

  /** The exact bound for strict and sloppy writes: reads meet every write with so many acknowledgements from the list
      exactly when these and `r` together outnumber the list. Acknowledgements of overflow nodes do not help. */
  lemma ReadMeetsWriteIff(cfg: Config, key: Bytes, acks: nat)
    requires ValidKey(key) && cfg.opts.maxSiblings > 0 && cfg.opts.maxEntries > 0 && Attainable(cfg, key, acks)
    ensures EveryReadMeets(cfg, key, acks) <==> acks + cfg.r > |PrefList(cfg, key)|
  {
    if acks + cfg.r > |PrefList(cfg, key)| {
      forall run: seq<State>, steps, j: nat, i: nat, put: OpId, get: OpId |
        LiveRead(cfg, key, run, steps, j, i, put, get) && |run[j].puts[put].acked| == acks
        ensures Met(run, j, i, put, get)
      {
        ReadMeetsWrite(cfg, run, steps, j, i, put, get);
      }
    } else {
      var run, steps, j := MissedWrite(cfg, key, acks);
      assert !Met(run, j, |run| - 1, 0, 0);
    }
  }

  /** In every live run, every later read of the key meets every successful write. */
  ghost predicate AlwaysSafe(cfg: Config, key: Bytes) {
    forall run: seq<State>, steps, j: nat, i: nat, put: OpId, get: OpId ::
      LiveRead(cfg, key, run, steps, j, i, put, get) ==> Met(run, j, i, put, get)
  }

  /** With strict quorums, reads meet writes in every run exactly when `r + w` outnumbers the preference list. */
  lemma QuorumSafetyIff(cfg: Config, key: Bytes)
    requires ValidKey(key) && cfg.opts.maxSiblings > 0 && cfg.opts.maxEntries > 0 && !cfg.sloppy
    ensures AlwaysSafe(cfg, key) <==> cfg.r + cfg.w > |PrefList(cfg, key)|
  {
    if cfg.r + cfg.w > |PrefList(cfg, key)| {
      forall run: seq<State>, steps, j: nat, i: nat, put: OpId, get: OpId |
        LiveRead(cfg, key, run, steps, j, i, put, get)
        ensures Met(run, j, i, put, get)
      {
        StrictAcks(cfg, run, steps, j, put);
        ReadMeetsWrite(cfg, run, steps, j, i, put, get);
      }
    } else {
      var run, steps, j := MissedWrite(cfg, key, cfg.w);
      assert !Met(run, j, |run| - 1, 0, 0);
    }
  }

  lemma StrictAcks(cfg: Config, run: seq<State>, steps: seq<Step>, j: nat, put: OpId)
    requires LiveRun(cfg, run, steps) && j < |run| && put in run[j].puts && run[j].puts[put].status == Succeeded
    requires !cfg.sloppy
    ensures |run[j].puts[put].acked| >= cfg.w
  {
    LiveRunIsCalm(cfg, run, steps);
    RunKeepsInv(cfg, run, steps, j);
    assert PutOk(cfg, run[j], run[j].puts[put]);
  }

  // ----- what the decoder decides -----

  /** Whatever the quorum sizes, a write whose clock the decoder refuses can be acknowledged by the whole list and
      still be missed: when enough other members answer, the reader is told that the key does not exist. */
  lemma UnreadableWriteVanishes(cfg: Config, key: Bytes, value: Bytes, context: Clock, coordinator: NodeID, now: Int64,
                                reader: NodeID)
    returns (run: seq<State>, steps: seq<Step>, j: nat)
    requires ValidKey(key) && PlainClock(context) && PlainId(coordinator)
    requires Writable(cfg, Sibling(value, Ticked(context, coordinator, now), now, false, 0), now)
    requires !ReadableClock(Ticked(context, coordinator, now))
    requires cfg.r <= |Filter(NotNode(reader), PrefList(cfg, key))| && cfg.w <= |PrefList(cfg, key)|
    ensures Runs.IsRun(MildSteps(cfg), run, steps) && run[0] == INITIAL
    ensures |run| > 0 && ReadAfterWrite(cfg, run, j, |run| - 1, 0, 0)
    ensures run[j].puts[0].acked == Elements(PrefList(cfg, key))
    ensures run[|run| - 1].gets[0].outcome == Some(NotFound)
  {
    var list := PrefList(cfg, key);
    var sc := Scenario(key, value, context, coordinator, now, list, reader, Filter(NotNode(reader), list));
    OrderOfElements(cfg.vnodes, cfg.keyHash(key));
    assert NoRepeats(list);
    FilterKeepsDistinct(NotNode(reader), list);
    FilterMembers(NotNode(reader), list);
    run, steps, j := ScenarioRuns(cfg, sc);
  }

  /** Such a clock needs no more than an empty identifier in the context of a client. */
  lemma EmptyIdentifierIsUnreadable(e: Entry, coordinator: NodeID, now: Int64)
    requires |coordinator| <= 64
    ensures var c := Ticked(map[[] := e], coordinator, now);
            EncodeClock(c).Ok? && !ReadableClock(c)
  {
    var c := Ticked(map[[] := e], coordinator, now);
    assert [] in c && c.Keys == {[], coordinator};
    assert |c| == |c.Keys| <= 2;
    ClockSize(c);
  }
}
