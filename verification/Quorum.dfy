/** The quorum protocol as a step system: every interleaving of replica writes, replica reads,
    operation starts and operation returns. */
module Quorum {
  import opened Common
  import opened VClock
  import opened ClockText
  import opened Siblings
  import opened ReadMerge
  import opened StorageEngine
  import opened RecordCodec
  import opened Transport
  import opened HashRing
  import opened Lists
  import Runs

  /** The quorum sizes, the storage limits and a fixed ring. */
  datatype Config = Config(n: nat, r: nat, w: nat, sloppy: bool, opts: Options, crc: Checksum, keyHash: KeyHash,
                           vnodes: seq<VNode>)

  /** Overlapping quorums. */
  predicate Strong(cfg: Config) {
    cfg.r + cfg.w > cfg.n
  }

  function PrefList(cfg: Config, key: Bytes): seq<NodeID> {
    Prefix(NodeOrder(cfg.vnodes, cfg.keyHash(key)), cfg.n)
  }

  /** The nodes after the preference list that a sloppy write may fall back to. */
  function Overflow(cfg: Config, key: Bytes, need: nat): seq<NodeID> {
    var extended := Prefix(NodeOrder(cfg.vnodes, cfg.keyHash(key)), cfg.n + need);
    if |extended| > cfg.n then Filter(n => n !in PrefList(cfg, key), extended[cfg.n..]) else []
  }

  type OpId = nat

  /** `acked` are members of the preference list, `overflow` are fallback nodes. */
  datatype PutOp = PutOp(key: Bytes, coordinator: NodeID, sibling: Sibling,
                         acked: set<NodeID>, overflow: set<NodeID>, failed: set<NodeID>, status: PutStatus)
  datatype PutStatus = Writing | Succeeded | NoQuorum

  datatype Answer = Answer(node: NodeID, siblings: seq<Sibling>) | NoAnswer(node: NodeID)
  datatype ReadOutcome = Found(siblings: seq<Sibling>) | NotFound | TooFewAnswers
  datatype GetOp = GetOp(key: Bytes, coordinator: NodeID, answers: seq<Answer>, outcome: Option<ReadOutcome>)

  /** Replicas hold encoded records, as the storage engine writes them. */
  datatype State = State(replicas: map<NodeID, Database>, puts: map<OpId, PutOp>, gets: map<OpId, GetOp>)

  function DatabaseAt(s: State, n: NodeID): Database {
    if n in s.replicas then s.replicas[n] else map[]
  }

  function WithDatabase(s: State, n: NodeID, db: Database): State {
    s.(replicas := s.replicas[n := db])
  }

  /** What reading a key at a node gives: an absent key holds nothing, a record the decoder refuses is an error. */
  function RecordAt(cfg: Config, s: State, n: NodeID, key: Bytes): Result<seq<Sibling>> {
    StoredIn(cfg.crc, DatabaseAt(s, n), key)
  }

  function StoredAt(cfg: Config, s: State, n: NodeID, key: Bytes): seq<Sibling> {
    if RecordAt(cfg, s, n, key).Ok? then RecordAt(cfg, s, n, key).value else []
  }

  /** The answer of a replica to the coordinator of a read. The coordinator reads its own storage raw and sees an
      error; from any other node siblings come without tombstones and over the wire, and an error reads as not found. */
  function Reported(cfg: Config, s: State, n: NodeID, g: GetOp, now: Int64): Answer {
    if n == g.coordinator then
      if RecordAt(cfg, s, n, g.key).Err? then NoAnswer(n) else Answer(n, Unexpired(StoredAt(cfg, s, n, g.key), now))
    else Answer(n, SentAll(Live(StoredAt(cfg, s, n, g.key)), now))
  }

  function Responders(answers: seq<Answer>): set<NodeID> {
    set i | 0 <= i < |answers| && answers[i].Answer? :: answers[i].node
  }

  function Answered(answers: seq<Answer>): set<NodeID> {
    set i | 0 <= i < |answers| :: answers[i].node
  }

  function AllSiblings(answers: seq<Answer>): seq<Sibling> {
    if answers == [] then [] else
      var last := answers[|answers| - 1];
      AllSiblings(answers[..|answers| - 1]) + (if last.Answer? then last.siblings else [])
  }

  function Successes(answers: seq<Answer>): nat {
    if answers == [] then 0 else
      Successes(answers[..|answers| - 1]) + (if answers[|answers| - 1].Answer? then 1 else 0)
  }

  /** What the client gets: the merged versions without tombstones, when enough replicas answered. */
  function ReadResult(cfg: Config, answers: seq<Answer>): ReadOutcome {
    if Successes(answers) < cfg.r then TooFewAnswers else
      var visible := Live(Maximal(AllSiblings(answers)));
      if visible == [] then NotFound else Found(visible)
  }

  /** The coordinator's evaluation of the answers it collected. */
  method EvaluateRead(cfg: Config, answers: seq<Answer>) returns (result: ReadOutcome)
    ensures result == ReadResult(cfg, answers)
  {
    var successCount := 0;
    var all: seq<Sibling> := [];
    for i := 0 to |answers|
      invariant successCount == Successes(answers[..i]) && all == AllSiblings(answers[..i])
    {
      assert answers[..i + 1][..i] == answers[..i];
      if answers[i].Answer? {
        successCount := successCount + 1;
        all := all + answers[i].siblings;
      }
    }
    assert answers[..|answers|] == answers;
    if successCount < cfg.r {
      return TooFewAnswers;
    }
    var merged := MergeAllSiblings(all);
    var filtered := FilterTombstones(merged);
    if |filtered| == 0 {
      return NotFound;
    }
    result := Found(filtered);
  }

  datatype WriteResponse = WriteResponse(node: NodeID, ok: bool)

  function Acked(responses: seq<WriteResponse>): set<NodeID> {
    set i | 0 <= i < |responses| && responses[i].ok :: responses[i].node
  }

  /** Counting successful responses counts the replicas that acknowledged, since each replica responds once. */
  method CountSuccesses(responses: seq<WriteResponse>) returns (count: nat)
    requires forall i, j :: 0 <= i < j < |responses| ==> responses[i].node != responses[j].node
    ensures count == |Acked(responses)|
  {
    count := 0;
    for i := 0 to |responses|
      invariant count == |Acked(responses[..i])|
    {
      var rest, all := responses[..i], responses[..i + 1];
      assert all == rest + [responses[i]];
      if responses[i].ok {
        count := count + 1;
        assert Acked(all) == Acked(rest) + {responses[i].node};
        assert responses[i].node !in Acked(rest);
      } else {
        assert Acked(all) == Acked(rest);
      }
    }
    assert responses[..|responses|] == responses;
  }

  // ----- the steps -----

  datatype Step =
    | BeginPut(op: OpId, coordinator: NodeID, key: Bytes, value: Bytes, context: Clock, ttl: nat, now: Int64)
    | BeginDelete(op: OpId, coordinator: NodeID, key: Bytes, context: Clock, now: Int64)
    | ReplicaPut(op: OpId, node: NodeID, now: Int64)
    | ReplicaPutFails(op: OpId, node: NodeID)
    | ReturnPut(op: OpId)
    | BeginGet(op: OpId, coordinator: NodeID, key: Bytes)
    | ReplicaGet(op: OpId, node: NodeID, now: Int64)
    | ReplicaGetFails(op: OpId, node: NodeID)
    | ReturnGet(op: OpId)
    | Background(node: NodeID, key: Bytes, incoming: seq<Sibling>, now: Int64)

  predicate Fits(x: int) {
    -TWO63 <= x < TWO63
  }

  /** The sibling that a Put makes, and the tombstone that a Delete makes. */
  function PutSibling(coordinator: NodeID, value: Bytes, context: Clock, ttl: nat, now: Int64): Sibling
    requires Fits(now + ttl)
  {
    Sibling(value, Ticked(context, coordinator, now), now, false, if ttl > 0 then now + ttl else 0)
  }

  function DeleteSibling(coordinator: NodeID, context: Clock, now: Int64): Sibling {
    Sibling([], Ticked(context, coordinator, now), now, true, 0)
  }

  /** What a replica is asked to store for an operation. */
  function Delivered(p: PutOp, node: NodeID, now: Int64): seq<Sibling> {
    [if node == p.coordinator then p.sibling else Sent(p.sibling, now)]
  }

  predicate Responded(p: PutOp, node: NodeID) {
    node in p.acked || node in p.overflow || node in p.failed
  }

  /** Overflow nodes are tried once the whole list has responded with too few acknowledgements; a delete never tries
      them. */
  predicate UsesOverflow(cfg: Config, p: PutOp) {
    && cfg.sloppy && !p.sibling.tombstone && |p.acked| < cfg.w
    && forall n :: n in PrefList(cfg, p.key) ==> Responded(p, n)
  }

  /** The nodes an operation is sent to. */
  predicate Contacted(cfg: Config, p: PutOp, node: NodeID) {
    node in PrefList(cfg, p.key) || (UsesOverflow(cfg, p) && node in Overflow(cfg, p.key, cfg.w - |p.acked|))
  }

  function WithAck(cfg: Config, p: PutOp, node: NodeID): PutOp {
    if node in PrefList(cfg, p.key) then p.(acked := p.acked + {node}) else p.(overflow := p.overflow + {node})
  }

  ghost predicate Next(cfg: Config, s: State, step: Step, s': State) {
    match step
    case BeginPut(op, coordinator, key, value, context, ttl, now) =>
      && op !in s.puts && Fits(now + ttl) && ValidKey(key) && |value| <= MAX_VALUE
      && var x := PutSibling(coordinator, value, context, ttl, now);
         s' == s.(puts := s.puts[op := PutOp(key, coordinator, x, {}, {}, {}, Writing)])
    case BeginDelete(op, coordinator, key, context, now) =>
      && op !in s.puts && context != map[]
      && var x := DeleteSibling(coordinator, context, now);
         s' == s.(puts := s.puts[op := PutOp(key, coordinator, x, {}, {}, {}, Writing)])
    case ReplicaPut(op, node, now) =>
      && op in s.puts && s.puts[op].status == Writing
      && var p := s.puts[op];
         && Contacted(cfg, p, node) && !Responded(p, node)
         && exists db :: PutStep(cfg.crc, cfg.opts, DatabaseAt(s, node), p.key, Delivered(p, node, now), now, db)
              && s' == WithDatabase(s, node, db).(puts := s.puts[op := WithAck(cfg, p, node)])
    case ReplicaPutFails(op, node) =>
      && op in s.puts && s.puts[op].status == Writing
      && var p := s.puts[op];
         && Contacted(cfg, p, node) && !Responded(p, node)
         && s' == s.(puts := s.puts[op := p.(failed := p.failed + {node})])
    case ReturnPut(op) =>
      && op in s.puts && s.puts[op].status == Writing
      && var p := s.puts[op];
         && (forall n :: Contacted(cfg, p, n) ==> Responded(p, n))
         && var status := if |p.acked| + |p.overflow| >= cfg.w then Succeeded else NoQuorum;
            s' == s.(puts := s.puts[op := p.(status := status)])
    case BeginGet(op, coordinator, key) =>
      && op !in s.gets && ValidKey(key)
      && s' == s.(gets := s.gets[op := GetOp(key, coordinator, [], None)])
    case ReplicaGet(op, node, now) =>
      && op in s.gets && s.gets[op].outcome == None
      && var g := s.gets[op];
         && node in PrefList(cfg, g.key) && node !in Answered(g.answers)
         && s' == s.(gets := s.gets[op := g.(answers := g.answers + [Reported(cfg, s, node, g, now)])])
    case ReplicaGetFails(op, node) =>
      && op in s.gets && s.gets[op].outcome == None
      && var g := s.gets[op];
         && node in PrefList(cfg, g.key) && node !in Answered(g.answers)
         && s' == s.(gets := s.gets[op := g.(answers := g.answers + [NoAnswer(node)])])
    case ReturnGet(op) =>
      && op in s.gets && s.gets[op].outcome == None
      && var g := s.gets[op];
         s' == s.(gets := s.gets[op := g.(outcome := Some(ReadResult(cfg, g.answers)))])
    case Background(node, key, incoming, now) =>
      exists db ::
        PutStep(cfg.crc, cfg.opts, DatabaseAt(s, node), key, incoming, now, db) && s' == WithDatabase(s, node, db)
  }

  predicate AllLive(s: seq<Sibling>) {
    forall i :: 0 <= i < |s| ==> !s[i].tombstone
  }

  /** Identifiers without colons, nothing expires and no limit is reached. */
  predicate Mild(cfg: Config, s: State, step: Step) {
    match step
    case BeginPut(op, coordinator, key, value, context, ttl, now) => PlainClock(context) && PlainId(coordinator)
    case BeginDelete(op, coordinator, key, context, now) => PlainClock(context) && PlainId(coordinator)
    case ReplicaPut(op, node, now) =>
      op in s.puts ==>
        Quiet(StoredAt(cfg, s, node, s.puts[op].key), Delivered(s.puts[op], node, now), cfg.opts, now)
    case ReplicaGet(op, node, now) =>
      op in s.gets ==>
        forall i :: 0 <= i < |StoredAt(cfg, s, node, s.gets[op].key)| ==>
          !Expired(StoredAt(cfg, s, node, s.gets[op].key)[i], now)
    case Background(node, key, incoming, now) =>
      Plain(incoming) && Quiet(StoredAt(cfg, s, node, key), incoming, cfg.opts, now)
    case _ => true
  }

  /** Every clock that enters the cluster is one the decoder accepts. */
  predicate ReadableStep(step: Step) {
    match step
    case BeginPut(op, coordinator, key, value, context, ttl, now) => ReadableClock(Ticked(context, coordinator, now))
    case BeginDelete(op, coordinator, key, context, now) => ReadableClock(Ticked(context, coordinator, now))
    case Background(node, key, incoming, now) => ReadableClocks(incoming)
    case _ => true
  }

  /** The step brings no tombstone. */
  predicate LiveStep(step: Step) {
    !step.BeginDelete? && (step.Background? ==> AllLive(step.incoming))
  }

  ghost predicate MildStep(cfg: Config, s: State, step: Step, s': State) {
    Next(cfg, s, step, s') && Mild(cfg, s, step)
  }

  ghost predicate CalmStep(cfg: Config, s: State, step: Step, s': State) {
    MildStep(cfg, s, step, s') && ReadableStep(step)
  }

  ghost function MildSteps(cfg: Config): (State, Step, State) -> bool {
    (s, step, s') => MildStep(cfg, s, step, s')
  }

  ghost function CalmSteps(cfg: Config): (State, Step, State) -> bool {
    (s, step, s') => CalmStep(cfg, s, step, s')
  }

  ghost function LiveSteps(cfg: Config): (State, Step, State) -> bool {
    (s, step, s') => CalmStep(cfg, s, step, s') && LiveStep(step)
  }

  /** Whatever may happen. */
  ghost function AnySteps(cfg: Config): (State, Step, State) -> bool {
    (s, step, s') => Next(cfg, s, step, s')
  }

  const INITIAL: State := State(map[], map[], map[])

  /** A calm run from the empty cluster; `steps[i]` leads from `run[i]` to `run[i + 1]`. */
  ghost predicate CalmRun(cfg: Config, run: seq<State>, steps: seq<Step>) {
    Runs.IsRun(CalmSteps(cfg), run, steps) && run[0] == INITIAL
  }

  /** A calm run without deletes. */
  ghost predicate LiveRun(cfg: Config, run: seq<State>, steps: seq<Step>) {
    Runs.IsRun(LiveSteps(cfg), run, steps) && run[0] == INITIAL
  }

  lemma LiveRunIsCalm(cfg: Config, run: seq<State>, steps: seq<Step>)
    requires LiveRun(cfg, run, steps)
    ensures CalmRun(cfg, run, steps)
  {
    forall i | 0 <= i < |steps| ensures CalmSteps(cfg)(run[i], steps[i], run[i + 1]) {
      assert LiveSteps(cfg)(run[i], steps[i], run[i + 1]);
    }
  }

  // ----- the invariant -----

  /** Every record can be read, and written again. */
  ghost predicate StoresOk(cfg: Config, s: State) {
    forall n, key ::
      RecordAt(cfg, s, n, key).Ok? && Plain(StoredAt(cfg, s, n, key)) && ReadableClocks(StoredAt(cfg, s, n, key))
  }

  /** Every node that acknowledged a write covers its clock, and no node is counted twice. */
  ghost predicate PutOk(cfg: Config, s: State, p: PutOp) {
    && PlainClock(p.sibling.clock) && ReadableClock(p.sibling.clock)
    && (forall n :: n in p.acked ==> n in PrefList(cfg, p.key) && Covers(StoredAt(cfg, s, n, p.key), p.sibling.clock))
    && (forall n :: n in p.overflow ==>
          n !in PrefList(cfg, p.key) && Covers(StoredAt(cfg, s, n, p.key), p.sibling.clock))
    && (!cfg.sloppy ==> p.overflow == {})
    && (p.status == Succeeded ==> |p.acked| + |p.overflow| >= cfg.w)
  }

  ghost predicate PutsOk(cfg: Config, s: State) {
    forall op :: op in s.puts ==> PutOk(cfg, s, s.puts[op])
  }

  /** Replicas answer a read at most once each, and only members of the list answer. */
  ghost predicate AnswersOk(cfg: Config, g: GetOp) {
    && (forall i, j :: 0 <= i < j < |g.answers| ==> g.answers[i].node != g.answers[j].node)
    && (forall i :: 0 <= i < |g.answers| ==> g.answers[i].node in PrefList(cfg, g.key))
    && (g.outcome.Some? ==> g.outcome.value == ReadResult(cfg, g.answers))
  }

  ghost predicate Inv(cfg: Config, s: State) {
    StoresOk(cfg, s) && PutsOk(cfg, s) && forall op :: op in s.gets ==> AnswersOk(cfg, s.gets[op])
  }

  // ----- one replica write -----

  lemma RecordAfterWrite(cfg: Config, s: State, n: NodeID, key: Bytes, data: Bytes, m: NodeID, k: Bytes)
    ensures RecordAt(cfg, WithDatabase(s, n, DatabaseAt(s, n)[key := data]), m, k) ==
            if m == n && k == key then Decode(cfg.crc, data) else RecordAt(cfg, s, m, k)
  {
  }

  lemma ReconcileIsReadable(existing: seq<Sibling>, incoming: seq<Sibling>)
    requires Plain(existing) && Plain(incoming) && ReadableClocks(existing)
    ensures ReadableClocks(Reconcile(existing, incoming)) <==> ReadableClocks(incoming)
  {
    var r := Reconcile(existing, incoming);
    ReconcileFrom(existing, incoming);
    if ReadableClocks(incoming) {
      forall i | 0 <= i < |r| ensures ReadableClock(r[i].clock) {
        assert r[i] in r;
      }
    }
    if ReadableClocks(r) {
      forall i | 0 <= i < |incoming| ensures ReadableClock(incoming[i].clock) {
        ReconcileHoldsIncoming(existing, incoming, incoming[i]);
      }
    }
  }

  lemma ReconcileHoldsIncoming(existing: seq<Sibling>, incoming: seq<Sibling>, x: Sibling)
    requires Plain(existing) && Plain(incoming) && x in incoming
    ensures HoldsClock(Reconcile(existing, incoming), x.clock)
  {
    if existing != [] {
      ReconcileIsExact(existing, incoming, x.clock);
    }
  }

  /** An acknowledged write can be read back at the replica exactly when its clocks are ones the decoder accepts. */
  lemma AcknowledgedWriteReadsBackIff(cfg: Config, s: State, n: NodeID, key: Bytes, incoming: seq<Sibling>, now: Int64,
                                      db: Database)
    requires RecordAt(cfg, s, n, key).Ok? && Plain(StoredAt(cfg, s, n, key)) && ReadableClocks(StoredAt(cfg, s, n, key))
    requires Plain(incoming) && Quiet(StoredAt(cfg, s, n, key), incoming, cfg.opts, now)
    requires PutStep(cfg.crc, cfg.opts, DatabaseAt(s, n), key, incoming, now, db)
    ensures RecordAt(cfg, WithDatabase(s, n, db), n, key) ==
            if ReadableClocks(incoming) then Ok(Reconcile(StoredAt(cfg, s, n, key), incoming)) else Err
    ensures forall m, k :: m != n || k != key ==> RecordAt(cfg, WithDatabase(s, n, db), m, k) == RecordAt(cfg, s, m, k)
  {
    var existing := StoredAt(cfg, s, n, key);
    var r :| PutResult(existing, incoming, cfg.opts, now, r)
             && Encode(cfg.crc, r).Ok? && db == DatabaseAt(s, n)[key := Encode(cfg.crc, r).value];
    QuietPutReconciles(existing, incoming, cfg.opts, now, r);
    ReconcileIsReadable(existing, incoming);
    RecordRoundTrip(cfg.crc, r);
    forall m, k ensures RecordAt(cfg, WithDatabase(s, n, db), m, k) ==
                        if m == n && k == key then Decode(cfg.crc, Encode(cfg.crc, r).value) else RecordAt(cfg, s, m, k)
    {
      RecordAfterWrite(cfg, s, n, key, Encode(cfg.crc, r).value, m, k);
    }
  }

  /** A quiet write of readable clocks keeps what the replica covered and adds the cover of the write. */
  lemma WriteGrowsCover(cfg: Config, s: State, n: NodeID, key: Bytes, incoming: seq<Sibling>, now: Int64, db: Database)
    requires StoresOk(cfg, s) && Plain(incoming) && ReadableClocks(incoming)
    requires Quiet(StoredAt(cfg, s, n, key), incoming, cfg.opts, now)
    requires PutStep(cfg.crc, cfg.opts, DatabaseAt(s, n), key, incoming, now, db)
    ensures var r := RecordAt(cfg, WithDatabase(s, n, db), n, key);
            && r == Ok(Reconcile(StoredAt(cfg, s, n, key), incoming)) && Plain(r.value) && ReadableClocks(r.value)
            && forall c :: Covers(r.value, c) <==> Covers(StoredAt(cfg, s, n, key), c) || Covers(incoming, c)
  {
    var existing := StoredAt(cfg, s, n, key);
    AcknowledgedWriteReadsBackIff(cfg, s, n, key, incoming, now, db);
    ReconcileIsReadable(existing, incoming);
    ReconcileIsPlain(existing, incoming);
    forall c ensures Covers(Reconcile(existing, incoming), c) <==> Covers(existing, c) || Covers(incoming, c) {
      ReconcileCover(existing, incoming, c);
    }
  }

  /** Covers only grow along a write. */
  ghost predicate Grows(cfg: Config, s: State, s': State) {
    forall n, key, c :: Covers(StoredAt(cfg, s, n, key), c) ==> Covers(StoredAt(cfg, s', n, key), c)
  }

  lemma WriteKeepsStores(cfg: Config, s: State, n: NodeID, key: Bytes, incoming: seq<Sibling>, now: Int64, db: Database)
    requires StoresOk(cfg, s) && Plain(incoming) && ReadableClocks(incoming)
    requires Quiet(StoredAt(cfg, s, n, key), incoming, cfg.opts, now)
    requires PutStep(cfg.crc, cfg.opts, DatabaseAt(s, n), key, incoming, now, db)
    ensures StoresOk(cfg, WithDatabase(s, n, db)) && Grows(cfg, s, WithDatabase(s, n, db))
    ensures forall c :: Covers(incoming, c) ==> Covers(StoredAt(cfg, WithDatabase(s, n, db), n, key), c)
  {
    WriteGrowsCover(cfg, s, n, key, incoming, now, db);
    AcknowledgedWriteReadsBackIff(cfg, s, n, key, incoming, now, db);
    var s' := WithDatabase(s, n, db);
    forall m, k
      ensures RecordAt(cfg, s', m, k).Ok? && Plain(StoredAt(cfg, s', m, k)) && ReadableClocks(StoredAt(cfg, s', m, k))
    {
      assert m != n || k != key ==> RecordAt(cfg, s', m, k) == RecordAt(cfg, s, m, k);
    }
    forall m, k, c | Covers(StoredAt(cfg, s, m, k), c) ensures Covers(StoredAt(cfg, s', m, k), c) {
      assert m != n || k != key ==> RecordAt(cfg, s', m, k) == RecordAt(cfg, s, m, k);
    }
  }

  lemma DeliveredOk(cfg: Config, p: PutOp, node: NodeID, now: Int64)
    requires PlainClock(p.sibling.clock)
    ensures Plain(Delivered(p, node, now)) && Covers(Delivered(p, node, now), p.sibling.clock)
    ensures ReadableClocks(Delivered(p, node, now)) <==> ReadableClock(p.sibling.clock)
  {
    RestampedCounters(p.sibling.clock, now);
    RestampedIsReadable(p.sibling.clock, now);
    CoveredBy(Delivered(p, node, now), 0, p.sibling.clock);
  }

  // ----- every step keeps the invariant -----

  lemma PutsStayOk(cfg: Config, s: State, s': State)
    requires PutsOk(cfg, s) && Grows(cfg, s, s')
    ensures forall op :: op in s.puts ==> PutOk(cfg, s', s.puts[op])
  {
  }

  lemma AckKeepsPutOk(cfg: Config, t: State, p: PutOp, node: NodeID)
    requires PutOk(cfg, t, p) && Contacted(cfg, p, node) && p.status == Writing
    requires Covers(StoredAt(cfg, t, node, p.key), p.sibling.clock)
    ensures PutOk(cfg, t, WithAck(cfg, p, node))
  {
  }

  lemma SameReplicas(cfg: Config, s: State, s': State)
    requires s.replicas == s'.replicas
    ensures forall n, key :: RecordAt(cfg, s', n, key) == RecordAt(cfg, s, n, key)
    ensures StoresOk(cfg, s) ==> StoresOk(cfg, s')
    ensures forall p: PutOp :: PutOk(cfg, s, p) ==> PutOk(cfg, s', p)
  {
    forall n, key ensures RecordAt(cfg, s', n, key) == RecordAt(cfg, s, n, key) {
    }
    forall p: PutOp | PutOk(cfg, s, p) ensures PutOk(cfg, s', p) {
      assert forall n :: StoredAt(cfg, s', n, p.key) == StoredAt(cfg, s, n, p.key);
    }
  }

  lemma OnePutChanged(cfg: Config, s: State, op: OpId, p: PutOp)
    requires Inv(cfg, s) && PutOk(cfg, s, p)
    ensures Inv(cfg, s.(puts := s.puts[op := p]))
  {
    SameReplicas(cfg, s, s.(puts := s.puts[op := p]));
  }

  lemma OneGetChanged(cfg: Config, s: State, op: OpId, g: GetOp)
    requires Inv(cfg, s) && AnswersOk(cfg, g)
    ensures Inv(cfg, s.(gets := s.gets[op := g]))
  {
    SameReplicas(cfg, s, s.(gets := s.gets[op := g]));
  }

  /** The storage step behind a replica write. */
  lemma WriteOf(cfg: Config, s: State, op: OpId, node: NodeID, now: Int64, s': State) returns (db: Database)
    requires CalmStep(cfg, s, ReplicaPut(op, node, now), s')
    ensures op in s.puts
    ensures var p := s.puts[op];
            && p.status == Writing && Contacted(cfg, p, node)
            && PutStep(cfg.crc, cfg.opts, DatabaseAt(s, node), p.key, Delivered(p, node, now), now, db)
            && Quiet(StoredAt(cfg, s, node, p.key), Delivered(p, node, now), cfg.opts, now)
            && s' == WithDatabase(s, node, db).(puts := s.puts[op := WithAck(cfg, p, node)])
  {
    var p := s.puts[op];
    db :| PutStep(cfg.crc, cfg.opts, DatabaseAt(s, node), p.key, Delivered(p, node, now), now, db)
          && s' == WithDatabase(s, node, db).(puts := s.puts[op := WithAck(cfg, p, node)]);
  }

  lemma ReplicaPutKeepsInv(cfg: Config, s: State, op: OpId, node: NodeID, now: Int64, s': State)
    requires Inv(cfg, s)
    requires CalmStep(cfg, s, ReplicaPut(op, node, now), s')
    ensures Inv(cfg, s') && Grows(cfg, s, s')
  {
    var p := s.puts[op];
    var d, p' := Delivered(p, node, now), WithAck(cfg, p, node);
    var db := WriteOf(cfg, s, op, node, now, s');
    var t := WithDatabase(s, node, db);
    assert PutOk(cfg, s, p);
    DeliveredOk(cfg, p, node, now);
    WriteKeepsStores(cfg, s, node, p.key, d, now, db);
    PutsStayOk(cfg, s, t);
    AckKeepsPutOk(cfg, t, p, node);
    OnePutChanged(cfg, t, op, p');
    SameReplicas(cfg, t, s');
  }

  lemma BackgroundKeepsInv(cfg: Config, s: State, node: NodeID, key: Bytes, incoming: seq<Sibling>, now: Int64,
                           s': State)
    requires Inv(cfg, s)
    requires CalmStep(cfg, s, Background(node, key, incoming, now), s')
    ensures Inv(cfg, s') && Grows(cfg, s, s')
  {
    var db :|
      PutStep(cfg.crc, cfg.opts, DatabaseAt(s, node), key, incoming, now, db) && s' == WithDatabase(s, node, db);
    WriteKeepsStores(cfg, s, node, key, incoming, now, db);
    PutsStayOk(cfg, s, s');
  }

  lemma AnswerKeepsAnswers(cfg: Config, g: GetOp, a: Answer)
    requires AnswersOk(cfg, g) && g.outcome == None
    requires a.node in PrefList(cfg, g.key) && a.node !in Answered(g.answers)
    ensures AnswersOk(cfg, g.(answers := g.answers + [a]))
  {
    forall i | 0 <= i < |g.answers| ensures g.answers[i].node != a.node {
      assert g.answers[i].node in Answered(g.answers);
    }
  }

  lemma TickedIsPlain(c: Clock, n: NodeID, now: Int64)
    requires PlainClock(c) && PlainId(n)
    ensures PlainClock(Ticked(c, n, now))
  {
  }

  predicate OfWrite(step: Step) {
    step.BeginPut? || step.BeginDelete? || step.ReplicaPutFails? || step.ReturnPut?
  }

  lemma WriteShape(cfg: Config, s: State, step: Step, s': State)
    requires OfWrite(step) && Next(cfg, s, step, s')
    ensures step.op in s'.puts && s' == s.(puts := s.puts[step.op := s'.puts[step.op]])
  {
  }

  lemma WriteStaysOk(cfg: Config, s: State, step: Step, s': State)
    requires OfWrite(step) && CalmStep(cfg, s, step, s') && step.op in s'.puts
    requires step.op in s.puts ==> PutOk(cfg, s, s.puts[step.op])
    ensures PutOk(cfg, s, s'.puts[step.op])
  {
    if step.BeginPut? || step.BeginDelete? {
      TickedIsPlain(step.context, step.coordinator, step.now);
    }
  }

  lemma BookkeepingKeepsInv(cfg: Config, s: State, step: Step, s': State)
    requires OfWrite(step) && Inv(cfg, s) && CalmStep(cfg, s, step, s')
    ensures Inv(cfg, s') && Grows(cfg, s, s')
  {
    WriteShape(cfg, s, step, s');
    WriteStaysOk(cfg, s, step, s');
    OnePutChanged(cfg, s, step.op, s'.puts[step.op]);
    SameReplicas(cfg, s, s');
  }

  predicate OfRead(step: Step) {
    step.BeginGet? || step.ReplicaGet? || step.ReplicaGetFails? || step.ReturnGet?
  }

  lemma ReadShape(cfg: Config, s: State, step: Step, s': State)
    requires OfRead(step) && Next(cfg, s, step, s')
    ensures step.op in s'.gets && s' == s.(gets := s.gets[step.op := s'.gets[step.op]])
  {
  }

  lemma ReadStaysOk(cfg: Config, s: State, step: Step, s': State)
    requires OfRead(step) && Next(cfg, s, step, s') && step.op in s'.gets
    requires step.op in s.gets ==> AnswersOk(cfg, s.gets[step.op])
    ensures AnswersOk(cfg, s'.gets[step.op])
  {
    if step.ReplicaGet? {
      AnswerKeepsAnswers(cfg, s.gets[step.op], Reported(cfg, s, step.node, s.gets[step.op], step.now));
    } else if step.ReplicaGetFails? {
      AnswerKeepsAnswers(cfg, s.gets[step.op], NoAnswer(step.node));
    }
  }

  lemma ReadKeepsInv(cfg: Config, s: State, step: Step, s': State)
    requires OfRead(step) && Inv(cfg, s) && Next(cfg, s, step, s')
    ensures Inv(cfg, s') && Grows(cfg, s, s')
  {
    ReadShape(cfg, s, step, s');
    ReadStaysOk(cfg, s, step, s');
    OneGetChanged(cfg, s, step.op, s'.gets[step.op]);
    SameReplicas(cfg, s, s');
  }

  lemma StepKeepsInv(cfg: Config, s: State, step: Step, s': State)
    requires Inv(cfg, s) && CalmStep(cfg, s, step, s')
    ensures Inv(cfg, s') && Grows(cfg, s, s')
  {
    if OfWrite(step) {
      BookkeepingKeepsInv(cfg, s, step, s');
    } else if OfRead(step) {
      ReadKeepsInv(cfg, s, step, s');
    } else if step.ReplicaPut? {
      ReplicaPutKeepsInv(cfg, s, step.op, step.node, step.now, s');
    } else {
      BackgroundKeepsInv(cfg, s, step.node, step.key, step.incoming, step.now, s');
    }
  }

  lemma InitialInv(cfg: Config)
    ensures Inv(cfg, INITIAL)
  {
  }

  lemma RunKeepsInv(cfg: Config, run: seq<State>, steps: seq<Step>, i: nat)
    requires CalmRun(cfg, run, steps) && i < |run|
    ensures Inv(cfg, run[i])
  {
    var inv := s => Inv(cfg, s);
    forall s, step, s' | inv(s) && CalmSteps(cfg)(s, step, s') ensures inv(s') {
      StepKeepsInv(cfg, s, step, s');
    }
    InitialInv(cfg);
    Runs.HoldsFrom(CalmSteps(cfg), inv, run, steps, 0, i);
  }

  // ----- what holds of every sibling that enters holds of every sibling that is stored or answered -----

  /** A property of siblings of a key. */
  type Test = (Bytes, Sibling) -> bool

  /** The property survives the wire. */
  ghost predicate Travels(good: Test) {
    forall key, x, now :: good(key, x) ==> good(key, Sent(x, now))
  }

  predicate AllPass(good: Test, key: Bytes, s: seq<Sibling>) {
    forall i :: 0 <= i < |s| ==> good(key, s[i])
  }

  /** Every sibling that the step brings into the cluster has the property. */
  predicate Brings(good: Test, step: Step) {
    match step
    case BeginPut(op, coordinator, key, value, context, ttl, now) =>
      Fits(now + ttl) ==> good(key, PutSibling(coordinator, value, context, ttl, now))
    case BeginDelete(op, coordinator, key, context, now) => good(key, DeleteSibling(coordinator, context, now))
    case Background(node, key, incoming, now) => AllPass(good, key, incoming)
    case _ => true
  }

  ghost predicate StoresPass(cfg: Config, s: State, good: Test) {
    forall n, key :: AllPass(good, key, StoredAt(cfg, s, n, key))
  }

  ghost predicate AnswersPass(good: Test, g: GetOp) {
    forall i :: 0 <= i < |g.answers| && g.answers[i].Answer? ==> AllPass(good, g.key, g.answers[i].siblings)
  }

  ghost predicate Everywhere(cfg: Config, s: State, good: Test) {
    && StoresPass(cfg, s, good)
    && (forall op :: op in s.puts ==> good(s.puts[op].key, s.puts[op].sibling))
    && (forall op :: op in s.gets ==> AnswersPass(good, s.gets[op]))
  }

  lemma ReconcilePasses(good: Test, key: Bytes, existing: seq<Sibling>, incoming: seq<Sibling>)
    requires AllPass(good, key, existing) && AllPass(good, key, incoming)
    ensures AllPass(good, key, Reconcile(existing, incoming))
  {
    ReconcileFrom(existing, incoming);
    var r := Reconcile(existing, incoming);
    forall i | 0 <= i < |r| ensures good(key, r[i]) {
      assert r[i] in r;
    }
  }

  lemma WritePasses(cfg: Config, s: State, good: Test, n: NodeID, key: Bytes, incoming: seq<Sibling>, now: Int64,
                    db: Database)
    requires StoresOk(cfg, s) && StoresPass(cfg, s, good)
    requires Plain(incoming) && ReadableClocks(incoming) && AllPass(good, key, incoming)
    requires Quiet(StoredAt(cfg, s, n, key), incoming, cfg.opts, now)
    requires PutStep(cfg.crc, cfg.opts, DatabaseAt(s, n), key, incoming, now, db)
    ensures StoresPass(cfg, WithDatabase(s, n, db), good)
  {
    AcknowledgedWriteReadsBackIff(cfg, s, n, key, incoming, now, db);
    ReconcilePasses(good, key, StoredAt(cfg, s, n, key), incoming);
    forall m, k ensures AllPass(good, k, StoredAt(cfg, WithDatabase(s, n, db), m, k)) {
      assert m != n || k != key ==> RecordAt(cfg, WithDatabase(s, n, db), m, k) == RecordAt(cfg, s, m, k);
    }
  }

  lemma SameStoresPass(cfg: Config, s: State, s': State, good: Test)
    requires s.replicas == s'.replicas && StoresPass(cfg, s, good)
    ensures StoresPass(cfg, s', good)
  {
    forall n, key ensures AllPass(good, key, StoredAt(cfg, s', n, key)) {
      assert StoredAt(cfg, s', n, key) == StoredAt(cfg, s, n, key);
    }
  }

  lemma ReplicaPutPasses(cfg: Config, s: State, good: Test, p: PutOp, node: NodeID, now: Int64, db: Database)
    requires StoresOk(cfg, s) && StoresPass(cfg, s, good) && PutOk(cfg, s, p)
    requires Travels(good) && good(p.key, p.sibling)
    requires Quiet(StoredAt(cfg, s, node, p.key), Delivered(p, node, now), cfg.opts, now)
    requires PutStep(cfg.crc, cfg.opts, DatabaseAt(s, node), p.key, Delivered(p, node, now), now, db)
    ensures StoresPass(cfg, WithDatabase(s, node, db), good)
  {
    DeliveredOk(cfg, p, node, now);
    assert good(p.key, Sent(p.sibling, now));
    WritePasses(cfg, s, good, node, p.key, Delivered(p, node, now), now, db);
  }

  lemma BackgroundPasses(cfg: Config, s: State, good: Test, node: NodeID, key: Bytes, incoming: seq<Sibling>,
                         now: Int64, s': State)
    requires Inv(cfg, s) && StoresPass(cfg, s, good) && AllPass(good, key, incoming)
    requires CalmStep(cfg, s, Background(node, key, incoming, now), s')
    ensures StoresPass(cfg, s', good)
  {
    var db :|
      PutStep(cfg.crc, cfg.opts, DatabaseAt(s, node), key, incoming, now, db) && s' == WithDatabase(s, node, db);
    WritePasses(cfg, s, good, node, key, incoming, now, db);
  }

  lemma StoresStayGood(cfg: Config, s: State, good: Test, step: Step, s': State)
    requires Inv(cfg, s) && Everywhere(cfg, s, good) && Travels(good)
    requires CalmStep(cfg, s, step, s') && Brings(good, step)
    ensures StoresPass(cfg, s', good)
  {
    if step.ReplicaPut? {
      var db := WriteOf(cfg, s, step.op, step.node, step.now, s');
      ReplicaPutPasses(cfg, s, good, s.puts[step.op], step.node, step.now, db);
      SameStoresPass(cfg, WithDatabase(s, step.node, db), s', good);
    } else if step.Background? {
      BackgroundPasses(cfg, s, good, step.node, step.key, step.incoming, step.now, s');
    } else {
      SameStoresPass(cfg, s, s', good);
    }
  }

  lemma PutsStayGood(cfg: Config, s: State, good: Test, step: Step, s': State, op: OpId)
    requires Next(cfg, s, step, s') && Brings(good, step) && op in s'.puts
    requires op in s.puts ==> good(s.puts[op].key, s.puts[op].sibling)
    ensures good(s'.puts[op].key, s'.puts[op].sibling)
  {
  }

  lemma ReportPasses(cfg: Config, s: State, good: Test, n: NodeID, g: GetOp, now: Int64)
    requires Travels(good) && AllPass(good, g.key, StoredAt(cfg, s, n, g.key))
    ensures var a := Reported(cfg, s, n, g, now);
            a.Answer? ==> AllPass(good, g.key, a.siblings)
  {
    var stored := StoredAt(cfg, s, n, g.key);
    var kept, live := Unexpired(stored, now), Live(stored);
    UnexpiredFrom(stored, now);
    FilterMembers(NotTombstone, stored);
    forall i | 0 <= i < |kept| ensures good(g.key, kept[i]) {
      assert kept[i] in kept;
    }
    forall i | 0 <= i < |live| ensures good(g.key, Sent(live[i], now)) {
      assert live[i] in live;
    }
  }

  lemma AnswersStayGood(cfg: Config, s: State, good: Test, step: Step, s': State, op: OpId)
    requires StoresPass(cfg, s, good) && Travels(good) && Next(cfg, s, step, s') && op in s'.gets
    requires op in s.gets ==> AnswersPass(good, s.gets[op])
    ensures AnswersPass(good, s'.gets[op])
  {
    if step.ReplicaGet? && step.op == op {
      ReportPasses(cfg, s, good, step.node, s.gets[op], step.now);
      OneMorePasses(good, s.gets[op], Reported(cfg, s, step.node, s.gets[op], step.now));
    } else if step.ReplicaGetFails? && step.op == op {
      OneMorePasses(good, s.gets[op], NoAnswer(step.node));
    }
  }

  lemma OneMorePasses(good: Test, g: GetOp, a: Answer)
    requires AnswersPass(good, g) && (a.Answer? ==> AllPass(good, g.key, a.siblings))
    ensures AnswersPass(good, g.(answers := g.answers + [a]))
  {
  }

  lemma StepKeepsGood(cfg: Config, s: State, good: Test, step: Step, s': State)
    requires Inv(cfg, s) && Everywhere(cfg, s, good) && Travels(good)
    requires CalmStep(cfg, s, step, s') && Brings(good, step)
    ensures Everywhere(cfg, s', good)
  {
    StoresStayGood(cfg, s, good, step, s');
    forall op | op in s'.puts ensures good(s'.puts[op].key, s'.puts[op].sibling) {
      PutsStayGood(cfg, s, good, step, s', op);
    }
    forall op | op in s'.gets ensures AnswersPass(good, s'.gets[op]) {
      AnswersStayGood(cfg, s, good, step, s', op);
    }
  }

  /** A run whose steps bring only siblings with the property has it everywhere and always. */
  lemma RunKeepsGood(cfg: Config, good: Test, run: seq<State>, steps: seq<Step>, i: nat)
    requires CalmRun(cfg, run, steps) && i < |run| && Travels(good)
    requires forall k :: 0 <= k < |steps| ==> Brings(good, steps[k])
    ensures Inv(cfg, run[i]) && Everywhere(cfg, run[i], good)
  {
    var next := (s, step, s') => CalmStep(cfg, s, step, s') && Brings(good, step);
    var inv := s => Inv(cfg, s) && Everywhere(cfg, s, good);
    forall s, step, s' | inv(s) && next(s, step, s') ensures inv(s') {
      StepKeepsInv(cfg, s, step, s');
      StepKeepsGood(cfg, s, good, step, s');
    }
    forall k | 0 <= k < |steps| ensures next(run[k], steps[k], run[k + 1]) {
      assert CalmSteps(cfg)(run[k], steps[k], run[k + 1]);
    }
    InitialInv(cfg);
    Runs.HoldsFrom(next, inv, run, steps, 0, i);
  }

  // ----- no tombstone appears without a delete -----

  function NotDeleted(): Test {
    (key: Bytes, x: Sibling) => !x.tombstone
  }

  ghost predicate NoTombstones(cfg: Config, s: State) {
    Everywhere(cfg, s, NotDeleted())
  }

  lemma LiveStepBrings(step: Step)
    requires LiveStep(step)
    ensures Brings(NotDeleted(), step)
  {
  }

  lemma PassingIsLive(key: Bytes, s: seq<Sibling>)
    requires AllPass(NotDeleted(), key, s)
    ensures AllLive(s)
  {
    forall i | 0 <= i < |s| ensures !s[i].tombstone {
      assert NotDeleted()(key, s[i]);
    }
  }

  lemma NothingStoredIsDeleted(cfg: Config, s: State, n: NodeID, key: Bytes)
    requires NoTombstones(cfg, s)
    ensures AllLive(StoredAt(cfg, s, n, key))
  {
    PassingIsLive(key, StoredAt(cfg, s, n, key));
  }

  lemma StepStaysLive(cfg: Config, s: State, step: Step, s': State)
    requires Inv(cfg, s) && NoTombstones(cfg, s) && CalmStep(cfg, s, step, s') && LiveStep(step)
    ensures NoTombstones(cfg, s')
  {
    LiveStepBrings(step);
    StepKeepsGood(cfg, s, NotDeleted(), step, s');
  }

  lemma LiveIsAll(s: seq<Sibling>)
    requires AllLive(s)
    ensures Live(s) == s
  {
    FilterKeepsAll(NotTombstone, s);
  }

  // ----- answers given after a write -----

  /** The answers that are sure to show what the node covers: all of them, or with tombstones about, the coordinator's
      own. */
  predicate Trusted(g: GetOp, nodes: set<NodeID>, raw: bool, a: Answer) {
    a.Answer? && a.node in nodes && (raw ==> a.node == g.coordinator)
  }

  /** Every trusted answer to the read from one of the nodes covers the clock. */
  ghost predicate GetCovers(g: GetOp, c: Clock, nodes: set<NodeID>, raw: bool) {
    forall i :: 0 <= i < |g.answers| && Trusted(g, nodes, raw, g.answers[i]) ==> Covers(g.answers[i].siblings, c)
  }

  ghost predicate AnswersCover(s: State, key: Bytes, c: Clock, nodes: set<NodeID>, raw: bool, get: OpId) {
    get in s.gets && s.gets[get].key == key ==> GetCovers(s.gets[get], c, nodes, raw)
  }

  lemma OneAnswerCovers(g: GetOp, a: Answer, c: Clock, nodes: set<NodeID>, raw: bool)
    requires GetCovers(g, c, nodes, raw) && (Trusted(g, nodes, raw, a) ==> Covers(a.siblings, c))
    ensures GetCovers(g.(answers := g.answers + [a]), c, nodes, raw)
  {
    var g' := g.(answers := g.answers + [a]);
    forall i | 0 <= i < |g'.answers| && Trusted(g', nodes, raw, g'.answers[i])
      ensures Covers(g'.answers[i].siblings, c)
    {
      if i < |g.answers| {
        assert Trusted(g, nodes, raw, g.answers[i]);
      } else {
        assert Trusted(g, nodes, raw, a);
      }
    }
  }

  /** A report covers whatever the replica covers, unless it hides a tombstone. */
  lemma ReportCovers(cfg: Config, s: State, n: NodeID, g: GetOp, now: Int64, c: Clock)
    requires RecordAt(cfg, s, n, g.key).Ok? && Covers(StoredAt(cfg, s, n, g.key), c)
    requires forall i :: 0 <= i < |StoredAt(cfg, s, n, g.key)| ==> !Expired(StoredAt(cfg, s, n, g.key)[i], now)
    requires n == g.coordinator || AllLive(StoredAt(cfg, s, n, g.key))
    ensures Reported(cfg, s, n, g, now).Answer? && Covers(Reported(cfg, s, n, g, now).siblings, c)
  {
    NothingExpired(StoredAt(cfg, s, n, g.key), now);
    if n != g.coordinator {
      LiveIsAll(StoredAt(cfg, s, n, g.key));
      SentAllCovers(StoredAt(cfg, s, n, g.key), now, c);
    }
  }

  lemma ReplicaGetKeepsCovering(cfg: Config, s: State, op: OpId, node: NodeID, now: Int64, s': State,
                                key: Bytes, c: Clock, nodes: set<NodeID>, raw: bool, get: OpId)
    requires StoresOk(cfg, s) && CalmStep(cfg, s, ReplicaGet(op, node, now), s')
    requires node in nodes ==> Covers(StoredAt(cfg, s, node, key), c) && (raw || AllLive(StoredAt(cfg, s, node, key)))
    requires AnswersCover(s, key, c, nodes, raw, get)
    ensures AnswersCover(s', key, c, nodes, raw, get)
  {
    if op == get && s.gets[get].key == key {
      var g := s.gets[get];
      var a := Reported(cfg, s, node, g, now);
      if Trusted(g, nodes, raw, a) {
        ReportCovers(cfg, s, node, g, now, c);
      }
      OneAnswerCovers(g, a, c, nodes, raw);
    }
  }

  lemma OtherStepKeepsCovering(cfg: Config, s: State, step: Step, s': State, key: Bytes, c: Clock, nodes: set<NodeID>,
                               raw: bool, get: OpId)
    requires !step.ReplicaGet? && CalmStep(cfg, s, step, s') && AnswersCover(s, key, c, nodes, raw, get)
    ensures AnswersCover(s', key, c, nodes, raw, get)
  {
  }

  /** The nodes cover the clock, and so does every trusted answer from them. */
  ghost predicate Reliable(cfg: Config, s: State, key: Bytes, c: Clock, nodes: set<NodeID>, raw: bool, get: OpId) {
    && Inv(cfg, s) && (raw || NoTombstones(cfg, s))
    && (forall n :: n in nodes ==> Covers(StoredAt(cfg, s, n, key), c))
    && AnswersCover(s, key, c, nodes, raw, get)
  }

  lemma StepKeepsReliable(cfg: Config, s: State, step: Step, s': State, key: Bytes, c: Clock, nodes: set<NodeID>,
                          raw: bool, get: OpId)
    requires Reliable(cfg, s, key, c, nodes, raw, get) && CalmStep(cfg, s, step, s') && (raw || LiveStep(step))
    ensures Reliable(cfg, s', key, c, nodes, raw, get)
  {
    StepKeepsInv(cfg, s, step, s');
    if !raw {
      StepStaysLive(cfg, s, step, s');
    }
    if step.ReplicaGet? {
      if !raw {
        NothingStoredIsDeleted(cfg, s, step.node, key);
      }
      ReplicaGetKeepsCovering(cfg, s, step.op, step.node, step.now, s', key, c, nodes, raw, get);
    } else {
      OtherStepKeepsCovering(cfg, s, step, s', key, c, nodes, raw, get);
    }
  }

  lemma LiveRunStaysLive(cfg: Config, run: seq<State>, steps: seq<Step>, i: nat)
    requires LiveRun(cfg, run, steps) && i < |run|
    ensures Inv(cfg, run[i]) && NoTombstones(cfg, run[i])
  {
    LiveRunIsCalm(cfg, run, steps);
    forall k | 0 <= k < |steps| ensures Brings(NotDeleted(), steps[k]) {
      assert LiveSteps(cfg)(run[k], steps[k], run[k + 1]);
      LiveStepBrings(steps[k]);
    }
    RunKeepsGood(cfg, NotDeleted(), run, steps, i);
  }

  /** In a live run every later answer from a node that covers a clock covers it. */
  lemma RunKeepsReliable(cfg: Config, run: seq<State>, steps: seq<Step>, j: nat, i: nat, key: Bytes, c: Clock,
                         nodes: set<NodeID>, get: OpId)
    requires LiveRun(cfg, run, steps) && j <= i < |run| && get !in run[j].gets
    requires forall n :: n in nodes ==> Covers(StoredAt(cfg, run[j], n, key), c)
    ensures Reliable(cfg, run[i], key, c, nodes, false, get)
  {
    var inv := s => Reliable(cfg, s, key, c, nodes, false, get);
    forall s, step, s' | inv(s) && LiveSteps(cfg)(s, step, s') ensures inv(s') {
      StepKeepsReliable(cfg, s, step, s', key, c, nodes, false, get);
    }
    LiveRunStaysLive(cfg, run, steps, j);
    Runs.HoldsFrom(LiveSteps(cfg), inv, run, steps, j, i);
  }

  /** With deletes about, the same holds of the answers the coordinator of the read gives itself. */
  lemma RunKeepsRawReliable(cfg: Config, run: seq<State>, steps: seq<Step>, j: nat, i: nat, key: Bytes, c: Clock,
                            nodes: set<NodeID>, get: OpId)
    requires CalmRun(cfg, run, steps) && j <= i < |run| && get !in run[j].gets
    requires forall n :: n in nodes ==> Covers(StoredAt(cfg, run[j], n, key), c)
    ensures Reliable(cfg, run[i], key, c, nodes, true, get)
  {
    var inv := s => Reliable(cfg, s, key, c, nodes, true, get);
    forall s, step, s' | inv(s) && CalmSteps(cfg)(s, step, s') ensures inv(s') {
      StepKeepsReliable(cfg, s, step, s', key, c, nodes, true, get);
    }
    RunKeepsInv(cfg, run, steps, j);
    Runs.HoldsFrom(CalmSteps(cfg), inv, run, steps, j, i);
  }

  // ----- quorum intersection -----

  lemma {:induction false} ElementsBound<T>(s: seq<T>)
    ensures |Elements(s)| <= |s|
  {
    if s != [] {
      var n := |s| - 1;
      ElementsBound(s[..n]);
      assert s == s[..n] + [s[n]];
      assert Elements(s) == Elements(s[..n]) + {s[n]};
    }
  }

  lemma SubsetSize<T>(a: set<T>, b: set<T>)
    requires a <= b
    ensures |a| <= |b|
  {
    assert b == a + (b - a);
    assert |b| == |a| + |b - a|;
  }

  /** Two subsets of the list that together outnumber it share a member. */
  lemma QuorumsIntersect<T>(list: seq<T>, a: set<T>, b: set<T>)
    requires a <= Elements(list) && b <= Elements(list) && |a| + |b| > |list|
    ensures exists n :: n in a && n in b
  {
    ElementsBound(list);
    if a * b == {} {
      assert |a + b| == |a| + |b|;
      SubsetSize(a + b, Elements(list));
    } else {
      var n :| n in a * b;
    }
  }

  lemma {:induction false} RespondersCount(answers: seq<Answer>)
    requires forall i, j :: 0 <= i < j < |answers| ==> answers[i].node != answers[j].node
    ensures |Responders(answers)| == Successes(answers)
  {
    if answers != [] {
      var n := |answers| - 1;
      var rest := answers[..n];
      RespondersCount(rest);
      assert forall i :: 0 <= i < n ==> rest[i] == answers[i];
      if answers[n].Answer? {
        assert Responders(answers) == Responders(rest) + {answers[n].node};
        assert answers[n].node !in Responders(rest);
      } else {
        assert Responders(answers) == Responders(rest);
      }
    }
  }

  lemma {:induction false} AnswerIsMerged(answers: seq<Answer>, i: nat, c: Clock)
    requires i < |answers| && answers[i].Answer? && Covers(answers[i].siblings, c)
    ensures Covers(AllSiblings(answers), c)
  {
    var n := |answers| - 1;
    var rest, last := AllSiblings(answers[..n]), if answers[n].Answer? then answers[n].siblings else [];
    if i < n {
      AnswerIsMerged(answers[..n], i, c);
      var k :| 0 <= k < |rest| && Leq(c, rest[k].clock);
      CoveredBy(rest + last, k, c);
    } else {
      var k :| 0 <= k < |last| && Leq(c, last[k].clock);
      assert (rest + last)[|rest| + k] == last[k];
      CoveredBy(rest + last, |rest| + k, c);
    }
  }

  lemma {:induction false} AllSiblingsPass(good: Test, key: Bytes, answers: seq<Answer>)
    requires forall i :: 0 <= i < |answers| && answers[i].Answer? ==> AllPass(good, key, answers[i].siblings)
    ensures AllPass(good, key, AllSiblings(answers))
  {
    if answers != [] {
      AllSiblingsPass(good, key, answers[..|answers| - 1]);
    }
  }

  /** A read of live answers that covers a clock shows the client a version at or after it. */
  lemma CoveredReadIsFound(cfg: Config, answers: seq<Answer>, c: Clock)
    requires Successes(answers) >= cfg.r && AllLive(AllSiblings(answers)) && Covers(AllSiblings(answers), c)
    ensures ReadResult(cfg, answers).Found? && Covers(ReadResult(cfg, answers).siblings, c)
  {
    var all := AllSiblings(answers);
    var m := Maximal(all);
    MaximalCover(all, c);
    MaximalIsAntichain(all);
    forall i | 0 <= i < |m| ensures !m[i].tombstone {
      assert m[i] in m;
    }
    LiveIsAll(m);
  }

  lemma SomeAckedReplicaAnswered(cfg: Config, s: State, p: PutOp, g: GetOp) returns (i: nat)
    requires PutOk(cfg, s, p) && AnswersOk(cfg, g) && p.key == g.key
    requires |p.acked| + cfg.r > |PrefList(cfg, p.key)| && Successes(g.answers) >= cfg.r
    ensures i < |g.answers| && g.answers[i].Answer? && g.answers[i].node in p.acked
  {
    var list := PrefList(cfg, g.key);
    RespondersCount(g.answers);
    QuorumsIntersect(list, p.acked, Responders(g.answers));
    var n :| n in p.acked && n in Responders(g.answers);
    i :| 0 <= i < |g.answers| && g.answers[i].Answer? && g.answers[i].node == n;
  }

  /** A write returned success by state `j`, and a read of its key that starts later got enough answers by state `i`. */
  ghost predicate ReadAfterWrite(cfg: Config, run: seq<State>, j: nat, i: nat, put: OpId, get: OpId) {
    && j <= i < |run|
    && put in run[j].puts && run[j].puts[put].status == Succeeded && get !in run[j].gets
    && get in run[i].gets && run[i].gets[get].key == run[j].puts[put].key
    && run[i].gets[get].outcome.Some? && !run[i].gets[get].outcome.value.TooFewAnswers?
  }

  /** The read found a version at or after the written clock. */
  ghost predicate Met(run: seq<State>, j: nat, i: nat, put: OpId, get: OpId)
    requires j < |run| && i < |run| && put in run[j].puts && get in run[i].gets
  {
    && run[i].gets[get].outcome.Some? && run[i].gets[get].outcome.value.Found?
    && Covers(run[i].gets[get].outcome.value.siblings, run[j].puts[put].sibling.clock)
  }

  lemma AckedAnswersCover(cfg: Config, s: State, p: PutOp, g: GetOp)
    requires PutOk(cfg, s, p) && AnswersOk(cfg, g) && p.key == g.key
    requires |p.acked| + cfg.r > |PrefList(cfg, p.key)| && Successes(g.answers) >= cfg.r
    requires GetCovers(g, p.sibling.clock, p.acked, false)
    ensures Covers(AllSiblings(g.answers), p.sibling.clock)
  {
    var k := SomeAckedReplicaAnswered(cfg, s, p, g);
    assert Trusted(g, p.acked, false, g.answers[k]);
    AnswerIsMerged(g.answers, k, p.sibling.clock);
  }

  /** Some answer to the read covers the write, so what the read gathered does. */
  lemma GatheredCoversWrite(cfg: Config, run: seq<State>, steps: seq<Step>, j: nat, i: nat, put: OpId, get: OpId)
    requires LiveRun(cfg, run, steps) && ReadAfterWrite(cfg, run, j, i, put, get)
    requires |run[j].puts[put].acked| + cfg.r > |PrefList(cfg, run[j].puts[put].key)|
    ensures var answers := run[i].gets[get].answers;
            && run[i].gets[get].outcome == Some(ReadResult(cfg, answers)) && Successes(answers) >= cfg.r
            && Covers(AllSiblings(answers), run[j].puts[put].sibling.clock)
  {
    var p, g := run[j].puts[put], run[i].gets[get];
    LiveRunStaysLive(cfg, run, steps, j);
    assert PutOk(cfg, run[j], p);
    RunKeepsReliable(cfg, run, steps, j, i, p.key, p.sibling.clock, p.acked, get);
    AckedAnswersCover(cfg, run[j], p, g);
  }

  lemma GatheredIsLive(cfg: Config, run: seq<State>, steps: seq<Step>, i: nat, get: OpId)
    requires LiveRun(cfg, run, steps) && i < |run| && get in run[i].gets
    ensures AllLive(AllSiblings(run[i].gets[get].answers))
  {
    var g := run[i].gets[get];
    LiveRunStaysLive(cfg, run, steps, i);
    assert AnswersPass(NotDeleted(), g);
    AllSiblingsPass(NotDeleted(), g.key, g.answers);
    PassingIsLive(g.key, AllSiblings(g.answers));
  }

  /** A later read meets the write, strict or sloppy, when the members of the list that acknowledged it and `r`
      together outnumber the list. */
  lemma ReadMeetsWrite(cfg: Config, run: seq<State>, steps: seq<Step>, j: nat, i: nat, put: OpId, get: OpId)
    requires LiveRun(cfg, run, steps) && ReadAfterWrite(cfg, run, j, i, put, get)
    requires |run[j].puts[put].acked| + cfg.r > |PrefList(cfg, run[j].puts[put].key)|
    ensures Met(run, j, i, put, get)
  {
    GatheredCoversWrite(cfg, run, steps, j, i, put, get);
    GatheredIsLive(cfg, run, steps, i, get);
    CoveredReadIsFound(cfg, run[i].gets[get].answers, run[j].puts[put].sibling.clock);
  }

  /** Quorum safety: with strict quorums that overlap, in every live run, a read that starts after a write returned
      success and gets enough answers finds a version at or after the written clock. */
  lemma QuorumSafety(cfg: Config, run: seq<State>, steps: seq<Step>, j: nat, i: nat, put: OpId, get: OpId)
    requires Strong(cfg) && !cfg.sloppy
    requires LiveRun(cfg, run, steps) && ReadAfterWrite(cfg, run, j, i, put, get)
    ensures Met(run, j, i, put, get)
  {
    LiveRunIsCalm(cfg, run, steps);
    RunKeepsInv(cfg, run, steps, j);
    assert PutOk(cfg, run[j], run[j].puts[put]);
    ReadMeetsWrite(cfg, run, steps, j, i, put, get);
  }

  // ----- values -----

  /** A sibling of the key with these counters has this value. */
  function HasValue(key: Bytes, counters: map<NodeID, Uint64>, value: Bytes): Test {
    (k: Bytes, x: Sibling) => k == key && Counters(x.clock) == counters ==> x.value == value
  }

  lemma HasValueTravels(key: Bytes, counters: map<NodeID, Uint64>, value: Bytes)
    ensures Travels(HasValue(key, counters, value))
  {
    var good := HasValue(key, counters, value);
    forall k, x, now | good(k, x) ensures good(k, Sent(x, now)) {
      RestampedCounters(x.clock, now);
    }
  }

  /** The client sees the written value, or a version that happens after the write. */
  ghost predicate ShowsValue(run: seq<State>, j: nat, i: nat, put: OpId, get: OpId)
    requires j < |run| && i < |run| && put in run[j].puts && get in run[i].gets
  {
    var x := run[j].puts[put].sibling;
    && run[i].gets[get].outcome.Some? && run[i].gets[get].outcome.value.Found?
    && exists y :: y in run[i].gets[get].outcome.value.siblings &&
         (Compare(x.clock, y.clock) == Before || (Counters(y.clock) == Counters(x.clock) && y.value == x.value))
  }

  lemma ShownPasses(cfg: Config, good: Test, run: seq<State>, steps: seq<Step>, i: nat, get: OpId)
    requires CalmRun(cfg, run, steps) && i < |run| && get in run[i].gets && Travels(good)
    requires forall k :: 0 <= k < |steps| ==> Brings(good, steps[k])
    requires run[i].gets[get].outcome.Some? && run[i].gets[get].outcome.value.Found?
    ensures forall y :: y in run[i].gets[get].outcome.value.siblings ==> good(run[i].gets[get].key, y)
  {
    var g := run[i].gets[get];
    var all := AllSiblings(g.answers);
    RunKeepsGood(cfg, good, run, steps, i);
    assert AnswersOk(cfg, g) && AnswersPass(good, g);
    AllSiblingsPass(good, g.key, g.answers);
    MaximalIsAntichain(all);
    FilterMembers(NotTombstone, Maximal(all));
  }

  /** When no other sibling of the key enters with the written counters and another value, a read that meets the write
      shows the written value or a version that happens after it. */
  lemma MetReadShowsValue(cfg: Config, run: seq<State>, steps: seq<Step>, j: nat, i: nat, put: OpId, get: OpId)
    requires LiveRun(cfg, run, steps) && ReadAfterWrite(cfg, run, j, i, put, get) && Met(run, j, i, put, get)
    requires var p := run[j].puts[put];
             forall k :: 0 <= k < |steps| ==>
               Brings(HasValue(p.key, Counters(p.sibling.clock), p.sibling.value), steps[k])
    ensures ShowsValue(run, j, i, put, get)
  {
    var p, shown := run[j].puts[put], run[i].gets[get].outcome.value.siblings;
    var good := HasValue(p.key, Counters(p.sibling.clock), p.sibling.value);
    HasValueTravels(p.key, Counters(p.sibling.clock), p.sibling.value);
    LiveRunIsCalm(cfg, run, steps);
    ShownPasses(cfg, good, run, steps, i, get);
    var q :| 0 <= q < |shown| && Leq(p.sibling.clock, shown[q].clock);
    assert shown[q] in shown;
    EqualIffSameCounters(p.sibling.clock, shown[q].clock);
    assert good(p.key, shown[q]);
  }

  /** In every calm run, a write that returned success, strict or sloppy, is covered by readable records on at least
      `w` distinct nodes from then on. */
  lemma SucceededWriteIsDurable(cfg: Config, run: seq<State>, steps: seq<Step>, i: nat, put: OpId)
    returns (holders: set<NodeID>)
    requires CalmRun(cfg, run, steps) && i < |run|
    requires put in run[i].puts && run[i].puts[put].status == Succeeded
    ensures |holders| >= cfg.w
    ensures forall n :: n in holders ==>
              && RecordAt(cfg, run[i], n, run[i].puts[put].key).Ok?
              && Covers(RecordAt(cfg, run[i], n, run[i].puts[put].key).value, run[i].puts[put].sibling.clock)
  {
    RunKeepsInv(cfg, run, steps, i);
    var p := run[i].puts[put];
    assert PutOk(cfg, run[i], p);
    assert p.acked * p.overflow == {};
    holders := p.acked + p.overflow;
  }

  /** Nodes off the list have stored a write only when it is no delete, sloppy quorums are on, and the whole list
      responded with too few acknowledgements. */
  ghost predicate LastResort(cfg: Config, p: PutOp) {
    p.overflow != {} ==>
      && cfg.sloppy && !p.sibling.tombstone && |p.acked| < cfg.w
      && forall n :: n in PrefList(cfg, p.key) ==> n in p.acked || n in p.failed
  }

  ghost predicate AllLastResort(cfg: Config, s: State) {
    forall op :: op in s.puts ==> LastResort(cfg, s.puts[op]) && ListApart(cfg, s.puts[op])
  }

  /** Overflow nodes are not on the list. */
  ghost predicate ListApart(cfg: Config, p: PutOp) {
    forall n :: n in p.overflow ==> n !in PrefList(cfg, p.key)
  }

  lemma AckIsLastResort(cfg: Config, p: PutOp, node: NodeID)
    requires LastResort(cfg, p) && ListApart(cfg, p) && Contacted(cfg, p, node) && !Responded(p, node)
    ensures LastResort(cfg, WithAck(cfg, p, node)) && ListApart(cfg, WithAck(cfg, p, node))
  {
    if node !in PrefList(cfg, p.key) {
      forall n | n in PrefList(cfg, p.key) ensures n in p.acked || n in p.failed {
        assert Responded(p, n);
      }
    }
  }

  lemma StepKeepsLastResort(cfg: Config, s: State, step: Step, s': State, op: OpId)
    requires AllLastResort(cfg, s) && Next(cfg, s, step, s') && op in s'.puts
    ensures LastResort(cfg, s'.puts[op]) && ListApart(cfg, s'.puts[op])
  {
    if step.ReplicaPut? && step.op == op {
      AckIsLastResort(cfg, s.puts[op], step.node);
    }
  }

  /** In every run, overflow nodes are the last resort. */
  lemma OverflowIsLastResort(cfg: Config, run: seq<State>, steps: seq<Step>, i: nat, put: OpId)
    requires Runs.IsRun(AnySteps(cfg), run, steps) && run[0] == INITIAL && i < |run| && put in run[i].puts
    ensures LastResort(cfg, run[i].puts[put]) && ListApart(cfg, run[i].puts[put])
  {
    var inv := s => AllLastResort(cfg, s);
    forall s, step, s' | inv(s) && AnySteps(cfg)(s, step, s') ensures inv(s') {
      forall op | op in s'.puts ensures LastResort(cfg, s'.puts[op]) && ListApart(cfg, s'.puts[op]) {
        StepKeepsLastResort(cfg, s, step, s', op);
      }
    }
    Runs.HoldsFrom(AnySteps(cfg), inv, run, steps, 0, i);
  }
}
