/** Building runs of the protocol around one key: states given by what each node holds, and the moves between them. */
module Scenes {
  import opened Common
  import opened VClock
  import opened ClockText
  import opened RecordCodec
  import opened Siblings
  import opened StorageEngine
  import opened Lists
  import opened Quorum
  import opened Missed
  import opened Deletes
  import Runs

  /** What the nodes hold of the key; nobody else holds anything. */
  type Holdings = map<NodeID, seq<Sibling>>

  function Held(held: Holdings, n: NodeID): seq<Sibling> {
    if n in held then held[n] else []
  }

  function RecordFor(cfg: Config, s: seq<Sibling>): Bytes {
    var e := Encode(cfg.crc, s);
    if e.Ok? then e.value else []
  }

  function DatabaseFor(cfg: Config, key: Bytes): seq<Sibling> -> Database {
    (s: seq<Sibling>) => map[key := RecordFor(cfg, s)]
  }

  function Scene(cfg: Config, key: Bytes, held: Holdings, puts: map<OpId, PutOp>, gets: map<OpId, GetOp>): State {
    State(MapOver(DatabaseFor(cfg, key), held), puts, gets)
  }

  /** A set that is written and read back as it is. */
  predicate Sound(cfg: Config, s: seq<Sibling>) {
    s != [] && Encode(cfg.crc, s).Ok? && ReadableClocks(s)
  }

  lemma HeldInScene(cfg: Config, key: Bytes, held: Holdings, puts: map<OpId, PutOp>, gets: map<OpId, GetOp>, n: NodeID)
    requires n in held ==> Sound(cfg, held[n])
    ensures RecordAt(cfg, Scene(cfg, key, held, puts, gets), n, key) == Ok(Held(held, n))
  {
    if n in held {
      RecordRoundTrip(cfg.crc, held[n]);
    }
  }

  // ----- a node stores something -----

  lemma ScenePut(cfg: Config, key: Bytes, held: Holdings, puts: map<OpId, PutOp>, gets: map<OpId, GetOp>, n: NodeID,
                 incoming: seq<Sibling>, now: Int64)
    requires n in held ==> Sound(cfg, held[n])
    requires Quiet(Held(held, n), incoming, cfg.opts, now) && Sound(cfg, Reconcile(Held(held, n), incoming))
    ensures var s, r := Scene(cfg, key, held, puts, gets), Reconcile(Held(held, n), incoming);
            PutStep(cfg.crc, cfg.opts, DatabaseAt(s, n), key, incoming, now, DatabaseAt(s, n)[key := RecordFor(cfg, r)])
  {
    HeldInScene(cfg, key, held, puts, gets, n);
    QuietPutIsPossible(Held(held, n), incoming, cfg.opts, now);
  }

  lemma SceneAfterPut(cfg: Config, key: Bytes, held: Holdings, puts: map<OpId, PutOp>, gets: map<OpId, GetOp>,
                      n: NodeID, r: seq<Sibling>)
    ensures var s := Scene(cfg, key, held, puts, gets);
            WithDatabase(s, n, DatabaseAt(s, n)[key := RecordFor(cfg, r)]) == Scene(cfg, key, held[n := r], puts, gets)
  {
    var s := Scene(cfg, key, held, puts, gets);
    assert DatabaseAt(s, n)[key := RecordFor(cfg, r)] == DatabaseFor(cfg, key)(r);
    MapOverUpdate(DatabaseFor(cfg, key), held, n, r);
  }

  /** One acknowledgement. */
  lemma AckInScene(cfg: Config, key: Bytes, held: Holdings, puts: map<OpId, PutOp>, gets: map<OpId, GetOp>, op: OpId,
                   n: NodeID, now: Int64)
    requires op in puts && puts[op].key == key && puts[op].status == Writing
    requires Contacted(cfg, puts[op], n) && !Responded(puts[op], n) && (n in held ==> Sound(cfg, held[n]))
    requires var d := Delivered(puts[op], n, now);
             Quiet(Held(held, n), d, cfg.opts, now) && Sound(cfg, Reconcile(Held(held, n), d))
    ensures MildStep(cfg, Scene(cfg, key, held, puts, gets), ReplicaPut(op, n, now),
                     Scene(cfg, key, held[n := Reconcile(Held(held, n), Delivered(puts[op], n, now))],
                           puts[op := WithAck(cfg, puts[op], n)], gets))
  {
    var s := Scene(cfg, key, held, puts, gets);
    var r := Reconcile(Held(held, n), Delivered(puts[op], n, now));
    HeldInScene(cfg, key, held, puts, gets, n);
    ScenePut(cfg, key, held, puts, gets, n, Delivered(puts[op], n, now), now);
    SceneAfterPut(cfg, key, held, puts, gets, n, r);
    PutAcked(cfg, s, op, n, now, DatabaseAt(s, n)[key := RecordFor(cfg, r)]);
  }

  /** A version that arrives by repair, handoff or anti-entropy. */
  lemma BackgroundInScene(cfg: Config, key: Bytes, held: Holdings, puts: map<OpId, PutOp>, gets: map<OpId, GetOp>,
                          n: NodeID, incoming: seq<Sibling>, now: Int64)
    requires (n in held ==> Sound(cfg, held[n])) && Plain(incoming)
    requires Quiet(Held(held, n), incoming, cfg.opts, now) && Sound(cfg, Reconcile(Held(held, n), incoming))
    ensures MildStep(cfg, Scene(cfg, key, held, puts, gets), Background(n, key, incoming, now),
                     Scene(cfg, key, held[n := Reconcile(Held(held, n), incoming)], puts, gets))
  {
    HeldInScene(cfg, key, held, puts, gets, n);
    ScenePut(cfg, key, held, puts, gets, n, incoming, now);
    SceneAfterPut(cfg, key, held, puts, gets, n, Reconcile(Held(held, n), incoming));
  }

  // ----- several nodes acknowledge -----

  type Stretch = Runs.Phase<State, Step>

  /** Clocks that enter along a stretch are readable. */
  function Readable(): Step -> bool {
    (step: Step) => ReadableStep(step)
  }

  /** The nodes acknowledge an operation one after another, and each ends up holding just `y`. */
  datatype Batch = Batch(key: Bytes, held: Holdings, puts: map<OpId, PutOp>, op: OpId, nodes: seq<NodeID>, y: Sibling,
                         now: Int64)

  ghost predicate Smooth(cfg: Config, b: Batch) {
    && b.op in b.puts && b.puts[b.op].key == b.key && b.puts[b.op].status == Writing
    && NoRepeats(b.nodes) && Sound(cfg, [b.y])
    && forall n :: n in b.nodes ==> SmoothAt(cfg, b, n)
  }

  predicate SmoothAt(cfg: Config, b: Batch, n: NodeID)
    requires b.op in b.puts
  {
    && n in PrefList(cfg, b.key) && !Responded(b.puts[b.op], n) && (n in b.held ==> Sound(cfg, b.held[n]))
    && Quiet(Held(b.held, n), Delivered(b.puts[b.op], n, b.now), cfg.opts, b.now)
    && Reconcile(Held(b.held, n), Delivered(b.puts[b.op], n, b.now)) == [b.y]
  }

  ghost function HeldAfter(b: Batch, k: nat): Holdings
    requires k <= |b.nodes|
  {
    AllTo(b.held, Elements(b.nodes[..k]), [b.y])
  }

  ghost function PutsAfter(b: Batch, k: nat): map<OpId, PutOp>
    requires k <= |b.nodes| && b.op in b.puts
  {
    b.puts[b.op := b.puts[b.op].(acked := b.puts[b.op].acked + Elements(b.nodes[..k]))]
  }

  ghost function SceneAfter(cfg: Config, b: Batch, k: nat): State
    requires k <= |b.nodes| && b.op in b.puts
  {
    Scene(cfg, b.key, HeldAfter(b, k), PutsAfter(b, k), map[])
  }

  lemma OneMoreHeld(b: Batch, k: nat)
    requires k < |b.nodes| && b.op in b.puts && NoRepeats(b.nodes)
    ensures HeldAfter(b, k + 1) == HeldAfter(b, k)[b.nodes[k] := [b.y]]
    ensures Held(HeldAfter(b, k), b.nodes[k]) == Held(b.held, b.nodes[k])
    ensures b.nodes[k] in HeldAfter(b, k) <==> b.nodes[k] in b.held
  {
    ElementsTake(b.nodes, k);
    AllToMore(b.held, Elements(b.nodes[..k]), b.nodes[k], [b.y]);
  }

  lemma OneMoreAck(cfg: Config, b: Batch, k: nat)
    requires Smooth(cfg, b) && k < |b.nodes|
    ensures var p, n := PutsAfter(b, k)[b.op], b.nodes[k];
            && n in PrefList(cfg, b.key) && !Responded(p, n)
            && Delivered(p, n, b.now) == Delivered(b.puts[b.op], n, b.now)
            && PutsAfter(b, k + 1) == PutsAfter(b, k)[b.op := WithAck(cfg, p, n)]
  {
    var p, n := b.puts[b.op], b.nodes[k];
    ElementsTake(b.nodes, k);
    assert n in b.nodes;
    assert SmoothAt(cfg, b, n);
    assert p.acked + Elements(b.nodes[..k + 1]) == (p.acked + Elements(b.nodes[..k])) + {n};
    assert PutsAfter(b, k + 1)[b.op] == WithAck(cfg, PutsAfter(b, k)[b.op], n);
  }

  lemma BatchMove(cfg: Config, b: Batch, k: nat)
    requires Smooth(cfg, b) && k < |b.nodes|
    ensures MildStep(cfg, SceneAfter(cfg, b, k), ReplicaPut(b.op, b.nodes[k], b.now), SceneAfter(cfg, b, k + 1))
  {
    OneMoreHeld(b, k);
    OneMoreAck(cfg, b, k);
    assert b.nodes[k] in b.nodes;
    assert SmoothAt(cfg, b, b.nodes[k]);
    AckInScene(cfg, b.key, HeldAfter(b, k), PutsAfter(b, k), map[], b.op, b.nodes[k], b.now);
  }

  ghost function Acks(cfg: Config, b: Batch): Stretch
    requires b.op in b.puts
  {
    Runs.Phase((k: nat) => SceneAfter(cfg, b, if k <= |b.nodes| then k else 0),
               (k: nat) => ReplicaPut(b.op, if k < |b.nodes| then b.nodes[k] else [], b.now), |b.nodes|)
  }

  lemma AcksBy(next: (State, Step, State) -> bool, cfg: Config, b: Batch)
    requires b.op in b.puts
    requires forall k: nat :: k < |b.nodes| ==>
               next(SceneAfter(cfg, b, k), ReplicaPut(b.op, b.nodes[k], b.now), SceneAfter(cfg, b, k + 1))
    ensures Runs.Valid(next, Readable(), Acks(cfg, b))
  {
  }

  /** A smooth batch is a stretch of a run. */
  lemma AcksAreValid(cfg: Config, b: Batch)
    requires Smooth(cfg, b)
    ensures Runs.Valid(MildSteps(cfg), Readable(), Acks(cfg, b))
  {
    forall k: nat | k < |b.nodes|
      ensures MildSteps(cfg)(SceneAfter(cfg, b, k), ReplicaPut(b.op, b.nodes[k], b.now), SceneAfter(cfg, b, k + 1))
    {
      BatchMove(cfg, b, k);
    }
    AcksBy(MildSteps(cfg), cfg, b);
  }

  lemma AcksEnds(cfg: Config, b: Batch)
    requires b.op in b.puts
    ensures Acks(cfg, b).Start() == Scene(cfg, b.key, b.held, b.puts, map[])
    ensures Acks(cfg, b).End() ==
            Scene(cfg, b.key, AllTo(b.held, Elements(b.nodes), [b.y]),
                  b.puts[b.op := b.puts[b.op].(acked := b.puts[b.op].acked + Elements(b.nodes))], map[])
  {
    assert b.nodes[..0] == [] && b.nodes[..|b.nodes|] == b.nodes;
    AllToMore(b.held, {}, [], [b.y]);
    assert Elements(b.nodes[..0]) == {};
    var p := b.puts[b.op];
    assert p.acked + {} == p.acked;
    assert PutsAfter(b, 0)[b.op] == p;
    assert PutsAfter(b, 0) == b.puts && HeldAfter(b, 0) == b.held;
    assert Acks(cfg, b).states(0) == SceneAfter(cfg, b, 0);
    assert Acks(cfg, b).states(|b.nodes|) == SceneAfter(cfg, b, |b.nodes|);
  }

  /** A move, a stretch and another move. */
  lemma MoveStretchMove(next: (State, Step, State) -> bool, good: Step -> bool, a: State, first: Step, p: Stretch,
                        last: Step, b: State)
    requires next(a, first, p.Start()) && good(first) && Runs.Valid(next, good, p)
    requires next(p.End(), last, b) && good(last)
    ensures Runs.Linked(next, good, [Single(a, first, p.Start()), p, Single(p.End(), last, b)])
  {
    SingleIsValid(next, good, a, first, p.Start());
    SingleIsValid(next, good, p.End(), last, b);
  }

  // ----- a read of the scene -----

  /** The nodes answer one read of an unchanging scene. */
  datatype Reading = Reading(key: Bytes, held: Holdings, puts: map<OpId, PutOp>, reader: NodeID, nodes: seq<NodeID>,
                             now: Int64)

  ghost predicate Steady(cfg: Config, q: Reading) {
    && NoRepeats(q.nodes)
    && forall n :: n in q.nodes ==> SteadyAt(cfg, q, n)
  }

  predicate SteadyAt(cfg: Config, q: Reading, n: NodeID) {
    && n in PrefList(cfg, q.key) && (n in q.held ==> Sound(cfg, q.held[n]))
    && forall i :: 0 <= i < |Held(q.held, n)| ==> !Expired(Held(q.held, n)[i], q.now)
  }

  function Asked(q: Reading): GetOp {
    GetOp(q.key, q.reader, [], None)
  }

  function MomentsOf(cfg: Config, q: Reading, k: nat): seq<Moment>
    requires k <= |q.nodes|
  {
    seq(k, i requires 0 <= i < k => Moment(Scene(cfg, q.key, q.held, q.puts, map[]), q.now, q.nodes[i]))
  }

  function Answering(cfg: Config, q: Reading, k: nat): GetOp
    requires k <= |q.nodes|
  {
    Asked(q).(answers := AnswersFrom(cfg, Asked(q), MomentsOf(cfg, q, k)))
  }

  function ReadScene(cfg: Config, q: Reading, g: GetOp): State {
    Scene(cfg, q.key, q.held, q.puts, map[0 := g])
  }

  lemma OneMoreAnswer(cfg: Config, q: Reading, k: nat)
    requires Steady(cfg, q) && k < |q.nodes|
    ensures var g, n := Answering(cfg, q, k), q.nodes[k];
            && n in PrefList(cfg, q.key) && n !in Answered(g.answers)
            && Answering(cfg, q, k + 1) == g.(answers := g.answers + [Reported(cfg, ReadScene(cfg, q, g), n, g, q.now)])
  {
    var g, n := Answering(cfg, q, k), q.nodes[k];
    assert n in q.nodes;
    assert SteadyAt(cfg, q, n);
    assert MomentsOf(cfg, q, k + 1)
        == MomentsOf(cfg, q, k) + [Moment(Scene(cfg, q.key, q.held, q.puts, map[]), q.now, n)];
    assert Reported(cfg, ReadScene(cfg, q, g), n, g, q.now)
        == Reported(cfg, Scene(cfg, q.key, q.held, q.puts, map[]), n, Asked(q), q.now);
    assert AnswersFrom(cfg, Asked(q), MomentsOf(cfg, q, k + 1))
        == g.answers + [Reported(cfg, ReadScene(cfg, q, g), n, g, q.now)];
    forall i | 0 <= i < |g.answers| ensures g.answers[i].node != n {
      assert g.answers[i].node == q.nodes[i];
    }
  }

  lemma ReadingMove(cfg: Config, q: Reading, k: nat)
    requires Steady(cfg, q) && k < |q.nodes|
    ensures MildStep(cfg, ReadScene(cfg, q, Answering(cfg, q, k)), ReplicaGet(0, q.nodes[k], q.now),
                     ReadScene(cfg, q, Answering(cfg, q, k + 1)))
  {
    var g := Answering(cfg, q, k);
    OneMoreAnswer(cfg, q, k);
    assert q.nodes[k] in q.nodes;
    assert SteadyAt(cfg, q, q.nodes[k]);
    HeldInScene(cfg, q.key, q.held, q.puts, map[0 := g], q.nodes[k]);
    AnswerStep(cfg, ReadScene(cfg, q, g), q.nodes[k], q.now, Answering(cfg, q, k + 1));
  }

  ghost function Answers(cfg: Config, q: Reading): Stretch {
    Runs.Phase((k: nat) => ReadScene(cfg, q, Answering(cfg, q, if k <= |q.nodes| then k else 0)),
               (k: nat) => ReplicaGet(0, if k < |q.nodes| then q.nodes[k] else [], q.now), |q.nodes|)
  }

  lemma AnswersBy(next: (State, Step, State) -> bool, cfg: Config, q: Reading)
    requires forall k: nat :: k < |q.nodes| ==>
               next(ReadScene(cfg, q, Answering(cfg, q, k)), ReplicaGet(0, q.nodes[k], q.now),
                    ReadScene(cfg, q, Answering(cfg, q, k + 1)))
    ensures Runs.Valid(next, Readable(), Answers(cfg, q))
  {
  }

  lemma AnswersAreValid(cfg: Config, q: Reading)
    requires Steady(cfg, q)
    ensures Runs.Valid(MildSteps(cfg), Readable(), Answers(cfg, q))
  {
    forall k: nat | k < |q.nodes|
      ensures MildSteps(cfg)(ReadScene(cfg, q, Answering(cfg, q, k)), ReplicaGet(0, q.nodes[k], q.now),
                             ReadScene(cfg, q, Answering(cfg, q, k + 1)))
    {
      ReadingMove(cfg, q, k);
    }
    AnswersBy(MildSteps(cfg), cfg, q);
  }

  /** The read when it has returned. */
  function Finished(cfg: Config, q: Reading): GetOp {
    var g := Answering(cfg, q, |q.nodes|);
    g.(outcome := Some(ReadResult(cfg, g.answers)))
  }

  /** Ask, gather the answers, return. */
  ghost function ReadingOf(cfg: Config, q: Reading): seq<Stretch> {
    [Single(Scene(cfg, q.key, q.held, q.puts, map[]), BeginGet(0, q.reader, q.key), Answers(cfg, q).Start()),
     Answers(cfg, q),
     Single(Answers(cfg, q).End(), ReturnGet(0), ReadScene(cfg, q, Finished(cfg, q)))]
  }

  lemma ReadingEnds(cfg: Config, q: Reading)
    ensures |ReadingOf(cfg, q)| == 3 && ReadingOf(cfg, q)[0].Start() == Scene(cfg, q.key, q.held, q.puts, map[])
    ensures ReadingOf(cfg, q)[2].End() == ReadScene(cfg, q, Finished(cfg, q))
  {
  }

  lemma AskIsValid(cfg: Config, q: Reading)
    requires ValidKey(q.key)
    ensures Runs.Valid(MildSteps(cfg), Readable(), ReadingOf(cfg, q)[0])
  {
    var s := Scene(cfg, q.key, q.held, q.puts, map[]);
    OpenStep(cfg, s, q.reader, q.key);
    assert Answering(cfg, q, 0) == Asked(q);
    assert Answers(cfg, q).states(0) == ReadScene(cfg, q, Asked(q)) == s.(gets := map[0 := Asked(q)]);
    SingleIsValid(MildSteps(cfg), Readable(), s, BeginGet(0, q.reader, q.key), Answers(cfg, q).Start());
  }

  lemma ReturnIsValidToo(cfg: Config, q: Reading)
    ensures Runs.Valid(MildSteps(cfg), Readable(), ReadingOf(cfg, q)[2])
  {
    var g := Answering(cfg, q, |q.nodes|);
    FinishStep(cfg, ReadScene(cfg, q, g));
    SingleIsValid(MildSteps(cfg), Readable(), Answers(cfg, q).End(), ReturnGet(0), ReadScene(cfg, q, Finished(cfg, q)));
  }

  lemma ReadingLinksBy(next: (State, Step, State) -> bool, cfg: Config, q: Reading)
    requires Runs.Valid(next, Readable(), ReadingOf(cfg, q)[0]) && Runs.Valid(next, Readable(), Answers(cfg, q))
    requires Runs.Valid(next, Readable(), ReadingOf(cfg, q)[2])
    ensures Runs.Linked(next, Readable(), ReadingOf(cfg, q))
  {
  }

  /** A read of a steady scene is the end of a run. */
  lemma ReadingLinks(cfg: Config, q: Reading)
    requires Steady(cfg, q) && ValidKey(q.key)
    ensures Runs.Linked(MildSteps(cfg), Readable(), ReadingOf(cfg, q))
  {
    AskIsValid(cfg, q);
    AnswersAreValid(cfg, q);
    ReturnIsValidToo(cfg, q);
    ReadingLinksBy(MildSteps(cfg), cfg, q);
  }

  // ----- operations begin and return -----

  lemma PutBegins(cfg: Config, s: State, op: OpId, coordinator: NodeID, key: Bytes, value: Bytes, context: Clock,
                  now: Int64)
    requires op !in s.puts && ValidKey(key) && |value| <= MAX_VALUE && PlainClock(context) && PlainId(coordinator)
    ensures MildStep(cfg, s, BeginPut(op, coordinator, key, value, context, 0, now),
                     s.(puts := s.puts[op :=
                       PutOp(key, coordinator, PutSibling(coordinator, value, context, 0, now), {}, {}, {}, Writing)]))
  {
  }

  lemma DeleteBegins(cfg: Config, s: State, op: OpId, coordinator: NodeID, key: Bytes, context: Clock, now: Int64)
    requires op !in s.puts && context != map[] && PlainClock(context) && PlainId(coordinator)
    ensures MildStep(cfg, s, BeginDelete(op, coordinator, key, context, now),
                     s.(puts := s.puts[op :=
                       PutOp(key, coordinator, DeleteSibling(coordinator, context, now), {}, {}, {}, Writing)]))
  {
  }

  /** Everybody on the list has acknowledged. */
  lemma FullPutReturns(cfg: Config, s: State, op: OpId)
    requires op in s.puts && s.puts[op].status == Writing && s.puts[op].acked == Elements(PrefList(cfg, s.puts[op].key))
    requires s.puts[op].sibling.tombstone || |s.puts[op].acked| >= cfg.w
    ensures var p := s.puts[op];
            MildStep(cfg, s, ReturnPut(op), s.(puts := s.puts[op :=
              p.(status := if |p.acked| + |p.overflow| >= cfg.w then Succeeded else NoQuorum)]))
  {
    forall n | Contacted(cfg, s.puts[op], n) ensures Responded(s.puts[op], n) {
      assert n in PrefList(cfg, s.puts[op].key);
    }
  }
}
