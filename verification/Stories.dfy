/** Runs in which a deleted value comes back, and the exact bound that rules them out. */
module Stories {
  import opened Common
  import opened VClock
  import opened ClockText
  import opened ClockCodec
  import opened RecordCodec
  import opened Siblings
  import opened ReadMerge
  import opened StorageEngine
  import opened Transport
  import opened HashRing
  import opened Lists
  import opened Quorum
  import opened Missed
  import opened Deletes
  import opened Scenes
  import Runs

  // ----- the siblings of the stories: one coordinator, time zero -----

  const C: NodeID := [99]

  function Count(k: Uint64): Clock {
    map[C := Entry(k, 0)]
  }

  /** Room for a clock of one entry. */
  predicate Roomy(cfg: Config) {
    cfg.opts.maxSiblings > 0 && cfg.opts.maxEntries > 0
  }

  lemma CountIsFine(cfg: Config, k: Uint64)
    requires Roomy(cfg)
    ensures PlainClock(Count(k)) && ReadableClock(Count(k)) && Restamped(Count(k), 0) == Count(k)
    ensures PruneIsIdle(Count(k), 0, cfg.opts.pruneThreshold, cfg.opts.maxEntries)
  {
    assert Count(k).Keys == {C} && |Count(k)| == |Count(k).Keys| == 1;
    ClockSize(Count(k));
  }

  function Version(value: Bytes, k: Uint64, tombstone: bool): Sibling {
    Sibling(value, Count(k), 0, tombstone, 0)
  }

  lemma VersionIsFine(cfg: Config, x: Sibling, k: Uint64)
    requires Roomy(cfg) && |x.value| <= MAX_VALUE && x == Version(x.value, k, x.tombstone)
    ensures Sent(x, 0) == x && Sound(cfg, [x]) && Plain([x]) && !Expired(x, 0)
    ensures Quiet([], [x], cfg.opts, 0)
  {
    CountIsFine(cfg, k);
    SiblingsEncode([x]);
  }

  lemma DeliveredAsIs(cfg: Config, p: PutOp, n: NodeID, k: Uint64)
    requires Roomy(cfg) && |p.sibling.value| <= MAX_VALUE
    requires p.sibling == Version(p.sibling.value, k, p.sibling.tombstone)
    ensures Delivered(p, n, 0) == [p.sibling]
  {
    VersionIsFine(cfg, p.sibling, k);
  }

  function Op(key: Bytes, x: Sibling): PutOp {
    PutOp(key, C, x, {}, {}, {}, Writing)
  }

  function Ops(p: PutOp, q: PutOp): map<OpId, PutOp> {
    map[0 := p, 1 := q]
  }

  lemma TicksOfC()
    ensures Ticked(map[], C, 0) == Count(1) && Ticked(Count(1), C, 0) == Count(2)
  {
  }

  /** A first write of the version by some members is smooth. */
  lemma FirstWriteIsSmooth(cfg: Config, b: Batch, k: Uint64)
    requires Roomy(cfg) && b.now == 0 && |b.y.value| <= MAX_VALUE && b.y == Version(b.y.value, k, b.y.tombstone)
    requires b.op in b.puts && b.puts[b.op] == Op(b.key, b.y) && NoRepeats(b.nodes)
    requires forall n :: n in b.nodes ==> n in PrefList(cfg, b.key) && n !in b.held
    ensures Smooth(cfg, b)
  {
    VersionIsFine(cfg, b.y, k);
    forall n | n in b.nodes ensures SmoothAt(cfg, b, n) {
      DeliveredAsIs(cfg, b.puts[b.op], n, k);
    }
  }

  // ----- a delete that the reader acknowledged and does not see -----

  function Value(): Sibling {
    Version([], 1, false)
  }

  function Grave(): Sibling {
    Version([], 2, true)
  }

  function Others(cfg: Config, key: Bytes, reader: NodeID): seq<NodeID> {
    Filter(NotNode(reader), PrefList(cfg, key))
  }

  lemma OthersAreOthers(cfg: Config, key: Bytes, reader: NodeID)
    ensures NoRepeats(PrefList(cfg, key)) && NoRepeats(Others(cfg, key, reader))
    ensures forall n :: n in Others(cfg, key, reader) <==> n in PrefList(cfg, key) && n != reader
  {
    OrderOfElements(cfg.vnodes, cfg.keyHash(key));
    assert NoRepeats(PrefList(cfg, key));
    FilterKeepsDistinct(NotNode(reader), PrefList(cfg, key));
    FilterMembers(NotNode(reader), PrefList(cfg, key));
  }

  /** The other members acknowledge the value. */
  function Spread(cfg: Config, key: Bytes, reader: NodeID): Batch {
    Batch(key, map[], map[0 := Op(key, Value())], 0, Others(cfg, key, reader), Value(), 0)
  }

  ghost function HeldByOthers(cfg: Config, key: Bytes, reader: NodeID): Holdings {
    AllTo(map[], Elements(Others(cfg, key, reader)), [Value()])
  }

  ghost function PutDone(cfg: Config, key: Bytes, reader: NodeID): PutOp {
    Op(key, Value()).(acked := {} + Elements(Others(cfg, key, reader)))
  }

  /** Then the reader acknowledges the delete. */
  ghost function Bury(cfg: Config, key: Bytes, reader: NodeID): Batch {
    Batch(key, HeldByOthers(cfg, key, reader), Ops(PutDone(cfg, key, reader), Op(key, Grave())), 1,
          [reader], Grave(), 0)
  }

  ghost function HeldInTheEnd(cfg: Config, key: Bytes, reader: NodeID): Holdings {
    AllTo(HeldByOthers(cfg, key, reader), Elements([reader]), [Grave()])
  }

  ghost function DeleteAcked(cfg: Config, key: Bytes, reader: NodeID): map<OpId, PutOp> {
    Ops(PutDone(cfg, key, reader), Op(key, Grave()).(acked := {} + Elements([reader])))
  }

  ghost function AskOthers(cfg: Config, key: Bytes, reader: NodeID): Reading {
    Reading(key, HeldInTheEnd(cfg, key, reader), DeleteAcked(cfg, key, reader), reader, Others(cfg, key, reader), 0)
  }

  ghost function DeletePhases(cfg: Config, key: Bytes, reader: NodeID): seq<Stretch> {
    [Single(INITIAL, BeginPut(0, C, key, [], map[], 0, 0), Acks(cfg, Spread(cfg, key, reader)).Start()),
     Acks(cfg, Spread(cfg, key, reader)),
     Single(Acks(cfg, Spread(cfg, key, reader)).End(), BeginDelete(1, C, key, Count(1), 0),
            Acks(cfg, Bury(cfg, key, reader)).Start()),
     Acks(cfg, Bury(cfg, key, reader))]
  }

  lemma EmptyScene(cfg: Config, key: Bytes)
    ensures Scene(cfg, key, map[], map[], map[]) == INITIAL
  {
  }

  lemma ValueBegins(cfg: Config, key: Bytes, reader: NodeID)
    requires ValidKey(key)
    ensures Runs.Valid(MildSteps(cfg), Readable(), DeletePhases(cfg, key, reader)[0])
  {
    TicksOfC();
    PutBegins(cfg, INITIAL, 0, C, key, [], map[], 0);
    AcksEnds(cfg, Spread(cfg, key, reader));
    EmptyScene(cfg, key);
    assert INITIAL.puts[0 := Op(key, Value())] == map[0 := Op(key, Value())];
    ReadableCount(1);
    SingleIsValid(MildSteps(cfg), Readable(), INITIAL, BeginPut(0, C, key, [], map[], 0, 0),
                  Acks(cfg, Spread(cfg, key, reader)).Start());
  }

  lemma ReadableCount(k: Uint64)
    ensures ReadableClock(Count(k)) && PlainClock(Count(k))
  {
    assert Count(k).Keys == {C} && |Count(k)| == |Count(k).Keys| == 1;
    ClockSize(Count(k));
  }

  lemma SpreadIsSmooth(cfg: Config, key: Bytes, reader: NodeID)
    requires Roomy(cfg)
    ensures Smooth(cfg, Spread(cfg, key, reader))
  {
    OthersAreOthers(cfg, key, reader);
    FirstWriteIsSmooth(cfg, Spread(cfg, key, reader), 1);
  }

  lemma BuryIsSmooth(cfg: Config, key: Bytes, reader: NodeID)
    requires Roomy(cfg) && reader in PrefList(cfg, key)
    ensures Smooth(cfg, Bury(cfg, key, reader))
  {
    OthersAreOthers(cfg, key, reader);
    FirstWriteIsSmooth(cfg, Bury(cfg, key, reader), 2);
  }

  ghost function BeforeDelete(cfg: Config, key: Bytes, reader: NodeID): State {
    Scene(cfg, key, HeldByOthers(cfg, key, reader), map[0 := PutDone(cfg, key, reader)], map[])
  }

  lemma ValueIsSpread(cfg: Config, key: Bytes, reader: NodeID)
    ensures Acks(cfg, Spread(cfg, key, reader)).End() == BeforeDelete(cfg, key, reader)
  {
    AcksEnds(cfg, Spread(cfg, key, reader));
    assert Spread(cfg, key, reader).puts[0 := PutDone(cfg, key, reader)] == map[0 := PutDone(cfg, key, reader)];
  }

  lemma DeleteIsBegun(cfg: Config, key: Bytes, reader: NodeID)
    ensures var s := BeforeDelete(cfg, key, reader);
            Acks(cfg, Bury(cfg, key, reader)).Start() == s.(puts := s.puts[1 := Op(key, Grave())])
  {
    AcksEnds(cfg, Bury(cfg, key, reader));
    var puts: map<OpId, PutOp> := map[0 := PutDone(cfg, key, reader)];
    assert puts[1 := Op(key, Grave())] == Ops(PutDone(cfg, key, reader), Op(key, Grave()));
  }

  lemma GraveBegins(cfg: Config, key: Bytes, reader: NodeID)
    ensures Runs.Valid(MildSteps(cfg), Readable(), DeletePhases(cfg, key, reader)[2])
  {
    TicksOfC();
    ReadableCount(1);
    ReadableCount(2);
    DeleteBegins(cfg, BeforeDelete(cfg, key, reader), 1, C, key, Count(1), 0);
    ValueIsSpread(cfg, key, reader);
    DeleteIsBegun(cfg, key, reader);
    SingleIsValid(MildSteps(cfg), Readable(), BeforeDelete(cfg, key, reader), BeginDelete(1, C, key, Count(1), 0),
                  Acks(cfg, Bury(cfg, key, reader)).Start());
  }

  lemma DeletePhasesLinkBy(next: (State, Step, State) -> bool, cfg: Config, key: Bytes, reader: NodeID)
    requires Runs.Valid(next, Readable(), DeletePhases(cfg, key, reader)[0])
    requires Runs.Valid(next, Readable(), Acks(cfg, Spread(cfg, key, reader)))
    requires Runs.Valid(next, Readable(), DeletePhases(cfg, key, reader)[2])
    requires Runs.Valid(next, Readable(), Acks(cfg, Bury(cfg, key, reader)))
    ensures Runs.Linked(next, Readable(), DeletePhases(cfg, key, reader))
  {
  }

  lemma DeletePhasesLink(cfg: Config, key: Bytes, reader: NodeID)
    requires Roomy(cfg) && ValidKey(key) && reader in PrefList(cfg, key)
    ensures Runs.Linked(MildSteps(cfg), Readable(), DeletePhases(cfg, key, reader))
  {
    ValueBegins(cfg, key, reader);
    SpreadIsSmooth(cfg, key, reader);
    AcksAreValid(cfg, Spread(cfg, key, reader));
    GraveBegins(cfg, key, reader);
    BuryIsSmooth(cfg, key, reader);
    AcksAreValid(cfg, Bury(cfg, key, reader));
    DeletePhasesLinkBy(MildSteps(cfg), cfg, key, reader);
  }

  /** A node that holds one version of the stories can be read. */
  lemma VersionIsSteady(cfg: Config, q: Reading, n: NodeID, x: Sibling, k: Uint64)
    requires Roomy(cfg) && q.now == 0 && |x.value| <= MAX_VALUE && x == Version(x.value, k, x.tombstone)
    requires n in PrefList(cfg, q.key) && n in q.held && q.held[n] == [x]
    ensures SteadyAt(cfg, q, n)
  {
    VersionIsFine(cfg, x, k);
  }

  lemma OthersHoldValue(cfg: Config, key: Bytes, reader: NodeID, n: NodeID)
    requires n in Others(cfg, key, reader)
    ensures var held := HeldInTheEnd(cfg, key, reader);
            n in held && held[n] == [Value()] && n in PrefList(cfg, key) && n != reader
  {
    OthersAreOthers(cfg, key, reader);
  }

  lemma AskOthersIsSteady(cfg: Config, key: Bytes, reader: NodeID)
    requires Roomy(cfg)
    ensures Steady(cfg, AskOthers(cfg, key, reader))
  {
    var q := AskOthers(cfg, key, reader);
    OthersAreOthers(cfg, key, reader);
    forall n | n in q.nodes ensures SteadyAt(cfg, q, n) {
      OthersHoldValue(cfg, key, reader, n);
      VersionIsSteady(cfg, q, n, Value(), 1);
    }
  }

  lemma DeleteMeetsRead(cfg: Config, key: Bytes, reader: NodeID)
    ensures Acks(cfg, Bury(cfg, key, reader)).End() ==
            Scene(cfg, key, HeldInTheEnd(cfg, key, reader), DeleteAcked(cfg, key, reader), map[])
  {
    AcksEnds(cfg, Bury(cfg, key, reader));
    SecondOp(PutDone(cfg, key, reader), Op(key, Grave()), Op(key, Grave()).(acked := {} + Elements([reader])));
  }

  lemma SecondOp(p: PutOp, q: PutOp, r: PutOp)
    ensures Ops(p, q)[1 := r] == Ops(p, r)
  {
  }

  // ----- what a steady read ends with -----

  lemma {:induction false} RemotesAnswer(cfg: Config, g: GetOp, ms: seq<Moment>)
    requires Remote(g, ms)
    ensures Successes(AnswersFrom(cfg, g, ms)) == |ms|
  {
    if ms != [] {
      var k := |ms| - 1;
      RemotesAnswer(cfg, g, ms[..k]);
      var answers := AnswersFrom(cfg, g, ms);
      assert answers[..k] == AnswersFrom(cfg, g, ms[..k]) && answers[k] == AnswerAt(cfg, g, ms[k]);
      assert ms[k] in ms;
    }
  }

  /** The client sees the version. */
  ghost predicate Shows(outcome: ReadOutcome, c: Clock) {
    outcome.Found? && exists x :: x in outcome.siblings && Counters(x.clock) == Counters(c)
  }

  lemma ShowsIfGathered(cfg: Config, answers: seq<Answer>, c: Clock)
    requires Successes(answers) >= cfg.r && Counters(c) in ClockSet(Live(Maximal(AllSiblings(answers))))
    ensures Shows(ReadResult(cfg, answers), c)
  {
    var visible := Live(Maximal(AllSiblings(answers)));
    var k :| 0 <= k < |visible| && Counters(visible[k].clock) == Counters(c);
    assert visible[k] in visible;
  }

  /** A read of others only, one of which holds a value that nothing live follows, shows it. */
  lemma SteadyReadShows(cfg: Config, q: Reading, n: NodeID, v: Sibling)
    requires Steady(cfg, q) && q.reader !in q.nodes && |q.nodes| >= cfg.r
    requires n in q.nodes && v in Held(q.held, n) && !v.tombstone
    requires forall m, y :: m in q.nodes && y in Held(q.held, m) && !y.tombstone ==> Compare(v.clock, y.clock) != Before
    ensures Shows(Finished(cfg, q).outcome.value, v.clock)
  {
    var g, ms := Asked(q), MomentsOf(cfg, q, |q.nodes|);
    MomentsHold(cfg, q);
    assert Remote(g, ms);
    RemotesAnswer(cfg, g, ms);
    var i :| 0 <= i < |q.nodes| && q.nodes[i] == n;
    assert ms[i] in ms;
    DeletedValueReturnsIff(cfg, g, ms, ms[i], v);
    ShowsIfGathered(cfg, AnswersFrom(cfg, g, ms), v.clock);
  }

  lemma MomentsHold(cfg: Config, q: Reading)
    requires Steady(cfg, q)
    ensures forall m :: m in MomentsOf(cfg, q, |q.nodes|) ==>
              m.node in q.nodes && StoredThen(cfg, Asked(q), m) == Held(q.held, m.node)
  {
    var ms := MomentsOf(cfg, q, |q.nodes|);
    forall m | m in ms ensures m.node in q.nodes && StoredThen(cfg, Asked(q), m) == Held(q.held, m.node) {
      var i :| 0 <= i < |ms| && ms[i] == m;
      assert m.node == q.nodes[i] && SteadyAt(cfg, q, m.node);
      HeldInScene(cfg, q.key, q.held, q.puts, map[], m.node);
    }
  }

  // ----- the exact bound -----

  /** The read shows a version that a delete, acknowledged by the reading coordinator before, happens after. */
  ghost predicate ShowsDeleted(run: seq<State>, j: nat, i: nat, del: OpId, get: OpId, key: Bytes, reader: NodeID) {
    && j <= i < |run|
    && del in run[j].puts && run[j].puts[del].sibling.tombstone && run[j].puts[del].key == key
    && reader in run[j].puts[del].acked
    && get !in run[j].gets && get in run[i].gets && run[i].gets[get].key == key
    && run[i].gets[get].coordinator == reader
    && run[i].gets[get].outcome.Some? && run[i].gets[get].outcome.value.Found?
    && exists x :: x in run[i].gets[get].outcome.value.siblings &&
         Compare(x.clock, run[j].puts[del].sibling.clock) == Before
  }

  lemma CalmFromGood(cfg: Config, run: seq<State>, steps: seq<Step>)
    requires Runs.GoodRun(MildSteps(cfg), Readable(), run, steps) && run[0] == INITIAL
    ensures CalmRun(cfg, run, steps)
  {
    forall i | 0 <= i < |steps| ensures CalmSteps(cfg)(run[i], steps[i], run[i + 1]) {
      assert MildSteps(cfg)(run[i], steps[i], run[i + 1]) && Readable()(steps[i]);
    }
  }

  lemma GraveIsAfter()
    ensures Compare(Count(2), Count(1)) == After && Compare(Count(1), Count(2)) == Before
  {
    TicksOfC();
    TickIsAfterIff(Count(1), C, 0);
  }

  lemma BelowGrave(outcome: ReadOutcome)
    requires Shows(outcome, Count(1))
    ensures exists x :: x in outcome.siblings && Compare(x.clock, Count(2)) == Before
  {
    var x :| x in outcome.siblings && Counters(x.clock) == Counters(Count(1));
    GraveIsAfter();
    CompareByCounters(Count(2), x.clock, Count(1));
  }

  lemma ValueStands(cfg: Config, key: Bytes, reader: NodeID)
    ensures var held := HeldInTheEnd(cfg, key, reader);
            forall m, y :: m in Others(cfg, key, reader) && y in Held(held, m) ==> y == Value()
  {
    forall m | m in Others(cfg, key, reader) ensures Held(HeldInTheEnd(cfg, key, reader), m) == [Value()] {
      OthersHoldValue(cfg, key, reader, m);
    }
  }

  lemma OthersShow(cfg: Config, key: Bytes, reader: NodeID)
    requires Roomy(cfg) && Others(cfg, key, reader) != [] && |Others(cfg, key, reader)| >= cfg.r
    ensures Shows(Finished(cfg, AskOthers(cfg, key, reader)).outcome.value, Count(1))
  {
    var others := Others(cfg, key, reader);
    AskOthersIsSteady(cfg, key, reader);
    OthersAreOthers(cfg, key, reader);
    ValueStands(cfg, key, reader);
    assert others[0] in others;
    OthersHoldValue(cfg, key, reader, others[0]);
    SteadyReadShows(cfg, AskOthers(cfg, key, reader), others[0], Value());
  }

  lemma EndsShowingDeleted(run: seq<State>, j: nat, p: PutOp, g: GetOp, key: Bytes, reader: NodeID)
    requires j < |run| && 1 in run[j].puts && run[j].puts[1] == p && run[j].gets == map[]
    requires 0 in run[|run| - 1].gets && run[|run| - 1].gets[0] == g
    requires p.sibling == Grave() && p.key == g.key == key && reader in p.acked && g.coordinator == reader
    requires g.outcome.Some? && Shows(g.outcome.value, Count(1))
    ensures ShowsDeleted(run, j, |run| - 1, 1, 0, key, reader)
  {
    BelowGrave(g.outcome.value);
  }

  lemma DeleteThenRead(next: (State, Step, State) -> bool, cfg: Config, key: Bytes, reader: NodeID)
    returns (run: seq<State>, steps: seq<Step>, j: nat)
    requires Runs.Linked(next, Readable(), DeletePhases(cfg, key, reader))
    requires Runs.Linked(next, Readable(), ReadingOf(cfg, AskOthers(cfg, key, reader)))
    ensures Runs.GoodRun(next, Readable(), run, steps) && run[0] == INITIAL && j < |run|
    ensures run[j] == Scene(cfg, key, HeldInTheEnd(cfg, key, reader), DeleteAcked(cfg, key, reader), map[])
    ensures run[|run| - 1] == ReadScene(cfg, AskOthers(cfg, key, reader), Finished(cfg, AskOthers(cfg, key, reader)))
  {
    DeleteMeetsRead(cfg, key, reader);
    run, steps, j := Runs.RunOfTwo(next, Readable(), DeletePhases(cfg, key, reader),
                                   ReadingOf(cfg, AskOthers(cfg, key, reader)));
  }

  /** A calm run in which a value comes back after the reader itself acknowledged its delete. */
  lemma DeletedValueComesBack(cfg: Config, key: Bytes, reader: NodeID)
    returns (run: seq<State>, steps: seq<Step>, j: nat)
    requires Roomy(cfg) && ValidKey(key) && reader in PrefList(cfg, key)
    requires Others(cfg, key, reader) != [] && |Others(cfg, key, reader)| >= cfg.r
    ensures CalmRun(cfg, run, steps) && |run| > 0 && ShowsDeleted(run, j, |run| - 1, 1, 0, key, reader)
  {
    DeletePhasesLink(cfg, key, reader);
    AskOthersIsSteady(cfg, key, reader);
    ReadingLinks(cfg, AskOthers(cfg, key, reader));
    run, steps, j := DeleteThenRead(MildSteps(cfg), cfg, key, reader);
    CalmFromGood(cfg, run, steps);
    OthersShow(cfg, key, reader);
    assert reader in Elements([reader]);
    EndsShowingDeleted(run, j, Op(key, Grave()).(acked := {} + Elements([reader])),
                       Finished(cfg, AskOthers(cfg, key, reader)), key, reader);
  }

  /** When more members must answer than there are besides the reader, the reader answers itself. */
  lemma ReaderAnswers(cfg: Config, g: GetOp)
    requires AnswersOk(cfg, g) && Successes(g.answers) >= cfg.r > |Others(cfg, g.key, g.coordinator)|
    ensures g.coordinator in Responders(g.answers)
  {
    var others := Others(cfg, g.key, g.coordinator);
    RespondersCount(g.answers);
    OthersAreOthers(cfg, g.key, g.coordinator);
    NoRepeatsSize(others);
    if g.coordinator !in Responders(g.answers) {
      SubsetSize(Responders(g.answers), Elements(others));
    }
  }

  /** In every calm run, no read by this coordinator shows what a delete it acknowledged before happens after. */
  ghost predicate NeverShowsDeleted(cfg: Config, key: Bytes, reader: NodeID) {
    forall run: seq<State>, steps, j: nat, i: nat, del: OpId, get: OpId ::
      CalmRun(cfg, run, steps) ==> !ShowsDeleted(run, j, i, del, get, key, reader)
  }

  lemma ReaderSeesItsDelete(cfg: Config, run: seq<State>, steps: seq<Step>, j: nat, i: nat, del: OpId, get: OpId,
                            key: Bytes, reader: NodeID)
    requires CalmRun(cfg, run, steps) && cfg.r > |Others(cfg, key, reader)|
    ensures !ShowsDeleted(run, j, i, del, get, key, reader)
  {
    if ShowsDeleted(run, j, i, del, get, key, reader) {
      RunKeepsInv(cfg, run, steps, i);
      var g := run[i].gets[get];
      assert AnswersOk(cfg, g);
      ReaderAnswers(cfg, g);
      DeleteStaysHidden(cfg, run, steps, j, i, del, get);
    }
  }

  /** The exact bound: deletes that a coordinator acknowledged stay hidden from its own reads, in every calm run,
      exactly when `r` exceeds the number of the other members of the list. */
  lemma DeletesStayHiddenIff(cfg: Config, key: Bytes, reader: NodeID)
    requires Roomy(cfg) && ValidKey(key) && reader in PrefList(cfg, key) && |PrefList(cfg, key)| >= 2
    ensures NeverShowsDeleted(cfg, key, reader) <==> cfg.r > |Others(cfg, key, reader)|
  {
    if cfg.r > |Others(cfg, key, reader)| {
      forall run: seq<State>, steps, j: nat, i: nat, del: OpId, get: OpId | CalmRun(cfg, run, steps)
        ensures !ShowsDeleted(run, j, i, del, get, key, reader)
      {
        ReaderSeesItsDelete(cfg, run, steps, j, i, del, get, key, reader);
      }
    } else {
      SomeOther(cfg, key, reader);
      var run, steps, j := DeletedValueComesBack(cfg, key, reader);
    }
  }

  lemma SomeOther(cfg: Config, key: Bytes, reader: NodeID)
    requires |PrefList(cfg, key)| >= 2
    ensures Others(cfg, key, reader) != []
  {
    var list := PrefList(cfg, key);
    OthersAreOthers(cfg, key, reader);
    assert list[0] != list[1] && list[0] in list && list[1] in list;
    assert list[0] in Others(cfg, key, reader) || list[1] in Others(cfg, key, reader);
  }
}
