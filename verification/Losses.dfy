/** Runs in which everybody acknowledges and a value still is lost, or a deleted one returns. */
module Losses {
  import opened Common
  import opened VClock
  import opened ClockText
  import opened RecordCodec
  import opened Siblings
  import opened ReadMerge
  import opened StorageEngine
  import opened Transport
  import opened Lists
  import opened Quorum
  import opened Missed
  import opened Scenes
  import opened Stories
  import Dedup
  import Runs

  // ----- two Puts with the same context by one coordinator: equal clocks, one value is gone -----

  /** Clocks that enter are readable, and nothing is deleted. */
  function Harmless(): Step -> bool {
    (step: Step) => ReadableStep(step) && LiveStep(step)
  }

  lemma HarmlessToo(next: (State, Step, State) -> bool, p: Stretch)
    requires Runs.Valid(next, Readable(), p) && forall k: nat :: k < p.n ==> LiveStep(p.moves(k))
    ensures Runs.Valid(next, Harmless(), p)
  {
  }

  lemma LiveFromGood(cfg: Config, run: seq<State>, steps: seq<Step>)
    requires Runs.GoodRun(MildSteps(cfg), Harmless(), run, steps) && run[0] == INITIAL
    ensures LiveRun(cfg, run, steps)
  {
    forall i | 0 <= i < |steps| ensures LiveSteps(cfg)(run[i], steps[i], run[i + 1]) {
      assert MildSteps(cfg)(run[i], steps[i], run[i + 1]) && Harmless()(steps[i]);
    }
  }

  /** The version that replaces one with an equal clock. */
  lemma SameClockReplaces(value: Bytes, other: Bytes)
    ensures var x, y := Version(value, 1, false), Version(other, 1, false);
            Reconcile([x], [y]) == [y]
  {
    var x, y := Version(value, 1, false), Version(other, 1, false);
    SurvivingFrom([x], [y]);
    var all := Candidates([x], [y]);
    assert all[0] == y;
    forall z | z in all ensures Key(z) == Key(y) {
      assert z == x || z == y;
    }
    Dedup.ByKeyOneKey(Key, all);
  }

  /** A write of `x` that the whole list acknowledges before it returns. */
  datatype FullWrite = FullWrite(key: Bytes, begin: Step, x: Sibling, held: Holdings, puts: map<OpId, PutOp>, op: OpId)
  {
    function Before(cfg: Config): State {
      Scene(cfg, key, held, puts, map[])
    }

    function Begun(cfg: Config): State {
      Scene(cfg, key, held, puts[op := Op(key, x)], map[])
    }

    function Acknowledging(cfg: Config): Batch {
      Batch(key, held, puts[op := Op(key, x)], op, PrefList(cfg, key), x, 0)
    }

    ghost function Acknowledged(cfg: Config): PutOp {
      Op(key, x).(acked := {} + Elements(PrefList(cfg, key)))
    }

    ghost function Returned(cfg: Config): PutOp {
      Acknowledged(cfg).(status := Succeeded)
    }

    ghost function HeldThen(cfg: Config): Holdings {
      AllTo(held, Elements(PrefList(cfg, key)), [x])
    }

    ghost function PutsThen(cfg: Config): map<OpId, PutOp> {
      puts[op := Returned(cfg)]
    }

    ghost function Ready(cfg: Config): State {
      Scene(cfg, key, HeldThen(cfg), puts[op := Acknowledged(cfg)], map[])
    }

    ghost function After(cfg: Config): State {
      Scene(cfg, key, HeldThen(cfg), PutsThen(cfg), map[])
    }

    ghost function Phases(cfg: Config): seq<Stretch> {
      [Single(Before(cfg), begin, Begun(cfg)), Acks(cfg, Acknowledging(cfg)),
       Single(Ready(cfg), ReturnPut(op), After(cfg))]
    }
  }

  ghost predicate Possible(cfg: Config, w: FullWrite) {
    && Smooth(cfg, w.Acknowledging(cfg)) && cfg.w <= |PrefList(cfg, w.key)|
    && MildStep(cfg, w.Before(cfg), w.begin, w.Begun(cfg))
  }

  lemma AllAcknowledge(cfg: Config, w: FullWrite)
    ensures Acks(cfg, w.Acknowledging(cfg)).Start() == w.Begun(cfg)
    ensures Acks(cfg, w.Acknowledging(cfg)).End() == w.Ready(cfg)
  {
    AcksEnds(cfg, w.Acknowledging(cfg));
    ReturnReplaces(w.puts, w.op, Op(w.key, w.x), w.Acknowledged(cfg));
  }

  lemma EveryoneAcked(cfg: Config, w: FullWrite)
    ensures w.Acknowledged(cfg).acked == Elements(PrefList(cfg, w.key))
    ensures |w.Acknowledged(cfg).acked| == |PrefList(cfg, w.key)|
  {
    OthersAreOthers(cfg, w.key, C);
    NoRepeatsSize(PrefList(cfg, w.key));
  }

  lemma ReturnReplaces(puts: map<OpId, PutOp>, op: OpId, p: PutOp, q: PutOp)
    ensures puts[op := p][op := q] == puts[op := q]
  {
  }

  lemma AllReturn(cfg: Config, w: FullWrite)
    requires cfg.w <= |PrefList(cfg, w.key)|
    ensures MildStep(cfg, w.Ready(cfg), ReturnPut(w.op), w.After(cfg))
  {
    EveryoneAcked(cfg, w);
    FullPutReturns(cfg, w.Ready(cfg), w.op);
    ReturnReplaces(w.puts, w.op, w.Acknowledged(cfg), w.Returned(cfg));
  }

  lemma FullWriteLinksBy(next: (State, Step, State) -> bool, good: Step -> bool, cfg: Config, w: FullWrite)
    requires next(w.Before(cfg), w.begin, w.Begun(cfg)) && next(w.Ready(cfg), ReturnPut(w.op), w.After(cfg))
    requires good(w.begin) && good(ReturnPut(w.op)) && Runs.Valid(next, good, Acks(cfg, w.Acknowledging(cfg)))
    ensures Runs.Linked(next, good, w.Phases(cfg))
  {
    AllAcknowledge(cfg, w);
    MoveStretchMove(next, good, w.Before(cfg), w.begin, Acks(cfg, w.Acknowledging(cfg)), ReturnPut(w.op), w.After(cfg));
  }

  lemma FullWriteLinks(cfg: Config, w: FullWrite)
    requires Possible(cfg, w) && ReadableStep(w.begin)
    ensures Runs.Linked(MildSteps(cfg), Readable(), w.Phases(cfg))
  {
    AcksAreValid(cfg, w.Acknowledging(cfg));
    AllReturn(cfg, w);
    FullWriteLinksBy(MildSteps(cfg), Readable(), cfg, w);
  }

  lemma FullWriteIsHarmless(cfg: Config, w: FullWrite)
    requires Possible(cfg, w) && ReadableStep(w.begin) && LiveStep(w.begin)
    ensures Runs.Linked(MildSteps(cfg), Harmless(), w.Phases(cfg))
  {
    AcksAreValid(cfg, w.Acknowledging(cfg));
    HarmlessToo(MildSteps(cfg), Acks(cfg, w.Acknowledging(cfg)));
    AllReturn(cfg, w);
    FullWriteLinksBy(MildSteps(cfg), Harmless(), cfg, w);
  }

  /** A Put without context. */
  function FullPut(key: Bytes, value: Bytes, held: Holdings, puts: map<OpId, PutOp>, op: OpId): FullWrite {
    FullWrite(key, BeginPut(op, C, key, value, map[], 0, 0), Version(value, 1, false), held, puts, op)
  }

  lemma FullPutBegins(cfg: Config, w: FullWrite, value: Bytes)
    requires w == FullPut(w.key, value, w.held, w.puts, w.op)
    requires w.op !in w.puts && ValidKey(w.key) && |value| <= MAX_VALUE
    ensures MildStep(cfg, w.Before(cfg), w.begin, w.Begun(cfg)) && ReadableStep(w.begin)
  {
    TicksOfC();
    ReadableCount(1);
    PutBegins(cfg, w.Before(cfg), w.op, C, w.key, value, map[], 0);
  }

  lemma ReadingIsHarmless(next: (State, Step, State) -> bool, cfg: Config, q: Reading)
    requires Runs.Linked(next, Readable(), ReadingOf(cfg, q))
    ensures Runs.Linked(next, Harmless(), ReadingOf(cfg, q))
  {
    var phases := ReadingOf(cfg, q);
    forall i | 0 <= i < |phases| ensures Runs.Valid(next, Harmless(), phases[i]) {
      HarmlessToo(next, phases[i]);
    }
  }

  // what a read of one version shows

  lemma HolderReports(cfg: Config, s: State, n: NodeID, g: GetOp, x: Sibling)
    requires RecordAt(cfg, s, n, g.key) == Ok([x]) && Sent(x, 0) == x && !x.tombstone && !Expired(x, 0)
    ensures Reported(cfg, s, n, g, 0) == Answer(n, [x])
  {
    NothingExpired([x], 0);
    LiveIsAll([x]);
    assert SentAll([x], 0) == [x];
  }

  predicate AllReport(answers: seq<Answer>, x: Sibling) {
    forall i :: 0 <= i < |answers| ==> answers[i].Answer? && answers[i].siblings == [x]
  }

  lemma {:induction false} SameReports(answers: seq<Answer>, x: Sibling)
    requires AllReport(answers, x)
    ensures Successes(answers) == |answers| == |AllSiblings(answers)|
    ensures forall y :: y in AllSiblings(answers) ==> y == x
  {
    if answers != [] {
      SameReports(answers[..|answers| - 1], x);
    }
  }

  lemma OneVersionIsShown(cfg: Config, answers: seq<Answer>, x: Sibling)
    requires AllReport(answers, x) && !x.tombstone && answers != [] && cfg.r <= |answers|
    ensures var r := ReadResult(cfg, answers);
            r.Found? && Covers(r.siblings, x.clock) && forall y :: y in r.siblings ==> y == x
  {
    var all := AllSiblings(answers);
    SameReports(answers, x);
    forall i | 0 <= i < |all| ensures all[i] == x {
      assert all[i] in all;
    }
    CoveredBy(all, 0, x.clock);
    CoveredReadIsFound(cfg, answers, x.clock);
    MaximalIsAntichain(all);
    FilterMembers(NotTombstone, Maximal(all));
  }

  lemma OneReports(cfg: Config, q: Reading, n: NodeID, x: Sibling, k: Uint64)
    requires Roomy(cfg) && |x.value| <= MAX_VALUE && x == Version(x.value, k, false)
    requires n in q.held && q.held[n] == [x]
    ensures Reported(cfg, Scene(cfg, q.key, q.held, q.puts, map[]), n, Asked(q), 0) == Answer(n, [x])
  {
    VersionIsFine(cfg, x, k);
    HeldInScene(cfg, q.key, q.held, q.puts, map[], n);
    HolderReports(cfg, Scene(cfg, q.key, q.held, q.puts, map[]), n, Asked(q), x);
  }

  lemma HoldersReport(cfg: Config, q: Reading, x: Sibling, k: Uint64)
    requires Roomy(cfg) && q.now == 0 && |x.value| <= MAX_VALUE && x == Version(x.value, k, false)
    requires forall n :: n in q.nodes ==> n in q.held && q.held[n] == [x]
    ensures AllReport(Finished(cfg, q).answers, x)
  {
    var answers := Finished(cfg, q).answers;
    forall i | 0 <= i < |answers| ensures answers[i] == Answer(q.nodes[i], [x]) {
      assert q.nodes[i] in q.nodes;
      OneReports(cfg, q, q.nodes[i], x, k);
    }
  }

  lemma ReplacingIsQuiet(cfg: Config, x: Sibling, k: Uint64, y: Sibling, l: Uint64)
    requires Roomy(cfg) && |x.value| <= MAX_VALUE && x == Version(x.value, k, x.tombstone)
    requires y == Version(y.value, l, y.tombstone) && Reconcile([x], [y]) == [y]
    ensures Quiet([x], [y], cfg.opts, 0) && Sound(cfg, [x])
  {
    VersionIsFine(cfg, x, k);
    CountIsFine(cfg, l);
  }

  /** The nodes hold a version that the written one replaces. */
  ghost predicate Replaces(cfg: Config, b: Batch, x: Sibling, k: Uint64, l: Uint64) {
    && Roomy(cfg) && |x.value| <= MAX_VALUE && x == Version(x.value, k, x.tombstone) && Reconcile([x], [b.y]) == [b.y]
    && b.now == 0 && |b.y.value| <= MAX_VALUE && b.y == Version(b.y.value, l, b.y.tombstone)
    && b.op in b.puts && b.puts[b.op] == Op(b.key, b.y) && NoRepeats(b.nodes)
    && forall n :: n in b.nodes ==> n in PrefList(cfg, b.key) && n in b.held && b.held[n] == [x]
  }

  lemma ReplacingIsSmooth(cfg: Config, b: Batch, x: Sibling, k: Uint64, l: Uint64)
    requires Replaces(cfg, b, x, k, l)
    ensures Smooth(cfg, b)
  {
    VersionIsFine(cfg, b.y, l);
    ReplacingIsQuiet(cfg, x, k, b.y, l);
    forall n | n in b.nodes ensures SmoothAt(cfg, b, n) {
      DeliveredAsIs(cfg, b.puts[b.op], n, l);
    }
  }

  // the two writes

  /** Two values that one coordinator writes under one context, one after the other, and who reads then. */
  datatype Race = Race(key: Bytes, first: Bytes, second: Bytes, reader: NodeID) {
    function FirstWrite(): FullWrite {
      FullPut(key, first, map[], map[], 0)
    }

    ghost function SecondWrite(cfg: Config): FullWrite {
      FullPut(key, second, FirstWrite().HeldThen(cfg), FirstWrite().PutsThen(cfg), 1)
    }

    ghost function Question(cfg: Config): Reading {
      Reading(key, SecondWrite(cfg).HeldThen(cfg), SecondWrite(cfg).PutsThen(cfg), reader, PrefList(cfg, key), 0)
    }

    ghost function Writing(cfg: Config): seq<Stretch> {
      FirstWrite().Phases(cfg) + SecondWrite(cfg).Phases(cfg)
    }
  }

  predicate Fair(cfg: Config, race: Race) {
    && Roomy(cfg) && ValidKey(race.key) && |race.first| <= MAX_VALUE && |race.second| <= MAX_VALUE
    && PrefList(cfg, race.key) != [] && cfg.w <= |PrefList(cfg, race.key)| && cfg.r <= |PrefList(cfg, race.key)|
  }

  lemma FirstIsPossible(cfg: Config, race: Race)
    requires Fair(cfg, race)
    ensures Possible(cfg, race.FirstWrite()) && ReadableStep(race.FirstWrite().begin)
  {
    FullPutBegins(cfg, race.FirstWrite(), race.first);
    OthersAreOthers(cfg, race.key, race.reader);
    FirstWriteIsSmooth(cfg, race.FirstWrite().Acknowledging(cfg), 1);
  }

  lemma SecondReplaces(cfg: Config, race: Race)
    requires Fair(cfg, race)
    ensures Replaces(cfg, race.SecondWrite(cfg).Acknowledging(cfg), Version(race.first, 1, false), 1, 1)
  {
    OthersAreOthers(cfg, race.key, race.reader);
    SameClockReplaces(race.first, race.second);
  }

  lemma SecondIsPossible(cfg: Config, race: Race)
    requires Fair(cfg, race)
    ensures Possible(cfg, race.SecondWrite(cfg)) && ReadableStep(race.SecondWrite(cfg).begin)
  {
    FullPutBegins(cfg, race.SecondWrite(cfg), race.second);
    SecondReplaces(cfg, race);
    ReplacingIsSmooth(cfg, race.SecondWrite(cfg).Acknowledging(cfg), Version(race.first, 1, false), 1, 1);
  }

  lemma WritingLinks(cfg: Config, race: Race)
    requires Fair(cfg, race)
    ensures Runs.Linked(MildSteps(cfg), Harmless(), race.Writing(cfg))
  {
    FirstIsPossible(cfg, race);
    FullWriteIsHarmless(cfg, race.FirstWrite());
    SecondIsPossible(cfg, race);
    FullWriteIsHarmless(cfg, race.SecondWrite(cfg));
    Runs.LinkedConcat(MildSteps(cfg), Harmless(), race.FirstWrite().Phases(cfg), race.SecondWrite(cfg).Phases(cfg));
  }

  lemma QuestionIsSteady(cfg: Config, race: Race)
    requires Fair(cfg, race)
    ensures Steady(cfg, race.Question(cfg))
  {
    var q := race.Question(cfg);
    OthersAreOthers(cfg, race.key, race.reader);
    forall n | n in q.nodes ensures SteadyAt(cfg, q, n) {
      VersionIsSteady(cfg, q, n, Version(race.second, 1, false), 1);
    }
  }

  lemma SecondIsShown(cfg: Config, race: Race)
    requires Fair(cfg, race)
    ensures var g := Finished(cfg, race.Question(cfg));
            ShowsOnly(g, Version(race.second, 1, false)) && g.key == race.key
  {
    var q, x := race.Question(cfg), Version(race.second, 1, false);
    HoldersReport(cfg, q, x, 1);
    OneVersionIsShown(cfg, Finished(cfg, q).answers, x);
  }

  ghost predicate ShowsOnly(g: GetOp, x: Sibling) {
    && g.outcome.Some? && g.outcome.value.Found? && Covers(g.outcome.value.siblings, x.clock)
    && forall y :: y in g.outcome.value.siblings ==> y == x
  }

  lemma EndsWithoutValue(cfg: Config, run: seq<State>, j: nat, p: PutOp, g: GetOp, x: Sibling)
    requires j < |run| && 0 in run[j].puts && run[j].puts[0] == p && run[j].gets == map[]
    requires 0 in run[|run| - 1].gets && run[|run| - 1].gets[0] == g && g.key == p.key && p.status == Succeeded
    requires ShowsOnly(g, x) && p.sibling.clock == x.clock && p.sibling.value != x.value
    ensures ReadAfterWrite(cfg, run, j, |run| - 1, 0, 0)
    ensures Met(run, j, |run| - 1, 0, 0) && !ShowsValue(run, j, |run| - 1, 0, 0)
  {
  }

  lemma WritesThenRead(next: (State, Step, State) -> bool, cfg: Config, race: Race)
    returns (run: seq<State>, steps: seq<Step>, j: nat)
    requires Runs.Linked(next, Harmless(), race.Writing(cfg))
    requires Runs.Linked(next, Harmless(), ReadingOf(cfg, race.Question(cfg)))
    ensures Runs.GoodRun(next, Harmless(), run, steps) && run[0] == INITIAL && j < |run|
    ensures run[j] == race.SecondWrite(cfg).After(cfg)
    ensures run[|run| - 1] == ReadScene(cfg, race.Question(cfg), Finished(cfg, race.Question(cfg)))
  {
    EmptyScene(cfg, race.key);
    ReadingEnds(cfg, race.Question(cfg));
    run, steps, j := Runs.RunOfTwo(next, Harmless(), race.Writing(cfg), ReadingOf(cfg, race.Question(cfg)));
  }

  lemma RaceRuns(cfg: Config, race: Race) returns (run: seq<State>, steps: seq<Step>, j: nat)
    requires Fair(cfg, race)
    ensures LiveRun(cfg, run, steps) && j < |run| && run[j] == race.SecondWrite(cfg).After(cfg)
    ensures run[|run| - 1] == ReadScene(cfg, race.Question(cfg), Finished(cfg, race.Question(cfg)))
  {
    WritingLinks(cfg, race);
    QuestionIsSteady(cfg, race);
    ReadingLinks(cfg, race.Question(cfg));
    ReadingIsHarmless(MildSteps(cfg), cfg, race.Question(cfg));
    run, steps, j := WritesThenRead(MildSteps(cfg), cfg, race);
    LiveFromGood(cfg, run, steps);
  }

  lemma FirstHasReturned(cfg: Config, race: Race)
    ensures var s := race.SecondWrite(cfg).After(cfg);
            0 in s.puts && s.puts[0] == race.FirstWrite().Returned(cfg) && s.gets == map[]
  {
  }

  /** A live run in which the read meets a write that every member acknowledged, and the written value is gone: another
      Put of the same coordinator under the same context has an equal clock. */
  lemma EqualClocksHideValue(cfg: Config, race: Race) returns (run: seq<State>, steps: seq<Step>, j: nat)
    requires Fair(cfg, race) && race.first != race.second
    ensures LiveRun(cfg, run, steps) && |run| > 0 && ReadAfterWrite(cfg, run, j, |run| - 1, 0, 0)
    ensures run[j].puts[0].acked == Elements(PrefList(cfg, race.key)) && run[j].puts[0].sibling.value == race.first
    ensures Met(run, j, |run| - 1, 0, 0) && !ShowsValue(run, j, |run| - 1, 0, 0)
  {
    run, steps, j := RaceRuns(cfg, race);
    FirstHasReturned(cfg, race);
    EveryoneAcked(cfg, race.FirstWrite());
    SecondIsShown(cfg, race);
    EndsWithoutValue(cfg, run, j, race.FirstWrite().Returned(cfg), Finished(cfg, race.Question(cfg)),
                     Version(race.second, 1, false));
  }

  // ----- a delete that everybody acknowledged, and one late delivery -----

  function FullDelete(key: Bytes, held: Holdings, puts: map<OpId, PutOp>, op: OpId): FullWrite {
    FullWrite(key, BeginDelete(op, C, key, Count(1), 0), Grave(), held, puts, op)
  }

  lemma FullDeleteBegins(cfg: Config, w: FullWrite)
    requires w == FullDelete(w.key, w.held, w.puts, w.op) && w.op !in w.puts
    ensures MildStep(cfg, w.Before(cfg), w.begin, w.Begun(cfg)) && ReadableStep(w.begin)
  {
    TicksOfC();
    ReadableCount(1);
    ReadableCount(2);
    DeleteBegins(cfg, w.Before(cfg), w.op, C, w.key, Count(1), 0);
  }

  lemma GraveReplaces()
    ensures Reconcile([Value()], [Grave()]) == [Grave()]
  {
    GraveIsAfter();
    OverridingWriteCollapses([Value()], Grave());
  }

  /** An incoming sibling is kept beside a stored one that happens after it. */
  lemma LowerJoins(e: Sibling, w: Sibling)
    requires Compare(w.clock, e.clock) != After && Key(w) != Key(e)
    ensures Reconcile([e], [w]) == [w, e]
  {
    assert [e][..0] == [] && Surviving([e], [w]) == [e];
    assert [w, e][..1] == [w] && [w][..0] == [];
    assert Dedup.ByKey(Key, [w]) == [w] && Dedup.KeysOf(Key, [w]) == {Key(w)};
  }

  lemma ValueJoins()
    ensures Reconcile([Grave()], [Value()]) == [Value(), Grave()]
  {
    GraveIsAfter();
    ReadableCount(1);
    ReadableCount(2);
    if Key(Value()) == Key(Grave()) {
      ClockStringInjective(Count(1), Count(2));
    }
    LowerJoins(Grave(), Value());
  }

  /** Everybody stores the value and then its delete; `late` is the member that the value reaches once more. */
  datatype Burial = Burial(key: Bytes, late: NodeID, reader: NodeID) {
    function Write(): FullWrite {
      FullPut(key, [], map[], map[], 0)
    }

    ghost function Delete(cfg: Config): FullWrite {
      FullDelete(key, Write().HeldThen(cfg), Write().PutsThen(cfg), 1)
    }

    ghost function HeldLate(cfg: Config): Holdings {
      Delete(cfg).HeldThen(cfg)[late := [Value(), Grave()]]
    }

    ghost function Arrived(cfg: Config): State {
      Scene(cfg, key, HeldLate(cfg), Delete(cfg).PutsThen(cfg), map[])
    }

    ghost function Story(cfg: Config): seq<Stretch> {
      Write().Phases(cfg) + Delete(cfg).Phases(cfg) +
      [Single(Delete(cfg).After(cfg), Background(late, key, [Value()], 0), Arrived(cfg))]
    }

    ghost function Question(cfg: Config): Reading {
      Reading(key, HeldLate(cfg), Delete(cfg).PutsThen(cfg), reader, Others(cfg, key, reader), 0)
    }
  }

  ghost predicate Ordinary(cfg: Config, b: Burial) {
    && Roomy(cfg) && cfg.opts.maxSiblings >= 2 && ValidKey(b.key) && cfg.w <= |PrefList(cfg, b.key)|
    && b.late in PrefList(cfg, b.key) && b.late != b.reader && cfg.r <= |Others(cfg, b.key, b.reader)|
  }

  lemma WriteIsPossible(cfg: Config, b: Burial)
    requires Ordinary(cfg, b)
    ensures Possible(cfg, b.Write()) && ReadableStep(b.Write().begin)
  {
    FullPutBegins(cfg, b.Write(), []);
    OthersAreOthers(cfg, b.key, b.reader);
    FirstWriteIsSmooth(cfg, b.Write().Acknowledging(cfg), 1);
  }

  lemma DeleteReplaces(cfg: Config, b: Burial)
    requires Ordinary(cfg, b)
    ensures Replaces(cfg, b.Delete(cfg).Acknowledging(cfg), Value(), 1, 2)
  {
    OthersAreOthers(cfg, b.key, b.reader);
    GraveReplaces();
  }

  lemma DeleteIsPossible(cfg: Config, b: Burial)
    requires Ordinary(cfg, b)
    ensures Possible(cfg, b.Delete(cfg)) && ReadableStep(b.Delete(cfg).begin)
  {
    FullDeleteBegins(cfg, b.Delete(cfg));
    DeleteReplaces(cfg, b);
    ReplacingIsSmooth(cfg, b.Delete(cfg).Acknowledging(cfg), Value(), 1, 2);
  }

  lemma PairIsSound(cfg: Config, x: Sibling, k: Uint64, y: Sibling, l: Uint64)
    requires |x.value| <= MAX_VALUE && x == Version(x.value, k, x.tombstone)
    requires |y.value| <= MAX_VALUE && y == Version(y.value, l, y.tombstone)
    ensures Sound(cfg, [x, y])
  {
    ReadableCount(k);
    ReadableCount(l);
    SiblingsEncode([x, y]);
  }

  lemma JoiningIsQuiet(cfg: Config, x: Sibling, k: Uint64, y: Sibling, l: Uint64)
    requires Roomy(cfg) && cfg.opts.maxSiblings >= 2 && Reconcile([y], [x]) == [x, y]
    requires x == Version(x.value, k, x.tombstone) && y == Version(y.value, l, y.tombstone)
    ensures Quiet([y], [x], cfg.opts, 0)
  {
    CountIsFine(cfg, k);
    CountIsFine(cfg, l);
  }

  lemma LateArrives(cfg: Config, b: Burial)
    requires Ordinary(cfg, b)
    ensures MildStep(cfg, b.Delete(cfg).After(cfg), Background(b.late, b.key, [Value()], 0), b.Arrived(cfg))
  {
    var held := b.Delete(cfg).HeldThen(cfg);
    PairIsSound(cfg, Value(), 1, Grave(), 2);
    ValueJoins();
    JoiningIsQuiet(cfg, Value(), 1, Grave(), 2);
    VersionIsFine(cfg, Value(), 1);
    VersionIsFine(cfg, Grave(), 2);
    assert b.late in Elements(PrefList(cfg, b.key));
    assert b.late in held && held[b.late] == [Grave()];
    BackgroundInScene(cfg, b.key, held, b.Delete(cfg).PutsThen(cfg), map[], b.late, [Value()], 0);
  }

  lemma OneMorePhase(next: (State, Step, State) -> bool, good: Step -> bool, a: seq<Stretch>, s: State, move: Step,
                     t: State)
    requires a != [] && Runs.Linked(next, good, a) && a[|a| - 1].End() == s && next(s, move, t) && good(move)
    ensures Runs.Linked(next, good, a + [Single(s, move, t)]) && (a + [Single(s, move, t)])[|a|].End() == t
  {
    SingleIsValid(next, good, s, move, t);
    Runs.LinkedConcat(next, good, a, [Single(s, move, t)]);
  }

  lemma WriteAndDeleteLink(cfg: Config, b: Burial)
    requires Ordinary(cfg, b)
    ensures Runs.Linked(MildSteps(cfg), Readable(), b.Write().Phases(cfg) + b.Delete(cfg).Phases(cfg))
  {
    WriteIsPossible(cfg, b);
    FullWriteLinks(cfg, b.Write());
    DeleteIsPossible(cfg, b);
    FullWriteLinks(cfg, b.Delete(cfg));
    Runs.LinkedConcat(MildSteps(cfg), Readable(), b.Write().Phases(cfg), b.Delete(cfg).Phases(cfg));
  }

  lemma LateIsReadable(b: Burial)
    ensures Readable()(Background(b.late, b.key, [Value()], 0))
  {
    ReadableCount(1);
  }

  lemma StoryLinksBy(next: (State, Step, State) -> bool, cfg: Config, b: Burial)
    requires Runs.Linked(next, Readable(), b.Write().Phases(cfg) + b.Delete(cfg).Phases(cfg))
    requires next(b.Delete(cfg).After(cfg), Background(b.late, b.key, [Value()], 0), b.Arrived(cfg))
    ensures Runs.Linked(next, Readable(), b.Story(cfg))
  {
    LateIsReadable(b);
    OneMorePhase(next, Readable(), b.Write().Phases(cfg) + b.Delete(cfg).Phases(cfg),
                 b.Delete(cfg).After(cfg), Background(b.late, b.key, [Value()], 0), b.Arrived(cfg));
  }

  lemma StoryLinks(cfg: Config, b: Burial)
    requires Ordinary(cfg, b)
    ensures Runs.Linked(MildSteps(cfg), Readable(), b.Story(cfg))
  {
    WriteAndDeleteLink(cfg, b);
    LateArrives(cfg, b);
    StoryLinksBy(MildSteps(cfg), cfg, b);
  }

  /** What the members hold that the reader asks. */
  lemma HeldWhenAsked(cfg: Config, b: Burial, n: NodeID)
    requires Ordinary(cfg, b) && n in Others(cfg, b.key, b.reader)
    ensures n in b.HeldLate(cfg) && n in PrefList(cfg, b.key)
    ensures b.HeldLate(cfg)[n] == if n == b.late then [Value(), Grave()] else [Grave()]
  {
    OthersAreOthers(cfg, b.key, b.reader);
    assert n in Elements(PrefList(cfg, b.key));
  }

  lemma BothAreSteady(cfg: Config, q: Reading, n: NodeID)
    requires Roomy(cfg) && q.now == 0 && n in PrefList(cfg, q.key) && n in q.held && q.held[n] == [Value(), Grave()]
    ensures SteadyAt(cfg, q, n)
  {
    PairIsSound(cfg, Value(), 1, Grave(), 2);
  }

  lemma BurialIsSteady(cfg: Config, b: Burial)
    requires Ordinary(cfg, b)
    ensures Steady(cfg, b.Question(cfg))
  {
    var q := b.Question(cfg);
    OthersAreOthers(cfg, b.key, b.reader);
    forall n | n in q.nodes ensures SteadyAt(cfg, q, n) {
      HeldWhenAsked(cfg, b, n);
      if n == b.late {
        BothAreSteady(cfg, q, n);
      } else {
        VersionIsSteady(cfg, q, n, Grave(), 2);
      }
    }
  }

  lemma NothingElseLives(cfg: Config, b: Burial, n: NodeID, y: Sibling)
    requires Ordinary(cfg, b) && n in Others(cfg, b.key, b.reader)
    ensures y in Held(b.HeldLate(cfg), n) && !y.tombstone ==> y == Value()
  {
    HeldWhenAsked(cfg, b, n);
  }

  lemma LateIsAsked(cfg: Config, b: Burial)
    requires Ordinary(cfg, b)
    ensures b.late in Others(cfg, b.key, b.reader) && b.reader !in Others(cfg, b.key, b.reader)
    ensures Value() in Held(b.HeldLate(cfg), b.late)
  {
    OthersAreOthers(cfg, b.key, b.reader);
    HeldWhenAsked(cfg, b, b.late);
  }

  lemma LateIsShown(cfg: Config, b: Burial)
    requires Ordinary(cfg, b)
    ensures Shows(Finished(cfg, b.Question(cfg)).outcome.value, Count(1))
  {
    var q := b.Question(cfg);
    BurialIsSteady(cfg, b);
    LateIsAsked(cfg, b);
    forall m, y | m in q.nodes && y in Held(q.held, m) && !y.tombstone
      ensures Compare(Value().clock, y.clock) != Before
    {
      NothingElseLives(cfg, b, m, y);
    }
    SteadyReadShows(cfg, q, b.late, Value());
  }

  lemma EndsOfConcat(a: seq<Stretch>, b: seq<Stretch>, c: Stretch)
    requires a != []
    ensures (a + b + [c])[0] == a[0] && (a + b + [c])[|a + b + [c]| - 1] == c
  {
  }

  lemma StoryEnds(cfg: Config, b: Burial)
    ensures b.Story(cfg) != [] && b.Story(cfg)[0].Start() == INITIAL
    ensures b.Story(cfg)[|b.Story(cfg)| - 1].End() == b.Arrived(cfg)
  {
    EmptyScene(cfg, b.key);
    EndsOfConcat(b.Write().Phases(cfg), b.Delete(cfg).Phases(cfg),
                 Single(b.Delete(cfg).After(cfg), Background(b.late, b.key, [Value()], 0), b.Arrived(cfg)));
  }

  lemma BurialRuns(next: (State, Step, State) -> bool, cfg: Config, b: Burial)
    returns (run: seq<State>, steps: seq<Step>, j: nat)
    requires Runs.Linked(next, Readable(), b.Story(cfg))
    requires Runs.Linked(next, Readable(), ReadingOf(cfg, b.Question(cfg)))
    ensures Runs.GoodRun(next, Readable(), run, steps) && run[0] == INITIAL && j < |run|
    ensures run[j] == b.Arrived(cfg)
    ensures run[|run| - 1] == ReadScene(cfg, b.Question(cfg), Finished(cfg, b.Question(cfg)))
  {
    StoryEnds(cfg, b);
    ReadingEnds(cfg, b.Question(cfg));
    run, steps, j := Runs.RunOfTwo(next, Readable(), b.Story(cfg), ReadingOf(cfg, b.Question(cfg)));
  }

  /** A calm run in which a Put and then its delete succeed at every member, the value reaches one member once more, and
      a read shows it. A reader off the list needs only that the list is long enough for `r`. */
  lemma DeletedEverywhereComesBack(cfg: Config, b: Burial) returns (run: seq<State>, steps: seq<Step>, j: nat)
    requires Ordinary(cfg, b)
    ensures CalmRun(cfg, run, steps) && j < |run| && 1 in run[j].puts && run[j].gets == map[]
    ensures var p := run[j].puts[1];
            && p.sibling == Grave() && p.status == Succeeded && p.acked == Elements(PrefList(cfg, b.key))
            && p.key == b.key
    ensures var gets := run[|run| - 1].gets;
            && 0 in gets && gets[0].key == b.key && gets[0].coordinator == b.reader && gets[0].outcome.Some?
            && Shows(gets[0].outcome.value, Count(1)) && Compare(Count(1), run[j].puts[1].sibling.clock) == Before
  {
    StoryLinks(cfg, b);
    BurialIsSteady(cfg, b);
    ReadingLinks(cfg, b.Question(cfg));
    run, steps, j := BurialRuns(MildSteps(cfg), cfg, b);
    CalmFromGood(cfg, run, steps);
    LateIsShown(cfg, b);
    EveryoneAcked(cfg, b.Delete(cfg));
    GraveIsAfter();
  }
}
