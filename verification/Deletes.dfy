/** What a read shows after a delete: remote replicas hide their tombstones, the coordinator sees its own. */
module Deletes {
  import opened Common
  import opened VClock
  import opened Siblings
  import opened ReadMerge
  import opened StorageEngine
  import opened Transport
  import opened Lists
  import opened Quorum
  import Runs

  // ----- the moments of a read -----

  /** A node answers in some state at some time; other steps may come between the answers to one read. */
  datatype Moment = Moment(s: State, now: Int64, node: NodeID)

  function StoredThen(cfg: Config, g: GetOp, m: Moment): seq<Sibling> {
    StoredAt(cfg, m.s, m.node, g.key)
  }

  /** A stored sibling that the answer shows. */
  predicate Visible(cfg: Config, g: GetOp, m: Moment, y: Sibling) {
    y in StoredThen(cfg, g, m) && if m.node == g.coordinator then !Expired(y, m.now) else !y.tombstone
  }

  function AnswerAt(cfg: Config, g: GetOp, m: Moment): Answer {
    Reported(cfg, m.s, m.node, g, m.now)
  }

  function AnswersFrom(cfg: Config, g: GetOp, ms: seq<Moment>): seq<Answer> {
    seq(|ms|, i requires 0 <= i < |ms| => AnswerAt(cfg, g, ms[i]))
  }

  /** Everything the answers contain. */
  function Gathered(cfg: Config, g: GetOp, ms: seq<Moment>): seq<Sibling> {
    AllSiblings(AnswersFrom(cfg, g, ms))
  }

  // ----- versions, whatever the stamps -----

  predicate SameVersion(x: Sibling, y: Sibling) {
    Counters(x.clock) == Counters(y.clock) && x.tombstone == y.tombstone
  }

  /** The same versions position by position. */
  predicate Alike(a: seq<Sibling>, b: seq<Sibling>) {
    |a| == |b| && forall i :: 0 <= i < |a| ==> SameVersion(a[i], b[i])
  }

  lemma AlikeConcat(a: seq<Sibling>, b: seq<Sibling>, c: seq<Sibling>, d: seq<Sibling>)
    requires Alike(a, b) && Alike(c, d)
    ensures Alike(a + c, b + d)
  {
  }

  lemma CompareByCounters(c: Clock, a: Clock, b: Clock)
    requires Counters(a) == Counters(b)
    ensures Compare(c, a) == Compare(c, b) && Compare(a, c) == Compare(b, c)
  {
    EqualIffSameCounters(a, b);
    SameCountersCompare(a, b, c);
    if Leq(c, a) {
      LeqTransitive(c, a, b);
    }
    if Leq(c, b) {
      LeqTransitive(c, b, a);
    }
    if Leq(a, c) {
      LeqTransitive(b, a, c);
    }
    if Leq(b, c) {
      LeqTransitive(a, b, c);
    }
  }

  ghost predicate HasVersion(s: seq<Sibling>, c: Clock) {
    exists y :: y in s && Counters(y.clock) == Counters(c)
  }

  ghost predicate Unsurpassed(s: seq<Sibling>, c: Clock) {
    forall y :: y in s ==> Compare(c, y.clock) != Before
  }

  lemma AlikeDominated(a: seq<Sibling>, b: seq<Sibling>, x: Sibling, c: Clock)
    requires Alike(a, b) && Counters(x.clock) == Counters(c)
    ensures Dominated(x, a) <==> !Unsurpassed(b, c)
  {
    forall i | 0 <= i < |a| ensures Compare(x.clock, a[i].clock) == Compare(c, b[i].clock) {
      CompareByCounters(x.clock, a[i].clock, b[i].clock);
      CompareByCounters(b[i].clock, x.clock, c);
    }
    if !Unsurpassed(b, c) {
      var y :| y in b && Compare(c, y.clock) == Before;
      var i :| 0 <= i < |b| && b[i] == y;
      assert Compare(x.clock, a[i].clock) == Before;
    }
    if Dominated(x, a) {
      var i :| 0 <= i < |a| && Compare(x.clock, a[i].clock) == Before;
      assert b[i] in b;
    }
  }

  /** The merge of one sequence, told from the versions of another that is alike. */
  lemma AlikeShows(a: seq<Sibling>, b: seq<Sibling>, c: Clock)
    requires Alike(a, b)
    ensures Counters(c) in ClockSet(Maximal(a)) <==> HasVersion(b, c) && Unsurpassed(b, c)
  {
    MaximalIsExact(a, c);
    if x :| x in a && !Dominated(x, a) && Counters(x.clock) == Counters(c) {
      AlikeHolds(a, b, x, c);
    }
    if HasVersion(b, c) && Unsurpassed(b, c) {
      var x := AlikeStands(a, b, c);
    }
  }

  lemma AlikeHolds(a: seq<Sibling>, b: seq<Sibling>, x: Sibling, c: Clock)
    requires Alike(a, b) && x in a && !Dominated(x, a) && Counters(x.clock) == Counters(c)
    ensures HasVersion(b, c) && Unsurpassed(b, c)
  {
    AlikeDominated(a, b, x, c);
    var i :| 0 <= i < |a| && a[i] == x;
    assert b[i] in b && Counters(b[i].clock) == Counters(c);
  }

  lemma AlikeStands(a: seq<Sibling>, b: seq<Sibling>, c: Clock) returns (x: Sibling)
    requires Alike(a, b) && HasVersion(b, c) && Unsurpassed(b, c)
    ensures x in a && !Dominated(x, a) && Counters(x.clock) == Counters(c)
  {
    var y :| y in b && Counters(y.clock) == Counters(c);
    var i :| 0 <= i < |b| && b[i] == y;
    x := a[i];
    AlikeDominated(a, b, x, c);
  }

  // ----- the answers show the visible siblings -----

  function Showing(cfg: Config, g: GetOp): Moment -> seq<Sibling> {
    (m: Moment) =>
      if m.node == g.coordinator then Unexpired(StoredThen(cfg, g, m), m.now) else Live(StoredThen(cfg, g, m))
  }

  function ShownBy(cfg: Config, g: GetOp, ms: seq<Moment>): seq<Sibling> {
    Flatten(Showing(cfg, g), ms)
  }

  lemma ShowingMembers(cfg: Config, g: GetOp, m: Moment, y: Sibling)
    ensures y in Showing(cfg, g)(m) <==> Visible(cfg, g, m, y)
  {
    UnexpiredFrom(StoredThen(cfg, g, m), m.now);
    FilterMembers(NotTombstone, StoredThen(cfg, g, m));
  }

  lemma ShownByMembers(cfg: Config, g: GetOp, ms: seq<Moment>, y: Sibling)
    ensures y in ShownBy(cfg, g, ms) <==> exists m :: m in ms && Visible(cfg, g, m, y)
  {
    FlattenMembers(Showing(cfg, g), ms, y);
    forall m | m in ms ensures y in Showing(cfg, g)(m) <==> Visible(cfg, g, m, y) {
      ShowingMembers(cfg, g, m, y);
    }
  }

  lemma AnswerIsAlike(cfg: Config, g: GetOp, m: Moment)
    ensures var a := AnswerAt(cfg, g, m);
            Alike(if a.Answer? then a.siblings else [], Showing(cfg, g)(m))
  {
    var live := Live(StoredThen(cfg, g, m));
    if m.node == g.coordinator {
      var none: seq<Sibling> := [];
      assert Unexpired(none, m.now) == none;
    } else {
      forall i | 0 <= i < |live| ensures SameVersion(SentAll(live, m.now)[i], live[i]) {
        RestampedCounters(live[i].clock, m.now);
      }
    }
  }

  lemma GatheredSnoc(cfg: Config, g: GetOp, ms: seq<Moment>, m: Moment)
    ensures Gathered(cfg, g, ms + [m]) ==
            Gathered(cfg, g, ms) + (if AnswerAt(cfg, g, m).Answer? then AnswerAt(cfg, g, m).siblings else [])
  {
    var answers := AnswersFrom(cfg, g, ms + [m]);
    assert answers[..|ms|] == AnswersFrom(cfg, g, ms) && answers[|ms|] == AnswerAt(cfg, g, m);
  }

  lemma {:induction false} GatheredIsAlike(cfg: Config, g: GetOp, ms: seq<Moment>)
    ensures Alike(Gathered(cfg, g, ms), ShownBy(cfg, g, ms))
  {
    if ms != [] {
      var k := |ms| - 1;
      GatheredIsAlike(cfg, g, ms[..k]);
      AnswerIsAlike(cfg, g, ms[k]);
      GatheredSnoc(cfg, g, ms[..k], ms[k]);
      assert ms == ms[..k] + [ms[k]];
      var a := AnswerAt(cfg, g, ms[k]);
      AlikeConcat(Gathered(cfg, g, ms[..k]), ShownBy(cfg, g, ms[..k]),
                  if a.Answer? then a.siblings else [], Showing(cfg, g)(ms[k]));
    }
  }

  /** No moment shows a sibling that happens after the clock. */
  ghost predicate NoneAfter(cfg: Config, g: GetOp, ms: seq<Moment>, c: Clock) {
    forall m, y :: m in ms && Visible(cfg, g, m, y) ==> Compare(c, y.clock) != Before
  }

  /** Some moment shows the version. */
  ghost predicate Shown(cfg: Config, g: GetOp, ms: seq<Moment>, c: Clock) {
    exists m, y :: m in ms && Visible(cfg, g, m, y) && Counters(y.clock) == Counters(c)
  }

  /** For every read and every choice of the moments at which nodes answer: a version is in the merged result exactly
      when some answer shows it and none shows a sibling that happens after it. Tombstones are shown by the
      coordinator alone. */
  lemma ReadShowsIff(cfg: Config, g: GetOp, ms: seq<Moment>, c: Clock)
    ensures Counters(c) in ClockSet(Maximal(Gathered(cfg, g, ms))) <==>
            Shown(cfg, g, ms, c) && NoneAfter(cfg, g, ms, c)
  {
    var shown := ShownBy(cfg, g, ms);
    GatheredIsAlike(cfg, g, ms);
    AlikeShows(Gathered(cfg, g, ms), shown, c);
    forall y ensures y in shown <==> exists m :: m in ms && Visible(cfg, g, m, y) {
      ShownByMembers(cfg, g, ms, y);
    }
  }

  /** Only remote nodes answer. */
  predicate Remote(g: GetOp, ms: seq<Moment>) {
    forall m :: m in ms ==> m.node != g.coordinator
  }

  lemma RemoteIsLive(cfg: Config, g: GetOp, ms: seq<Moment>)
    requires Remote(g, ms)
    ensures AllLive(Maximal(Gathered(cfg, g, ms)))
  {
    var all, shown := Gathered(cfg, g, ms), ShownBy(cfg, g, ms);
    var m := Maximal(all);
    GatheredIsAlike(cfg, g, ms);
    MaximalIsAntichain(all);
    forall i | 0 <= i < |m| ensures !m[i].tombstone {
      assert m[i] in m;
      var k :| 0 <= k < |all| && all[k] == m[i];
      ShownByMembers(cfg, g, ms, shown[k]);
    }
  }

  /** No live sibling that a responder stored happens after the clock. */
  ghost predicate NoLiveAfter(cfg: Config, g: GetOp, ms: seq<Moment>, c: Clock) {
    forall m, y :: m in ms && y in StoredThen(cfg, g, m) && !y.tombstone ==> Compare(c, y.clock) != Before
  }

  lemma RemoteAfter(cfg: Config, g: GetOp, ms: seq<Moment>, c: Clock)
    requires Remote(g, ms)
    ensures NoneAfter(cfg, g, ms, c) <==> NoLiveAfter(cfg, g, ms, c)
  {
    forall m, y | m in ms ensures Visible(cfg, g, m, y) <==> y in StoredThen(cfg, g, m) && !y.tombstone {
    }
  }

  /** However many replicas hold the tombstone, when the coordinator is not among the responders a deleted value that
      one of them still held when it answered is shown to the client exactly when no live sibling of a responder
      happens after it. */
  lemma DeletedValueReturnsIff(cfg: Config, g: GetOp, ms: seq<Moment>, m: Moment, v: Sibling)
    requires Remote(g, ms) && m in ms && v in StoredThen(cfg, g, m) && !v.tombstone
    ensures Counters(v.clock) in ClockSet(Live(Maximal(Gathered(cfg, g, ms)))) <==> NoLiveAfter(cfg, g, ms, v.clock)
  {
    assert Visible(cfg, g, m, v);
    ReadShowsIff(cfg, g, ms, v.clock);
    RemoteAfter(cfg, g, ms, v.clock);
    RemoteIsLive(cfg, g, ms);
    LiveIsAll(Maximal(Gathered(cfg, g, ms)));
  }

  // ----- every read of every run has its moments -----

  /** What the read has gathered is what nodes answered at moments of the run up to state `i`. */
  ghost predicate Explained(cfg: Config, run: seq<State>, i: nat, g: GetOp, ms: seq<Moment>)
    requires i <= |run|
  {
    AllSiblings(g.answers) == Gathered(cfg, g, ms) && forall k :: 0 <= k < |ms| ==> ms[k].s in run[..i]
  }

  lemma SameQuestion(cfg: Config, g: GetOp, g': GetOp, ms: seq<Moment>)
    requires g.key == g'.key && g.coordinator == g'.coordinator
    ensures Gathered(cfg, g, ms) == Gathered(cfg, g', ms)
  {
    assert AnswersFrom(cfg, g, ms) == AnswersFrom(cfg, g', ms);
  }

  lemma AnswerSnoc(answers: seq<Answer>, a: Answer)
    ensures AllSiblings(answers + [a]) == AllSiblings(answers) + (if a.Answer? then a.siblings else [])
  {
    assert (answers + [a])[..|answers|] == answers;
  }

  /** What one step does to a read. */
  datatype Effect = Opens | Keeps | Hears(m: Moment) | Misses(n: NodeID) | Closes

  ghost function EffectOn(s: State, step: Step, get: OpId): Effect {
    if get !in s.gets then Opens
    else if step.ReplicaGet? && step.op == get then Hears(Moment(s, step.now, step.node))
    else if step.ReplicaGetFails? && step.op == get then Misses(step.node)
    else if step.ReturnGet? && step.op == get then Closes
    else Keeps
  }

  lemma StepOnRead(cfg: Config, s: State, step: Step, s': State, get: OpId)
    requires Next(cfg, s, step, s') && get in s'.gets
    ensures match EffectOn(s, step, get)
            case Opens => s'.gets[get].answers == []
            case Keeps => s'.gets[get] == s.gets[get]
            case Hears(m) =>
              s'.gets[get] == s.gets[get].(answers := s.gets[get].answers + [AnswerAt(cfg, s.gets[get], m)])
            case Misses(n) => s'.gets[get] == s.gets[get].(answers := s.gets[get].answers + [NoAnswer(n)])
            case Closes => s'.gets[get] == s.gets[get].(outcome := s'.gets[get].outcome)
  {
    if !OfRead(step) {
      OtherStepsLeaveReads(cfg, s, step, s');
    }
  }

  lemma OtherStepsLeaveReads(cfg: Config, s: State, step: Step, s': State)
    requires Next(cfg, s, step, s') && !OfRead(step)
    ensures s'.gets == s.gets
  {
  }

  /** Every read in every run of the protocol, whatever else happens in it, has the moments of its answers. */
  lemma {:induction false} EveryReadHasMoments(cfg: Config, run: seq<State>, steps: seq<Step>, i: nat, get: OpId)
    returns (ms: seq<Moment>)
    requires Runs.IsRun(AnySteps(cfg), run, steps) && run[0] == INITIAL && i < |run| && get in run[i].gets
    ensures Explained(cfg, run, i, run[i].gets[get], ms)
  {
    var s, step, s' := run[i - 1], steps[i - 1], run[i];
    assert AnySteps(cfg)(run[i - 1], steps[i - 1], run[i - 1 + 1]);
    StepOnRead(cfg, s, step, s', get);
    ms := [];
    if get in s.gets {
      var before := EveryReadHasMoments(cfg, run, steps, i - 1, get);
      ms := Lengthened(cfg, run, i, s.gets[get], s'.gets[get], EffectOn(s, step, get), before);
    }
  }

  lemma Lengthened(cfg: Config, run: seq<State>, i: nat, g: GetOp, g': GetOp, e: Effect, ms: seq<Moment>)
    returns (ms': seq<Moment>)
    requires 0 < i < |run| && Explained(cfg, run, i - 1, g, ms) && !e.Opens?
    requires e.Keeps? ==> g' == g
    requires e.Closes? ==> g' == g.(outcome := g'.outcome)
    requires e.Misses? ==> g' == g.(answers := g.answers + [NoAnswer(e.n)])
    requires e.Hears? ==> e.m.s == run[i - 1] && g' == g.(answers := g.answers + [AnswerAt(cfg, g, e.m)])
    ensures Explained(cfg, run, i, g', ms')
  {
    ms' := ms;
    assert forall x :: x in run[..i - 1] ==> x in run[..i];
    if e.Hears? {
      ms' := ms + [e.m];
      GatheredSnoc(cfg, g, ms, e.m);
      AnswerSnoc(g.answers, AnswerAt(cfg, g, e.m));
      assert run[..i][i - 1] == run[i - 1];
    } else if e.Misses? {
      AnswerSnoc(g.answers, NoAnswer(e.n));
    }
    SameQuestion(cfg, g, g', ms');
  }

  /** Hence what any read of any run merges: exactly the versions that some answer showed and none surpassed. */
  lemma RunShowsIff(cfg: Config, run: seq<State>, steps: seq<Step>, i: nat, get: OpId) returns (ms: seq<Moment>)
    requires Runs.IsRun(AnySteps(cfg), run, steps) && run[0] == INITIAL && i < |run| && get in run[i].gets
    ensures forall k :: 0 <= k < |ms| ==> ms[k].s in run[..i]
    ensures forall c: Clock :: Counters(c) in ClockSet(Maximal(AllSiblings(run[i].gets[get].answers))) <==>
              Shown(cfg, run[i].gets[get], ms, c) && NoneAfter(cfg, run[i].gets[get], ms, c)
  {
    ms := EveryReadHasMoments(cfg, run, steps, i, get);
    forall c: Clock ensures Counters(c) in ClockSet(Maximal(Gathered(cfg, run[i].gets[get], ms))) <==>
                            Shown(cfg, run[i].gets[get], ms, c) && NoneAfter(cfg, run[i].gets[get], ms, c)
    {
      ReadShowsIff(cfg, run[i].gets[get], ms, c);
    }
  }

  // ----- runs with deletes -----

  lemma NothingBelow(all: seq<Sibling>, c: Clock, x: Sibling)
    requires Covers(all, c) && x in Maximal(all)
    ensures Compare(x.clock, c) != Before
  {
    var m := Maximal(all);
    MaximalCover(all, c);
    MaximalIsAntichain(all);
    var p :| 0 <= p < |m| && m[p] == x;
    var q :| 0 <= q < |m| && Leq(c, m[q].clock);
    if Leq(x.clock, c) {
      LeqTransitive(x.clock, c, m[q].clock);
      assert p == q;
    }
  }

  /** In state `i` a read that began after state `j`, when its coordinator had acknowledged the write, has the
      coordinator's own answer and found something. */
  ghost predicate OwnAnswer(run: seq<State>, j: nat, i: nat, put: OpId, get: OpId) {
    && j <= i < |run|
    && put in run[j].puts && get !in run[j].gets && get in run[i].gets && run[i].gets[get].key == run[j].puts[put].key
    && run[i].gets[get].coordinator in run[j].puts[put].acked
    && run[i].gets[get].coordinator in Responders(run[i].gets[get].answers)
    && run[i].gets[get].outcome.Some? && run[i].gets[get].outcome.value.Found?
  }

  lemma OwnAnswerCovers(cfg: Config, run: seq<State>, steps: seq<Step>, j: nat, i: nat, put: OpId, get: OpId)
    requires CalmRun(cfg, run, steps) && OwnAnswer(run, j, i, put, get)
    ensures Covers(AllSiblings(run[i].gets[get].answers), run[j].puts[put].sibling.clock)
  {
    var p, g := run[j].puts[put], run[i].gets[get];
    RunKeepsInv(cfg, run, steps, j);
    AckedCovers(cfg, run[j], put, g.coordinator);
    RunKeepsRawReliable(cfg, run, steps, j, i, p.key, p.sibling.clock, {g.coordinator}, get);
    ReliableAnswer(cfg, run[i], p.key, p.sibling.clock, get);
  }

  lemma AckedCovers(cfg: Config, s: State, put: OpId, n: NodeID)
    requires Inv(cfg, s) && put in s.puts && n in s.puts[put].acked
    ensures Covers(StoredAt(cfg, s, n, s.puts[put].key), s.puts[put].sibling.clock)
  {
    assert PutOk(cfg, s, s.puts[put]);
  }

  lemma ReliableAnswer(cfg: Config, s: State, key: Bytes, c: Clock, get: OpId)
    requires get in s.gets && s.gets[get].key == key && s.gets[get].coordinator in Responders(s.gets[get].answers)
    requires Reliable(cfg, s, key, c, {s.gets[get].coordinator}, true, get)
    ensures Covers(AllSiblings(s.gets[get].answers), c)
  {
    var g := s.gets[get];
    assert GetCovers(g, c, {g.coordinator}, true);
    var k :| 0 <= k < |g.answers| && g.answers[k].Answer? && g.answers[k].node == g.coordinator;
    assert Trusted(g, {g.coordinator}, true, g.answers[k]);
    AnswerIsMerged(g.answers, k, c);
  }

  /** In every calm run, deletes included: a read that starts after its own coordinator acknowledged a write or a
      delete, and that has the coordinator's answer, never shows a version that the write or delete happens after. */
  lemma DeleteStaysHidden(cfg: Config, run: seq<State>, steps: seq<Step>, j: nat, i: nat, del: OpId, get: OpId)
    requires CalmRun(cfg, run, steps) && OwnAnswer(run, j, i, del, get)
    ensures forall x :: x in run[i].gets[get].outcome.value.siblings ==>
              Compare(x.clock, run[j].puts[del].sibling.clock) != Before
  {
    var c, g := run[j].puts[del].sibling.clock, run[i].gets[get];
    var all := AllSiblings(g.answers);
    OwnAnswerCovers(cfg, run, steps, j, i, del, get);
    RunKeepsInv(cfg, run, steps, i);
    assert AnswersOk(cfg, g);
    FilterMembers(NotTombstone, Maximal(all));
    forall x | x in g.outcome.value.siblings ensures Compare(x.clock, c) != Before {
      NothingBelow(all, c, x);
    }
  }
}
