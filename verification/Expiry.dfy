/** What becomes of a time to live: exact at the coordinator of the write, lost at every other replica. */
module Expiry {
  import opened Common
  import opened VClock
  import opened Siblings
  import opened ReadMerge
  import opened StorageEngine
  import opened Transport
  import opened Lists
  import opened Quorum
  import Runs

  /** The operation is the one that began with these values. */
  predicate Writes(s: State, op: OpId, key: Bytes, coordinator: NodeID, x: Sibling) {
    op in s.puts && s.puts[op].key == key && s.puts[op].coordinator == coordinator && s.puts[op].sibling == x
  }

  lemma StepKeepsWrites(cfg: Config, s: State, step: Step, s': State, op: OpId, key: Bytes, coordinator: NodeID,
                        x: Sibling)
    requires CalmStep(cfg, s, step, s') && Writes(s, op, key, coordinator, x)
    ensures Writes(s', op, key, coordinator, x)
  {
  }

  /** An operation of a run keeps the sibling it began with. */
  lemma RunKeepsWrites(cfg: Config, run: seq<State>, steps: seq<Step>, j: nat, i: nat, op: OpId, key: Bytes,
                       coordinator: NodeID, x: Sibling)
    requires CalmRun(cfg, run, steps) && j <= i < |run| && Writes(run[j], op, key, coordinator, x)
    ensures Writes(run[i], op, key, coordinator, x)
  {
    var inv := s => Writes(s, op, key, coordinator, x);
    forall s, step, s' | inv(s) && CalmSteps(cfg)(s, step, s') ensures inv(s') {
      StepKeepsWrites(cfg, s, step, s', op, key, coordinator, x);
    }
    Runs.HoldsFrom(CalmSteps(cfg), inv, run, steps, j, i);
  }

  /** A Put with a time to live begins at step `j` of the run, and `node` stores it at step `k`. */
  ghost predicate Stores(cfg: Config, run: seq<State>, steps: seq<Step>, j: nat, begin: Step, k: nat, node: NodeID,
                         at: Int64) {
    && CalmRun(cfg, run, steps) && j < k < |steps| && steps[j] == begin && begin.BeginPut? && begin.ttl > 0
    && steps[k] == ReplicaPut(begin.op, node, at)
  }

  lemma BegunWrites(cfg: Config, run: seq<State>, steps: seq<Step>, j: nat)
    requires CalmRun(cfg, run, steps) && j < |steps| && steps[j].BeginPut?
    ensures var b := steps[j];
            Fits(b.now + b.ttl) &&
            Writes(run[j + 1], b.op, b.key, b.coordinator, PutSibling(b.coordinator, b.value, b.context, b.ttl, b.now))
  {
    assert CalmSteps(cfg)(run[j], steps[j], run[j + 1]);
  }

  /** The record of the node right after the write begins with what was delivered. */
  lemma DeliveredIsStored(cfg: Config, s: State, op: OpId, node: NodeID, at: Int64, s': State)
    requires Inv(cfg, s) && CalmStep(cfg, s, ReplicaPut(op, node, at), s')
    ensures op in s.puts
    ensures var r := RecordAt(cfg, s', node, s.puts[op].key);
            r.Ok? && Delivered(s.puts[op], node, at)[0] in r.value
  {
    var p := s.puts[op];
    var d := Delivered(p, node, at);
    var db := WriteOf(cfg, s, op, node, at, s');
    assert PutOk(cfg, s, p);
    DeliveredOk(cfg, p, node, at);
    AcknowledgedWriteReadsBackIff(cfg, s, node, p.key, d, at, db);
    ReconcileKeepsHead(StoredAt(cfg, s, node, p.key), d);
  }

  lemma StoredByStep(cfg: Config, run: seq<State>, steps: seq<Step>, j: nat, begin: Step, k: nat, node: NodeID,
                     at: Int64)
    returns (x: Sibling)
    requires Stores(cfg, run, steps, j, begin, k, node, at)
    ensures Fits(begin.now + begin.ttl)
    ensures x == PutSibling(begin.coordinator, begin.value, begin.context, begin.ttl, begin.now)
    ensures var r := RecordAt(cfg, run[k + 1], node, begin.key);
            r.Ok? && (if node == begin.coordinator then x else Sent(x, at)) in r.value
  {
    BegunWrites(cfg, run, steps, j);
    x := PutSibling(begin.coordinator, begin.value, begin.context, begin.ttl, begin.now);
    RunKeepsWrites(cfg, run, steps, j + 1, k, begin.op, begin.key, begin.coordinator, x);
    RunKeepsInv(cfg, run, steps, k);
    assert CalmSteps(cfg)(run[k], steps[k], run[k + 1]);
    DeliveredIsStored(cfg, run[k], begin.op, node, at, run[k + 1]);
  }

  /** At its coordinator the value reads back exactly while the time is below that of the Put plus the time to live,
      unless the sum is zero, which means no expiry. */
  lemma ReadsBackIff(cfg: Config, run: seq<State>, steps: seq<Step>, j: nat, begin: Step, k: nat, at: Int64, g: GetOp,
                     later: Int64)
    requires begin.BeginPut? && Stores(cfg, run, steps, j, begin, k, begin.coordinator, at)
    requires g.key == begin.key && g.coordinator == begin.coordinator
    ensures Fits(begin.now + begin.ttl)
    ensures var a := Reported(cfg, run[k + 1], begin.coordinator, g, later);
            var x := PutSibling(begin.coordinator, begin.value, begin.context, begin.ttl, begin.now);
            a.Answer? && (x in a.siblings <==> later < begin.now + begin.ttl || begin.now + begin.ttl == 0)
  {
    var x := StoredByStep(cfg, run, steps, j, begin, k, begin.coordinator, at);
    ExpiryIsFinal(StoredAt(cfg, run[k + 1], begin.coordinator, begin.key), later, later, x);
  }

  /** Some sibling of the answer is the written one, with no expiry. */
  ghost predicate ShowsForever(a: Answer, x: Sibling) {
    a.Answer? && exists y :: y in a.siblings && y.value == x.value && Counters(y.clock) == Counters(x.clock)
                             && y.timestamp == x.timestamp && !y.tombstone && y.expiresAt == 0
  }

  lemma SentShowsForever(cfg: Config, s: State, node: NodeID, g: GetOp, later: Int64, x: Sibling, at: Int64)
    requires RecordAt(cfg, s, node, g.key).Ok? && Sent(x, at) in RecordAt(cfg, s, node, g.key).value && !x.tombstone
    ensures ShowsForever(Reported(cfg, s, node, g, later), x)
  {
    var y, stored := Sent(x, at), StoredAt(cfg, s, node, g.key);
    RestampedCounters(x.clock, at);
    if node == g.coordinator {
      ExpiryIsFinal(stored, later, later, y);
    } else {
      FilterMembers(NotTombstone, stored);
      var live := Live(stored);
      var i :| 0 <= i < |live| && live[i] == y;
      RestampedCounters(y.clock, later);
      assert SentAll(live, later)[i] == Sent(y, later);
    }
  }

  /** Every other replica shows the value at every later time: the wire form has no expiry. */
  lemma OtherReplicasNeverExpire(cfg: Config, run: seq<State>, steps: seq<Step>, j: nat, begin: Step, k: nat,
                                 node: NodeID, at: Int64, g: GetOp, later: Int64)
    requires Stores(cfg, run, steps, j, begin, k, node, at) && node != begin.coordinator && g.key == begin.key
    ensures Fits(begin.now + begin.ttl)
    ensures var x := PutSibling(begin.coordinator, begin.value, begin.context, begin.ttl, begin.now);
            ShowsForever(Reported(cfg, run[k + 1], node, g, later), x)
  {
    var x := StoredByStep(cfg, run, steps, j, begin, k, node, at);
    SentShowsForever(cfg, run[k + 1], node, g, later, x, at);
  }

  /** What a Put and a Delete write, by fields. */
  lemma WrittenFields(coordinator: NodeID, value: Bytes, context: Clock, ttl: nat, now: Int64)
    requires Fits(now + ttl)
    ensures var x, t := PutSibling(coordinator, value, context, ttl, now), DeleteSibling(coordinator, context, now);
            && x.value == value && !x.tombstone && t.value == [] && t.tombstone && x.timestamp == t.timestamp == now
            && x.expiresAt == (if ttl > 0 then now + ttl else 0) && t.expiresAt == 0 && x.clock == t.clock
            && (forall n :: Counter(x.clock, n) ==
                  if n == coordinator then (Counter(context, n) + 1) % 0x1_0000_0000_0000_0000 else Counter(context, n))
  {
  }

  /** The tombstone of a delete is collected exactly when the delete lies further back than the limit. */
  lemma DeleteIsCollectedIff(coordinator: NodeID, context: Clock, now: Int64, s: seq<Sibling>, later: Int64, ttl: nat)
    requires DeleteSibling(coordinator, context, now) in s && -TWO63 <= later - now < TWO63
    ensures DeleteSibling(coordinator, context, now) !in Collected(s, later, ttl) <==> later - now > ttl
  {
    CollectionDropsOldTombstones(s, later, ttl, DeleteSibling(coordinator, context, now));
  }
}
