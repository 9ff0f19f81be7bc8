/** Replicas that received the same writes hold the same versions. */
module Convergence {
  import opened Common
  import opened VClock
  import opened Siblings
  import opened ReadMerge
  import opened StorageEngine

  /** Reconciling sibling-set writes one after another. */
  function ApplyAll(store: seq<Sibling>, writes: seq<seq<Sibling>>): seq<Sibling> {
    if writes == [] then store else Reconcile(ApplyAll(store, writes[..|writes| - 1]), writes[|writes| - 1])
  }

  predicate PlainWrites(writes: seq<seq<Sibling>>) {
    forall i :: 0 <= i < |writes| ==> Plain(writes[i])
  }

  predicate WroteOver(writes: seq<seq<Sibling>>, c: Clock) {
    exists i :: 0 <= i < |writes| && Covers(writes[i], c)
  }

  lemma WroteOverSnoc(writes: seq<seq<Sibling>>, c: Clock)
    requires writes != []
    ensures WroteOver(writes, c) <==> WroteOver(writes[..|writes| - 1], c) || Covers(writes[|writes| - 1], c)
  {
    var n := |writes| - 1;
    if WroteOver(writes[..n], c) {
      var i :| 0 <= i < n && Covers(writes[..n][i], c);
      assert Covers(writes[i], c);
    }
    if WroteOver(writes, c) && !Covers(writes[n], c) {
      var i :| 0 <= i < |writes| && Covers(writes[i], c);
      assert Covers(writes[..n][i], c);
    }
  }

  lemma {:induction false} CoverOfReconciliations(store: seq<Sibling>, writes: seq<seq<Sibling>>, c: Clock)
    requires Plain(store) && PlainWrites(writes)
    ensures Plain(ApplyAll(store, writes))
    ensures Covers(ApplyAll(store, writes), c) <==> Covers(store, c) || WroteOver(writes, c)
  {
    if writes != [] {
      var n := |writes| - 1;
      CoverOfReconciliations(store, writes[..n], c);
      ReconcileIsPlain(ApplyAll(store, writes[..n]), writes[n]);
      ReconcileCover(ApplyAll(store, writes[..n]), writes[n], c);
      WroteOverSnoc(writes, c);
    }
  }

  /** The versions a run writes: counters only, because each replica stamps entries with its own time. */
  function WrittenClocks(writes: seq<seq<Sibling>>): set<map<NodeID, Uint64>> {
    set i, j | 0 <= i < |writes| && 0 <= j < |writes[i]| :: Counters(writes[i][j].clock)
  }

  lemma WroteOverByClocks(w: seq<seq<Sibling>>, v: seq<seq<Sibling>>, c: Clock)
    requires WrittenClocks(w) <= WrittenClocks(v) && WroteOver(w, c)
    ensures WroteOver(v, c)
  {
    var i :| 0 <= i < |w| && Covers(w[i], c);
    var j :| 0 <= j < |w[i]| && Leq(c, w[i][j].clock);
    assert Counters(w[i][j].clock) in WrittenClocks(w);
    var k, l :| 0 <= k < |v| && 0 <= l < |v[k]| && Counters(v[k][l].clock) == Counters(w[i][j].clock);
    EqualIffSameCounters(w[i][j].clock, v[k][l].clock);
    LeqTransitive(c, w[i][j].clock, v[k][l].clock);
    CoveredBy(v[k], l, c);
  }

  // ----- runs of Put -----

  /** `stores[i + 1]` is what Put may store for the `i`-th write at its time, when nothing expires and no limit is
      reached. */
  ghost predicate QuietRun(opts: Options, stores: seq<seq<Sibling>>, writes: seq<seq<Sibling>>, times: seq<Int64>) {
    && |stores| == |writes| + 1 && |times| == |writes|
    && forall i :: 0 <= i < |writes| ==>
         Quiet(stores[i], writes[i], opts, times[i]) && PutResult(stores[i], writes[i], opts, times[i], stores[i + 1])
  }

  function Final(stores: seq<seq<Sibling>>): seq<Sibling>
    requires stores != []
  {
    stores[|stores| - 1]
  }

  lemma {:induction false} StoresAreReconciliations(stores: seq<seq<Sibling>>, writes: seq<seq<Sibling>>, k: nat)
    requires |stores| == |writes| + 1 && k <= |writes|
    requires forall i :: 0 <= i < |writes| ==> stores[i + 1] == Reconcile(stores[i], writes[i])
    ensures stores[k] == ApplyAll(stores[0], writes[..k])
  {
    if k > 0 {
      StoresAreReconciliations(stores, writes, k - 1);
      assert writes[..k][..k - 1] == writes[..k - 1];
      assert stores[k - 1 + 1] == Reconcile(stores[k - 1], writes[k - 1]);
    }
  }

  lemma QuietRunReconciles(opts: Options, stores: seq<seq<Sibling>>, writes: seq<seq<Sibling>>, times: seq<Int64>)
    requires QuietRun(opts, stores, writes, times)
    ensures Final(stores) == ApplyAll(stores[0], writes)
  {
    forall i | 0 <= i < |writes| ensures stores[i + 1] == Reconcile(stores[i], writes[i]) {
      QuietPutReconciles(stores[i], writes[i], opts, times[i], stores[i + 1]);
    }
    StoresAreReconciliations(stores, writes, |writes|);
    assert writes[..|writes|] == writes;
  }

  /** After any quiet run of Puts, the cover is exactly the initial cover plus the covers of the writes. */
  lemma CoverOfRun(opts: Options, stores: seq<seq<Sibling>>, writes: seq<seq<Sibling>>, times: seq<Int64>, c: Clock)
    requires QuietRun(opts, stores, writes, times) && Plain(stores[0]) && PlainWrites(writes)
    ensures Covers(Final(stores), c) <==> Covers(stores[0], c) || WroteOver(writes, c)
  {
    QuietRunReconciles(opts, stores, writes, times);
    CoverOfReconciliations(stores[0], writes, c);
  }

  /** Strong convergence: two replicas, each with its own limits and times, that put the same clocks, in any order
      and with any repetition, show the same versions. */
  lemma StrongConvergence(optsA: Options, a: seq<seq<Sibling>>, w: seq<seq<Sibling>>, timesA: seq<Int64>,
                          optsB: Options, b: seq<seq<Sibling>>, v: seq<seq<Sibling>>, timesB: seq<Int64>)
    requires QuietRun(optsA, a, w, timesA) && QuietRun(optsB, b, v, timesB) && a[0] == b[0] == []
    requires PlainWrites(w) && PlainWrites(v) && WrittenClocks(w) == WrittenClocks(v)
    ensures ClockSet(Maximal(Final(a))) == ClockSet(Maximal(Final(b)))
  {
    forall c: Clock ensures Covers(Final(a), c) <==> Covers(Final(b), c) {
      CoverOfRun(optsA, a, w, timesA, c);
      CoverOfRun(optsB, b, v, timesB, c);
      if WroteOver(w, c) {
        WroteOverByClocks(w, v, c);
      }
      if WroteOver(v, c) {
        WroteOverByClocks(v, w, c);
      }
    }
    MaximalDependsOnCover(Final(a), Final(b));
  }
}
