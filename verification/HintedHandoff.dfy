/** Hinted handoff: writes kept for a node that could not be reached, and replayed later. */
module HintedHandoff {
  import opened Common
  import opened Siblings
  import opened Lists

  const MAX_HINTS: nat := 1000

  /** 24 hours in nanoseconds. */
  const MAX_AGE: int := 24 * 3600 * 1_000_000_000

  /** A stored hint; `id` is its identity, since every StoreHint allocates a new hint. */
  datatype Hint = Hint(id: nat, key: Bytes, siblings: seq<Sibling>, createdAt: int)

  // ----- specification -----

  /** The list for a node after one more hint: the oldest goes when the list is full. */
  function Appended(list: seq<Hint>, h: Hint): seq<Hint> {
    (if |list| >= MAX_HINTS then list[1..] else list) + [h]
  }

  function IsAged(now: int): Hint -> bool {
    (h: Hint) => now - h.createdAt > MAX_AGE
  }

  function IsDelivered(now: int, ok: Hint -> bool): Hint -> bool {
    (h: Hint) => now - h.createdAt <= MAX_AGE && ok(h)
  }

  function IsRetained(now: int, ok: Hint -> bool): Hint -> bool {
    (h: Hint) => now - h.createdAt <= MAX_AGE && !ok(h)
  }

  // ----- the object -----

  class Handoff {
    const nodeID: NodeID
    var hints: map<NodeID, seq<Hint>>

    constructor (nodeID: NodeID)
      ensures this.nodeID == nodeID && hints == map[]
    {
      this.nodeID := nodeID;
      hints := map[];
    }

    function Pending(n: NodeID): seq<Hint>
      reads this
    {
      if n in hints then hints[n] else []
    }

    /** No list exceeds the limit. */
    ghost predicate Bounded()
      reads this
    {
      forall n :: n in hints ==> |hints[n]| <= MAX_HINTS
    }

    method StoreHint(target: NodeID, hint: Hint) returns (ok: bool)
      modifies this
      ensures ok == (target != nodeID)
      ensures hints == if ok then old(hints)[target := Appended(old(Pending(target)), hint)] else old(hints)
      ensures old(Bounded()) ==> Bounded()
    {
      if target == nodeID {
        return false;
      }
      var list := if target in hints then hints[target] else [];
      if |list| >= MAX_HINTS {
        list := list[1..];
      }
      hints := hints[target := list + [hint]];
      ok := true;
    }

    /** First part of a replay, under the lock: copy the list. */
    method Snapshot(n: NodeID) returns (snapshot: seq<Hint>)
      ensures snapshot == Pending(n)
    {
      snapshot := if n in hints then hints[n] else [];
    }

    /** Last part of a replay, under the lock again: whatever the list is now is replaced. */
    method Commit(n: NodeID, remaining: seq<Hint>)
      modifies this
      ensures hints == if remaining == [] then old(hints) - {n} else old(hints)[n := remaining]
      ensures old(Bounded()) && |remaining| <= MAX_HINTS ==> Bounded()
    {
      if |remaining| == 0 {
        hints := hints - {n};
      } else {
        hints := hints[n := remaining];
      }
    }

    /** A replay during which no hint is stored. */
    method Replay(n: NodeID, now: int, ok: Hint -> bool) returns (delivered: nat)
      modifies this
      ensures Pending(n) == Filter(IsRetained(now, ok), old(Pending(n)))
      ensures forall k :: k != n ==> Pending(k) == old(Pending(k))
      ensures delivered == |Filter(IsDelivered(now, ok), old(Pending(n)))|
      ensures old(Bounded()) ==> Bounded()
    {
      var snapshot := Snapshot(n);
      if |snapshot| == 0 {
        return 0;
      }
      var remaining;
      delivered, remaining := Deliver(snapshot, now, ok);
      FilterShrinks(IsRetained(now, ok), snapshot);
      Commit(n, remaining);
    }
  }

  /** The middle of a replay, without the lock: drop aged hints, try the others. */
  method Deliver(snapshot: seq<Hint>, now: int, ok: Hint -> bool) returns (delivered: nat, remaining: seq<Hint>)
    ensures delivered == |Filter(IsDelivered(now, ok), snapshot)|
    ensures remaining == Filter(IsRetained(now, ok), snapshot)
    ensures forall h :: h in remaining <==> h in snapshot && now - h.createdAt <= 86_400_000_000_000 && !ok(h)
  {
    FilterMembers(IsRetained(now, ok), snapshot);
    delivered, remaining := 0, [];
    for i := 0 to |snapshot|
      invariant delivered == |Filter(IsDelivered(now, ok), snapshot[..i])|
      invariant remaining == Filter(IsRetained(now, ok), snapshot[..i])
    {
      var hint := snapshot[i];
      assert snapshot[..i + 1][..i] == snapshot[..i];
      if now - hint.createdAt > MAX_AGE {
        continue;
      }
      if ok(hint) {
        delivered := delivered + 1;
      } else {
        remaining := remaining + [hint];
      }
    }
    assert snapshot[..|snapshot|] == snapshot;
  }

  // ----- where every hint for one node ends up -----

  /** Everything that ever happened to the hints for one node. */
  datatype Ledger = Ledger(stored: seq<Hint>, pending: seq<Hint>, delivered: seq<Hint>, aged: seq<Hint>,
                           evicted: seq<Hint>)

  const EMPTY: Ledger := Ledger([], [], [], [], [])

  datatype Step = Store(hint: Hint) | ReplayAll(now: int, ok: Hint -> bool)

  function AfterStore(l: Ledger, h: Hint): Ledger {
    Ledger(l.stored + [h], Appended(l.pending, h), l.delivered, l.aged,
           if |l.pending| >= MAX_HINTS then l.evicted + [l.pending[0]] else l.evicted)
  }

  /** The replay of a snapshot replaces the pending list, whatever it holds by then. */
  function AfterReplay(l: Ledger, snapshot: seq<Hint>, now: int, ok: Hint -> bool): Ledger {
    Ledger(l.stored, Filter(IsRetained(now, ok), snapshot), l.delivered + Filter(IsDelivered(now, ok), snapshot),
           l.aged + Filter(IsAged(now), snapshot), l.evicted)
  }

  function AfterStep(l: Ledger, step: Step): Ledger {
    match step
    case Store(h) => AfterStore(l, h)
    case ReplayAll(now, ok) => AfterReplay(l, l.pending, now, ok)
  }

  function AfterSteps(steps: seq<Step>): Ledger {
    if steps == [] then EMPTY else AfterStep(AfterSteps(steps[..|steps| - 1]), steps[|steps| - 1])
  }

  /** `a` keeps some elements of `b`, in order. */
  ghost predicate Subsequence<T>(a: seq<T>, b: seq<T>) {
    a == [] || (b != [] &&
      ((a[|a| - 1] == b[|b| - 1] && Subsequence(a[..|a| - 1], b[..|b| - 1])) || Subsequence(a, b[..|b| - 1])))
  }

  /** Each stored hint is counted once among pending, delivered, aged and evicted, and pending is in store order. */
  ghost predicate Conserved(l: Ledger) {
    && multiset(l.stored) == multiset(l.pending) + multiset(l.delivered) + multiset(l.aged) + multiset(l.evicted)
    && Subsequence(l.pending, l.stored)
    && |l.pending| <= MAX_HINTS
  }

  lemma SubsequenceSnoc<T>(a: seq<T>, b: seq<T>, x: T)
    requires Subsequence(a, b)
    ensures Subsequence(a + [x], b + [x])
  {
    assert (a + [x])[..|a|] == a && (b + [x])[..|b|] == b;
  }

  lemma {:induction false} SubsequenceTail<T>(a: seq<T>, b: seq<T>)
    requires a != [] && Subsequence(a, b)
    ensures Subsequence(a[1..], b)
  {
    var m, n := |a| - 1, |b| - 1;
    if |a| > 1 {
      if a[m] == b[n] && Subsequence(a[..m], b[..n]) {
        SubsequenceTail(a[..m], b[..n]);
        assert a[1..][..m - 1] == a[..m][1..];
      } else {
        SubsequenceTail(a, b[..n]);
      }
    }
  }

  lemma {:induction false} SubsequenceFilter<T>(p: T -> bool, a: seq<T>, b: seq<T>)
    requires Subsequence(a, b)
    ensures Subsequence(Filter(p, a), b)
    decreases |b|
  {
    if a != [] {
      var m, n := |a| - 1, |b| - 1;
      if a[m] == b[n] && Subsequence(a[..m], b[..n]) {
        SubsequenceFilter(p, a[..m], b[..n]);
        var f := Filter(p, a[..m]);
        assert b == b[..n] + [b[n]];
        if p(a[m]) {
          SubsequenceSnoc(f, b[..n], b[n]);
        } else {
          SubsequenceWider(f, b);
        }
      } else {
        SubsequenceFilter(p, a, b[..n]);
        SubsequenceWider(Filter(p, a), b);
      }
    }
  }

  lemma SubsequenceWider<T>(a: seq<T>, b: seq<T>)
    requires b != [] && Subsequence(a, b[..|b| - 1])
    ensures Subsequence(a, b)
  {
  }

  lemma {:induction false} ThreeWaySplit(now: int, ok: Hint -> bool, s: seq<Hint>)
    ensures multiset(s) == multiset(Filter(IsRetained(now, ok), s)) + multiset(Filter(IsDelivered(now, ok), s))
                           + multiset(Filter(IsAged(now), s))
  {
    if s != [] {
      var n := |s| - 1;
      ThreeWaySplit(now, ok, s[..n]);
      assert s == s[..n] + [s[n]];
    }
  }

  lemma StoreKeepsCount(l: Ledger, h: Hint)
    requires multiset(l.stored) == multiset(l.pending) + multiset(l.delivered) + multiset(l.aged) + multiset(l.evicted)
    ensures var m := AfterStore(l, h);
            multiset(m.stored) == multiset(m.pending) + multiset(m.delivered) + multiset(m.aged) + multiset(m.evicted)
  {
    assert multiset(l.stored + [h]) == multiset(l.stored) + multiset{h};
    if |l.pending| >= MAX_HINTS {
      var first, rest := l.pending[0], l.pending[1..];
      assert l.pending == [first] + rest;
      assert multiset(l.pending) == multiset{first} + multiset(rest);
      assert multiset(rest + [h]) == multiset(rest) + multiset{h};
      assert multiset(l.evicted + [first]) == multiset(l.evicted) + multiset{first};
    } else {
      assert multiset(l.pending + [h]) == multiset(l.pending) + multiset{h};
    }
  }

  lemma StoreKeepsOrder(l: Ledger, h: Hint)
    requires Subsequence(l.pending, l.stored)
    ensures Subsequence(AfterStore(l, h).pending, AfterStore(l, h).stored)
  {
    if |l.pending| >= MAX_HINTS {
      SubsequenceTail(l.pending, l.stored);
      SubsequenceSnoc(l.pending[1..], l.stored, h);
    } else {
      SubsequenceSnoc(l.pending, l.stored, h);
    }
  }

  lemma StoreConserves(l: Ledger, h: Hint)
    requires Conserved(l)
    ensures Conserved(AfterStore(l, h))
  {
    StoreKeepsCount(l, h);
    StoreKeepsOrder(l, h);
  }

  lemma ReplayConserves(l: Ledger, now: int, ok: Hint -> bool)
    requires Conserved(l)
    ensures Conserved(AfterReplay(l, l.pending, now, ok))
  {
    ThreeWaySplit(now, ok, l.pending);
    SubsequenceFilter(IsRetained(now, ok), l.pending, l.stored);
    FilterShrinks(IsRetained(now, ok), l.pending);
  }

  /** Hint conservation over every run in which replays do not overlap stores. */
  lemma {:induction false} RunConserves(steps: seq<Step>)
    ensures Conserved(AfterSteps(steps))
  {
    if steps != [] {
      var n := |steps| - 1;
      RunConserves(steps[..n]);
      var l := AfterSteps(steps[..n]);
      match steps[n]
      case Store(h) => StoreConserves(l, h);
      case ReplayAll(now, ok) => ReplayConserves(l, now, ok);
    }
  }

  // ----- stores during a replay -----

  function AfterStores(l: Ledger, hs: seq<Hint>): Ledger {
    if hs == [] then l else AfterStore(AfterStores(l, hs[..|hs| - 1]), hs[|hs| - 1])
  }

  /** How many hints a burst of stores pushes out. */
  function Overflow(l: Ledger, hs: seq<Hint>): nat {
    if |l.pending| + |hs| <= MAX_HINTS then 0 else |l.pending| + |hs| - MAX_HINTS
  }

  lemma TakeOne<T>(s: seq<T>, x: T, k: nat)
    requires k <= |s|
    ensures s[k..] + [x] == (s + [x])[k..] && s[..k] == (s + [x])[..k]
  {
  }

  lemma DropOneTakeOne<T>(s: seq<T>, x: T, k: nat)
    requires k < |s|
    ensures s[k..][0] == s[k] && s[k..][1..] + [x] == (s + [x])[k + 1..]
    ensures s[..k] + [s[k]] == (s + [x])[..k + 1]
  {
    assert s[k..][1..] == s[k + 1..];
  }

  /** After a burst the newest hints are pending and the oldest were evicted. */
  lemma {:induction false} BurstOfStores(l: Ledger, hs: seq<Hint>)
    requires |l.pending| <= MAX_HINTS
    ensures var all := l.pending + hs;
            var k := Overflow(l, hs);
            && k <= |all|
            && AfterStores(l, hs) == Ledger(l.stored + hs, all[k..], l.delivered, l.aged, l.evicted + all[..k])
  {
    var all := l.pending + hs;
    if hs == [] {
      assert all == l.pending && l.stored + hs == l.stored && l.evicted + all[..0] == l.evicted;
    } else {
      var n := |hs| - 1;
      BurstOfStores(l, hs[..n]);
      var prev, k := l.pending + hs[..n], Overflow(l, hs[..n]);
      assert all == prev + [hs[n]];
      assert l.stored + hs == (l.stored + hs[..n]) + [hs[n]];
      if |prev| - k >= MAX_HINTS {
        DropOneTakeOne(prev, hs[n], k);
        Assoc(l.evicted, prev[..k], [prev[k]]);
      } else {
        TakeOne(prev, hs[n], k);
      }
    }
  }

  /** Some record exists of what became of a hint. */
  predicate Accounted(l: Ledger, h: Hint) {
    h in l.pending || h in l.delivered || h in l.aged || h in l.evicted
  }

  // ----- every interleaving of stores with the parts of a replay -----

  /** A replay between its two locked parts: what it copied, and what was stored meanwhile. */
  datatype Flight = Flight(snapshot: seq<Hint>, since: seq<Hint>)

  /** `lost` are the hints that a commit found pending although they were stored after its snapshot. */
  datatype History = History(ledger: Ledger, lost: seq<Hint>, flight: Option<Flight>)

  datatype Event = Stored(hint: Hint) | Copied | Committed(now: int, ok: Hint -> bool)

  function StoredSince(f: Flight): Hint -> bool {
    (h: Hint) => h in f.since
  }

  /** One goroutine replays, so a node has at most one replay in flight; one without hints ends at once. */
  function AfterEvent(x: History, e: Event): History {
    match e
    case Stored(h) =>
      History(AfterStore(x.ledger, h), x.lost,
              if x.flight.Some? then Some(x.flight.value.(since := x.flight.value.since + [h])) else None)
    case Copied =>
      if x.flight.Some? || x.ledger.pending == [] then x else x.(flight := Some(Flight(x.ledger.pending, [])))
    case Committed(now, ok) =>
      if x.flight.None? then x else
        History(AfterReplay(x.ledger, x.flight.value.snapshot, now, ok),
                x.lost + Filter(StoredSince(x.flight.value), x.ledger.pending), None)
  }

  function AfterEvents(events: seq<Event>): History {
    if events == [] then History(EMPTY, [], None)
    else AfterEvent(AfterEvents(events[..|events| - 1]), events[|events| - 1])
  }

  predicate WithinLimit(x: History) {
    |x.ledger.pending| <= MAX_HINTS && (x.flight.Some? ==> |x.flight.value.snapshot| <= MAX_HINTS)
  }

  /** In every interleaving the pending list stays within the limit. */
  lemma {:induction false} EveryRunIsBounded(events: seq<Event>)
    ensures WithinLimit(AfterEvents(events))
  {
    if events != [] {
      var n := |events| - 1;
      EveryRunIsBounded(events[..n]);
      var x := AfterEvents(events[..n]);
      if events[n].Committed? && x.flight.Some? {
        FilterShrinks(IsRetained(events[n].now, events[n].ok), x.flight.value.snapshot);
      }
    }
  }

  lemma {:induction false} StoredOnlyGrows(events: seq<Event>, k: nat)
    requires k <= |events|
    ensures AfterEvents(events[..k]).ledger.stored <= AfterEvents(events).ledger.stored
  {
    if k < |events| {
      StoredOnlyGrows(events[..|events| - 1], k);
      assert events[..|events| - 1][..k] == events[..k];
    } else {
      assert events[..k] == events;
    }
  }

  /** The event gives the reason why a hint was dropped as aged: it was more than 24 hours old at a commit. */
  predicate Ages(e: Event, h: Hint) {
    e.Committed? && e.now - h.createdAt > 86_400_000_000_000
  }

  /** It was delivered: at most 24 hours old, and the call succeeded. */
  predicate Delivers(e: Event, h: Hint) {
    e.Committed? && e.now - h.createdAt <= 86_400_000_000_000 && e.ok(h)
  }

  /** It was the oldest of a full list when another was stored. */
  predicate Evicts(l: Ledger, e: Event, h: Hint) {
    e.Stored? && |l.pending| >= 1000 && l.pending[0] == h
  }

  /** In every interleaving, whatever became of a hint has its reason in an event of the run. */
  lemma {:induction false} EveryFateHasItsReason(events: seq<Event>, h: Hint)
    ensures h in AfterEvents(events).ledger.aged ==> exists i :: 0 <= i < |events| && Ages(events[i], h)
    ensures h in AfterEvents(events).ledger.delivered ==> exists i :: 0 <= i < |events| && Delivers(events[i], h)
    ensures h in AfterEvents(events).ledger.evicted ==>
              exists i :: 0 <= i < |events| && Evicts(AfterEvents(events[..i]).ledger, events[i], h)
  {
    if events != [] {
      var n := |events| - 1;
      var e, x, y := events[n], AfterEvents(events[..n]), AfterEvents(events);
      EveryFateHasItsReason(events[..n], h);
      assert forall i :: 0 <= i < n ==> events[..n][i] == events[i] && events[..n][..i] == events[..i];
      if e.Committed? && x.flight.Some? {
        FilterMembers(IsDelivered(e.now, e.ok), x.flight.value.snapshot);
        FilterMembers(IsAged(e.now), x.flight.value.snapshot);
      }
      if h in y.ledger.aged && h !in x.ledger.aged {
        assert Ages(events[n], h);
      }
      if h in y.ledger.delivered && h !in x.ledger.delivered {
        assert Delivers(events[n], h);
      }
      if h in y.ledger.evicted && h !in x.ledger.evicted {
        assert Evicts(AfterEvents(events[..n]).ledger, events[n], h);
      }
    }
  }

  /** Each hint has an account or is lost, never both. */
  ghost predicate Settled(x: History) {
    && (forall h :: h in x.ledger.stored <==> Accounted(x.ledger, h) || h in x.lost)
    && (forall h :: h in x.lost ==> !Accounted(x.ledger, h))
    && NoRepeats(x.ledger.pending)
  }

  /** What holds while a replay is in flight. */
  ghost predicate InFlight(l: Ledger, f: Flight) {
    && NoRepeats(f.snapshot)
    && (forall h :: h in l.pending ==> h in f.snapshot || h in f.since)
    && (forall h :: h in f.snapshot || h in f.since ==> h in l.pending || h in l.evicted)
    && (forall h :: h in f.since ==> h !in l.delivered && h !in l.aged && h !in f.snapshot)
    && (forall h :: h in f.since && h in l.pending ==> h !in l.evicted)
  }

  ghost predicate Sound(x: History) {
    Settled(x) && (x.flight.Some? ==> InFlight(x.ledger, x.flight.value))
  }

  lemma AppendedMembers(list: seq<Hint>, h: Hint)
    requires NoRepeats(list) && h !in list
    ensures NoRepeats(Appended(list, h)) && h in Appended(list, h)
    ensures forall g :: g in Appended(list, h) <==> g == h || (g in list && !(|list| >= MAX_HINTS && g == list[0]))
  {
    if |list| >= MAX_HINTS {
      assert list == [list[0]] + list[1..];
      assert forall g :: g in list[1..] ==> g != list[0];
    }
  }

  lemma StoreSettles(x: History, h: Hint)
    requires Settled(x) && h !in x.ledger.stored
    ensures Settled(AfterEvent(x, Stored(h)))
  {
    AppendedMembers(x.ledger.pending, h);
    var l, m := x.ledger, AfterStore(x.ledger, h);
    assert |l.pending| >= MAX_HINTS ==> l.pending[0] in l.pending;
    forall g ensures Accounted(m, g) <==> g == h || Accounted(l, g) {
    }
  }

  lemma StoreKeepsFlight(l: Ledger, f: Flight, h: Hint)
    requires InFlight(l, f) && NoRepeats(l.pending) && !Accounted(l, h)
    ensures InFlight(AfterStore(l, h), f.(since := f.since + [h]))
  {
    AppendedMembers(l.pending, h);
    assert |l.pending| >= MAX_HINTS ==> l.pending[0] in l.pending;
    assert h !in f.snapshot && h !in f.since;
  }

  /** A commit keeps account of every hint it copied. */
  lemma ReplayAccounts(l: Ledger, snapshot: seq<Hint>, now: int, ok: Hint -> bool, h: Hint)
    ensures Accounted(AfterReplay(l, snapshot, now, ok), h) <==>
            h in snapshot || h in l.delivered || h in l.aged || h in l.evicted
  {
    FilterMembers(IsRetained(now, ok), snapshot);
    FilterMembers(IsDelivered(now, ok), snapshot);
    FilterMembers(IsAged(now), snapshot);
  }

  lemma CommitSettles(x: History, now: int, ok: Hint -> bool)
    requires Sound(x) && x.flight.Some?
    ensures Settled(AfterEvent(x, Committed(now, ok)))
  {
    var l, f := x.ledger, x.flight.value;
    var y := AfterEvent(x, Committed(now, ok));
    FilterKeepsDistinct(IsRetained(now, ok), f.snapshot);
    FilterMembers(StoredSince(f), l.pending);
    forall h ensures Accounted(y.ledger, h) <==> h in f.snapshot || h in l.delivered || h in l.aged || h in l.evicted {
      ReplayAccounts(l, f.snapshot, now, ok, h);
    }
  }

  lemma EventKeepsSound(x: History, e: Event)
    requires Sound(x) && (e.Stored? ==> e.hint !in x.ledger.stored)
    ensures Sound(AfterEvent(x, e))
  {
    match e
    case Stored(h) =>
      StoreSettles(x, h);
      if x.flight.Some? {
        StoreKeepsFlight(x.ledger, x.flight.value, h);
      }
    case Copied =>
    case Committed(now, ok) =>
      if x.flight.Some? {
        CommitSettles(x, now, ok);
      }
  }

  lemma {:induction false} EveryRunIsSound(events: seq<Event>)
    requires NoRepeats(AfterEvents(events).ledger.stored)
    ensures Sound(AfterEvents(events))
  {
    if events != [] {
      var n := |events| - 1;
      var x, all := AfterEvents(events[..n]), AfterEvents(events).ledger.stored;
      StoredOnlyGrows(events, n);
      EveryRunIsSound(events[..n]);
      if events[n].Stored? {
        assert all == x.ledger.stored + [events[n].hint];
        assert all[|all| - 1] == events[n].hint;
        forall i | 0 <= i < |x.ledger.stored| ensures x.ledger.stored[i] != events[n].hint {
          assert all[i] == x.ledger.stored[i];
        }
      }
      EventKeepsSound(x, events[n]);
    }
  }

  /** After every run of stores and replays, the hints of which nothing is known are exactly those that some commit
      found pending although they were stored after its snapshot. */
  lemma UnaccountedHintsAreLost(events: seq<Event>, h: Hint)
    requires NoRepeats(AfterEvents(events).ledger.stored) && h in AfterEvents(events).ledger.stored
    ensures !Accounted(AfterEvents(events).ledger, h) <==> h in AfterEvents(events).lost
  {
    EveryRunIsSound(events);
  }

  // ----- when nothing is lost -----

  /** The newest hint stored during a replay is still pending. */
  predicate NewestPending(x: History) {
    x.flight.Some? && x.flight.value.since != [] ==>
      var since := x.flight.value.since;
      since[|since| - 1] in x.ledger.pending
  }

  lemma {:induction false} NewestStaysPending(events: seq<Event>)
    ensures NewestPending(AfterEvents(events))
  {
    if events != [] {
      var n := |events| - 1;
      NewestStaysPending(events[..n]);
      if events[n].Stored? {
        var list := Appended(AfterEvents(events[..n]).ledger.pending, events[n].hint);
        assert list[|list| - 1] == events[n].hint;
      }
    }
  }

  lemma CommitLosesIff(x: History)
    requires x.flight.Some? && NewestPending(x)
    ensures Filter(StoredSince(x.flight.value), x.ledger.pending) == [] <==> x.flight.value.since == []
  {
    var f := x.flight.value;
    var gone := Filter(StoredSince(f), x.ledger.pending);
    FilterMembers(StoredSince(f), x.ledger.pending);
    if f.since != [] {
      assert f.since[|f.since| - 1] in gone;
    }
    if gone != [] {
      assert gone[0] in gone;
    }
  }

  /** No commit of the run came after a store that came after its snapshot. */
  ghost predicate NoOverlap(events: seq<Event>) {
    forall i :: 0 <= i < |events| && events[i].Committed? && AfterEvents(events[..i]).flight.Some? ==>
      AfterEvents(events[..i]).flight.value.since == []
  }

  lemma NoOverlapSnoc(events: seq<Event>)
    requires events != []
    ensures var n := |events| - 1;
            var x := AfterEvents(events[..n]);
            NoOverlap(events) <==>
              NoOverlap(events[..n]) && (events[n].Committed? && x.flight.Some? ==> x.flight.value.since == [])
  {
    var n := |events| - 1;
    forall i | 0 <= i < n ensures events[..n][..i] == events[..i] {
    }
  }

  /** A run loses no hint exactly when no hint was stored between a snapshot and its commit. */
  lemma {:induction false} OverlappingReplayLosesIff(events: seq<Event>)
    ensures AfterEvents(events).lost == [] <==> NoOverlap(events)
  {
    if events != [] {
      var n := |events| - 1;
      var x := AfterEvents(events[..n]);
      OverlappingReplayLosesIff(events[..n]);
      NoOverlapSnoc(events);
      if events[n].Committed? && x.flight.Some? {
        NewestStaysPending(events[..n]);
        CommitLosesIff(x);
      }
    }
  }
}
