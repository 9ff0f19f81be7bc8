/** The storage engine: reading, reconciling, pruning and writing records. */
module StorageEngine {
  import opened Common
  import opened VClock
  import opened ClockText
  import opened ClockCodec
  import opened RecordCodec
  import opened Siblings
  import opened ReadMerge
  import opened Lists
  import Dedup
  import Runs

  const MAX_KEY: nat := 65536

  datatype Options = Options(maxSiblings: nat, pruneThreshold: nat, maxEntries: nat)

  predicate ValidKey(key: Bytes) {
    0 < |key| <= MAX_KEY
  }

  predicate ValidValues(s: seq<Sibling>) {
    forall i :: 0 <= i < |s| ==> |s[i].value| <= MAX_VALUE
  }

  // ----- specification -----

  predicate Expired(x: Sibling, now: Int64) {
    x.expiresAt != 0 && now >= x.expiresAt
  }

  function NotExpired(now: Int64): Sibling -> bool {
    (x: Sibling) => !Expired(x, now)
  }

  function Unexpired(s: seq<Sibling>, now: Int64): seq<Sibling> {
    Filter(NotExpired(now), s)
  }

  /** The same siblings, each with its clock pruned. */
  ghost predicate ClocksPruned(s: seq<Sibling>, p: seq<Sibling>, opts: Options, now: Int64) {
    && |s| == |p|
    && forall i :: 0 <= i < |s| ==>
         && p[i] == s[i].(clock := p[i].clock)
         && PrunedFrom(s[i].clock, p[i].clock, now, opts.pruneThreshold, opts.maxEntries)
  }

  predicate NewestFirst(s: seq<Sibling>) {
    forall i, j :: 0 <= i < j < |s| ==> s[i].timestamp >= s[j].timestamp
  }

  /** `r` is the first `k` of the siblings of `all` put newest first. */
  ghost predicate NewestOf(all: seq<Sibling>, r: seq<Sibling>, k: nat) {
    |r| == k && exists rest :: NewestFirst(r + rest) && multiset(r + rest) == multiset(all)
  }

  ghost predicate Limited(p: seq<Sibling>, r: seq<Sibling>, max: nat) {
    if |p| > max then NewestOf(p, r, max) else r == p
  }

  /** Clocks pruned, then the sibling limit enforced. */
  ghost predicate Trimmed(merged: seq<Sibling>, opts: Options, now: Int64, r: seq<Sibling>) {
    exists p :: ClocksPruned(merged, p, opts, now) && Limited(p, r, opts.maxSiblings)
  }

  /** What one Put may store for a key that held `existing`. */
  ghost predicate PutResult(existing: seq<Sibling>, incoming: seq<Sibling>, opts: Options, now: Int64,
                            r: seq<Sibling>) {
    Trimmed(Reconcile(Unexpired(existing, now), incoming), opts, now, r)
  }

  /** What has expired by some time stays hidden at every later time. */
  lemma ExpiryIsFinal(s: seq<Sibling>, now: Int64, later: Int64, x: Sibling)
    requires x in s && now <= later
    ensures x in Unexpired(s, now) <==> x.expiresAt == 0 || now < x.expiresAt
    ensures x !in Unexpired(s, now) ==> x !in Unexpired(s, later)
  {
    UnexpiredFrom(s, now);
    UnexpiredFrom(s, later);
  }

  // ----- records the decoder accepts -----

  /** Limits under which every clock that survives pruning fits the decoder's 10000 bytes. */
  predicate SafeOptions(opts: Options) {
    1 <= opts.maxSiblings <= MAX_SIBLINGS && 1 <= opts.maxEntries <= 121
  }

  lemma UnexpiredFrom(s: seq<Sibling>, now: Int64)
    ensures forall x :: x in Unexpired(s, now) <==> x in s && !Expired(x, now)
  {
    FilterMembers(NotExpired(now), s);
  }

  predicate Storable(x: Sibling) {
    |x.value| <= MAX_VALUE && forall n :: n in x.clock ==> 1 <= |n| <= 64
  }

  predicate AllStorable(s: seq<Sibling>) {
    forall i :: 0 <= i < |s| ==> Storable(s[i])
  }

  /** Within the limits of the encoder and of the decoder. */
  predicate SafeSet(s: seq<Sibling>) {
    AllStorable(s) && ReadableClocks(s) && |s| <= MAX_SIBLINGS
  }

  lemma SafeSetRoundTrip(crc: Checksum, s: seq<Sibling>)
    requires SafeSet(s) && s != []
    ensures Encode(crc, s).Ok? && Decode(crc, Encode(crc, s).value) == Ok(s)
  {
    SiblingsEncode(s);
    RecordRoundTrip(crc, s);
  }

  lemma MergedIsStorable(existing: seq<Sibling>, incoming: seq<Sibling>, now: Int64)
    requires AllStorable(existing) && AllStorable(incoming)
    ensures AllStorable(Reconcile(Unexpired(existing, now), incoming))
  {
    UnexpiredFrom(existing, now);
    ReconcileFrom(Unexpired(existing, now), incoming);
    var m := Reconcile(Unexpired(existing, now), incoming);
    forall i | 0 <= i < |m| ensures Storable(m[i]) {
      assert m[i] in m;
    }
  }

  /** A pruned clock with short identifiers fits: 2 + 82 * 121 = 9924 bytes. */
  lemma PrunedClockIsReadable(c: Clock, p: Clock, opts: Options, now: Int64)
    requires SafeOptions(opts) && PrunedFrom(c, p, now, opts.pruneThreshold, opts.maxEntries)
    requires forall n :: n in c ==> 1 <= |n| <= 64
    ensures ReadableClock(p) && forall n :: n in p ==> 1 <= |n| <= 64
  {
    PrunedSize(c, p, now, opts.pruneThreshold, opts.maxEntries);
    ClockSize(p);
  }

  lemma LimitedFrom(p: seq<Sibling>, r: seq<Sibling>, max: nat)
    requires Limited(p, r, max)
    ensures |r| <= max && (|p| > 0 && max > 0 ==> |r| > 0)
    ensures forall x :: x in r ==> x in p
  {
    if |p| > max {
      var rest :| NewestFirst(r + rest) && multiset(r + rest) == multiset(p);
      forall x | x in r ensures x in p {
        assert x in r + rest;
        assert x in multiset(p);
      }
    }
  }

  lemma ReconcileNotEmpty(existing: seq<Sibling>, incoming: seq<Sibling>)
    requires existing != [] || incoming != []
    ensures Reconcile(existing, incoming) != []
  {
    if existing != [] && incoming != [] {
      var _ := Dedup.ByKeyKeepsKey(Key, incoming + Surviving(existing, incoming), incoming[0]);
    }
  }

  /** Every non-empty set Put stores is encodable, is read back as itself, and is storable again. */
  lemma PutResultIsReadable(crc: Checksum, existing: seq<Sibling>, incoming: seq<Sibling>, opts: Options, now: Int64,
                            r: seq<Sibling>)
    requires SafeOptions(opts) && AllStorable(existing) && AllStorable(incoming)
    requires PutResult(existing, incoming, opts, now, r)
    ensures r != [] <==> Unexpired(existing, now) != [] || incoming != []
    ensures SafeSet(r)
    ensures r != [] ==> Encode(crc, r).Ok? && Decode(crc, Encode(crc, r).value) == Ok(r)
  {
    var m := Reconcile(Unexpired(existing, now), incoming);
    var p: seq<Sibling> :| ClocksPruned(m, p, opts, now) && Limited(p, r, opts.maxSiblings);
    if Unexpired(existing, now) != [] || incoming != [] {
      ReconcileNotEmpty(Unexpired(existing, now), incoming);
    }
    MergedIsStorable(existing, incoming, now);
    LimitedFrom(p, r, opts.maxSiblings);
    forall i | 0 <= i < |r| ensures Storable(r[i]) && ReadableClock(r[i].clock) {
      assert r[i] in r;
      var j :| 0 <= j < |p| && p[j] == r[i];
      PrunedClockIsReadable(m[j].clock, p[j].clock, opts, now);
      assert Storable(m[j]);
    }
    if r != [] {
      SafeSetRoundTrip(crc, r);
    }
  }

  lemma {:induction false} EntriesExactSize(c: Clock, ids: seq<NodeID>)
    requires forall i :: 0 <= i < |ids| ==> ids[i] in c && |ids[i]| == 64
    ensures EncodeEntries(c, ids).Ok? && |EncodeEntries(c, ids).value| == 82 * |ids|
  {
    if ids != [] {
      EntriesExactSize(c, ids[1..]);
      assert |EncodeEntry(ids[0], c[ids[0]])| == 82;
    }
  }

  /** The limit of 121 entries is tight: with 64-byte identifiers a clock is readable exactly up to it. */
  lemma EntryLimitIsTight(c: Clock)
    requires |c| <= MAX_ENTRIES && forall n :: n in c ==> |n| == 64
    ensures ReadableClock(c) <==> |c| <= 121
  {
    SortedIdsInClock(c);
    EntriesExactSize(c, SortedIds(c.Keys));
    assert |EncodeClock(c).value| == 2 + 82 * |c|;
  }

  // ----- the database as a map of records -----

  type Database = map<Bytes, Bytes>

  /** The siblings recorded for a key; an absent key holds none, an unreadable record is an error. */
  function StoredIn(crc: Checksum, db: Database, key: Bytes): Result<seq<Sibling>> {
    if key in db then Decode(crc, db[key]) else Ok([])
  }

  /** Every record in the database can be read, and its siblings stored again. */
  ghost predicate SafeDatabase(crc: Checksum, db: Database) {
    forall k :: k in db ==> StoredIn(crc, db, k).Ok? && SafeSet(StoredIn(crc, db, k).value)
  }

  /** One successful Put. */
  ghost predicate PutStep(crc: Checksum, opts: Options, db: Database, key: Bytes, incoming: seq<Sibling>, now: Int64,
                          db': Database) {
    && StoredIn(crc, db, key).Ok?
    && exists r :: PutResult(StoredIn(crc, db, key).value, incoming, opts, now, r)
                   && Encode(crc, r).Ok? && db' == db[key := Encode(crc, r).value]
  }

  /** One Put refused after validation: some set it may store has no encoding. */
  ghost predicate PutRefused(crc: Checksum, opts: Options, db: Database, key: Bytes, incoming: seq<Sibling>,
                             now: Int64) {
    StoredIn(crc, db, key).Ok? ==>
      exists r :: PutResult(StoredIn(crc, db, key).value, incoming, opts, now, r) && Encode(crc, r).Err?
  }

  lemma UpdateKeepsDatabaseSafe(crc: Checksum, db: Database, key: Bytes, data: Bytes, r: seq<Sibling>)
    requires SafeDatabase(crc, db) && Decode(crc, data) == Ok(r) && SafeSet(r)
    ensures SafeDatabase(crc, db[key := data])
    ensures StoredIn(crc, db[key := data], key) == Ok(r)
    ensures forall k :: k != key ==> StoredIn(crc, db[key := data], k) == StoredIn(crc, db, k)
  {
    var after := db[key := data];
    forall k | k in after ensures StoredIn(crc, after, k).Ok? && SafeSet(StoredIn(crc, after, k).value) {
      assert k != key ==> StoredIn(crc, after, k) == StoredIn(crc, db, k);
    }
  }

  /** A Put on a safe database keeps it safe, and what it stored is what is read back. */
  lemma PutKeepsDatabaseSafe(crc: Checksum, opts: Options, db: Database, key: Bytes, incoming: seq<Sibling>, now: Int64,
                             db': Database)
    requires SafeOptions(opts) && AllStorable(incoming) && SafeDatabase(crc, db)
    requires PutStep(crc, opts, db, key, incoming, now, db')
    ensures SafeDatabase(crc, db')
    ensures StoredIn(crc, db', key).Ok?
    ensures PutResult(StoredIn(crc, db, key).value, incoming, opts, now, StoredIn(crc, db', key).value)
    ensures forall k :: k != key ==> StoredIn(crc, db', k) == StoredIn(crc, db, k)
  {
    var s := StoredIn(crc, db, key).value;
    var r :| PutResult(s, incoming, opts, now, r) && Encode(crc, r).Ok? && db' == db[key := Encode(crc, r).value];
    PutResultIsReadable(crc, s, incoming, opts, now, r);
    UpdateKeepsDatabaseSafe(crc, db, key, Encode(crc, r).value, r);
  }

  /** A safe database refuses no well-formed, non-empty write. */
  lemma SafeDatabaseAccepts(crc: Checksum, opts: Options, db: Database, key: Bytes, incoming: seq<Sibling>, now: Int64)
    requires SafeOptions(opts) && AllStorable(incoming) && SafeDatabase(crc, db) && incoming != []
    ensures !PutRefused(crc, opts, db, key, incoming, now)
  {
    var s := StoredIn(crc, db, key);
    if r :| PutResult(s.value, incoming, opts, now, r) && Encode(crc, r).Err? {
      PutResultIsReadable(crc, s.value, incoming, opts, now, r);
    }
  }

  // ----- the engine -----

  class Storage {
    const opts: Options
    const crc: Checksum
    var db: Database

    constructor (opts: Options, crc: Checksum)
      requires opts.maxSiblings > 0 && opts.maxEntries > 0
      ensures this.opts == opts && this.crc == crc && db == map[]
    {
      this.opts := opts;
      this.crc := crc;
      db := map[];
    }

    method GetRaw(key: Bytes, now: Int64) returns (r: Result<seq<Sibling>>)
      ensures r == if !ValidKey(key) || StoredIn(crc, db, key).Err? then Err
                   else Ok(Unexpired(StoredIn(crc, db, key).value, now))
      ensures |key| == 0 || |key| > 65536 || (key in db && !Intact(crc, db[key])) ==> r.Err?
      ensures r.Ok? ==>
                && StoredIn(crc, db, key).Ok?
                && forall x :: x in r.value <==>
                     x in StoredIn(crc, db, key).value && (x.expiresAt == 0 || now < x.expiresAt)
    {
      if key in db {
        DecodingChecks(crc, db[key]);
      }
      UnexpiredFrom(if StoredIn(crc, db, key).Ok? then StoredIn(crc, db, key).value else [], now);
      if !ValidKey(key) {
        return Err;
      }
      if key !in db {
        return Ok([]);
      }
      var siblings := DecodeSiblingSet(crc, db[key]);
      if siblings.Err? {
        return Err;
      }
      var kept := FilterLoop(NotExpired(now), siblings.value);
      r := Ok(kept);
    }

    /** Read, reconcile, prune clocks, limit siblings, encode, write. A failed Put leaves the database alone. */
    method Put(key: Bytes, incoming: seq<Sibling>, now: Int64) returns (ok: bool)
      modifies this
      ensures ok ==> ValidKey(key) && ValidValues(incoming) && PutStep(crc, opts, old(db), key, incoming, now, db)
      ensures !ok ==> db == old(db)
      ensures |key| == 0 || |key| > 65536 || (key in old(db) && !Intact(crc, old(db)[key])) ==> !ok
      ensures (exists i :: 0 <= i < |incoming| && |incoming[i].value| > 1048576) ==> !ok
      ensures !ok && ValidKey(key) && ValidValues(incoming) ==> PutRefused(crc, opts, db, key, incoming, now)
    {
      if !ValidKey(key) {
        return false;
      }
      var valid := CheckValues(incoming);
      if !valid {
        return false;
      }
      var existing := GetRaw(key, now);
      if existing.Err? {
        return false;
      }
      var merged := ReconcileSiblings(existing.value, incoming);
      var r := Trim(merged, opts, now);
      assert PutResult(StoredIn(crc, db, key).value, incoming, opts, now, r);
      var data := EncodeSiblingSet(crc, r);
      if data.Err? {
        return false;
      }
      db := db[key := data.value];
      ok := true;
    }
  }

  method CheckValues(s: seq<Sibling>) returns (ok: bool)
    ensures ok == ValidValues(s)
  {
    for i := 0 to |s|
      invariant forall j :: 0 <= j < i ==> |s[j].value| <= MAX_VALUE
    {
      if |s[i].value| > MAX_VALUE {
        return false;
      }
    }
    ok := true;
  }

  method Trim(merged: seq<Sibling>, opts: Options, now: Int64) returns (r: seq<Sibling>)
    ensures Trimmed(merged, opts, now, r)
  {
    var pruned := PruneClocks(merged, opts, now);
    r := pruned;
    if |pruned| > opts.maxSiblings {
      r := PruneSiblings(pruned, opts.maxSiblings);
    }
  }

  method PruneClocks(s: seq<Sibling>, opts: Options, now: Int64) returns (p: seq<Sibling>)
    ensures ClocksPruned(s, p, opts, now)
  {
    p := [];
    for i := 0 to |s|
      invariant |p| == i
      invariant forall j :: 0 <= j < i ==>
        && p[j] == s[j].(clock := p[j].clock)
        && PrunedFrom(s[j].clock, p[j].clock, now, opts.pruneThreshold, opts.maxEntries)
    {
      var c := new VectorClock();
      c.entries := s[i].clock;
      var _ := c.Prune(now, opts.pruneThreshold, opts.maxEntries);
      p := p + [s[i].(clock := c.entries)];
    }
  }

  method Exchange(a: array<Sibling>, i: nat, j: nat)
    requires i < j < a.Length
    modifies a
    ensures a[i] == old(a[j]) && a[j] == old(a[i])
    ensures forall k :: 0 <= k < a.Length && k != i && k != j ==> a[k] == old(a[k])
    ensures multiset(a[..]) == multiset(old(a[..]))
  {
    a[i], a[j] := a[j], a[i];
  }

  /** The first `i` are newest first, and no later sibling is newer than they are. */
  ghost predicate Settled(a: array<Sibling>, i: nat)
    reads a
  {
    forall x, y :: 0 <= x < i && x < y < a.Length ==> a[x].timestamp >= a[y].timestamp
  }

  /** One pass of the inner loop brings the newest remaining sibling to position `i`. */
  method SettleOne(a: array<Sibling>, i: nat)
    requires i < a.Length && Settled(a, i)
    modifies a
    ensures Settled(a, i + 1)
    ensures multiset(a[..]) == multiset(old(a[..]))
  {
    for j := i + 1 to a.Length
      invariant multiset(a[..]) == multiset(old(a[..]))
      invariant Settled(a, i)
      invariant forall y :: i < y < j ==> a[i].timestamp >= a[y].timestamp
    {
      if a[j].timestamp > a[i].timestamp {
        Exchange(a, i, j);
      }
    }
  }

  /** The exchange sort of the source, newest first, cut to `maxCount`. */
  method PruneSiblings(siblings: seq<Sibling>, maxCount: nat) returns (r: seq<Sibling>)
    requires maxCount < |siblings|
    ensures NewestOf(siblings, r, maxCount)
  {
    var n := |siblings|;
    var a := new Sibling[n](i requires 0 <= i < n => siblings[i]);
    assert a[..] == siblings;
    for i := 0 to n
      invariant multiset(a[..]) == multiset(siblings)
      invariant Settled(a, i)
    {
      SettleOne(a, i);
    }
    r := a[..maxCount];
    ghost var rest := a[maxCount..];
    assert a[..] == r + rest;
    assert NewestFirst(a[..]);
  }

  // ----- a quiet Put is plain reconciliation -----

  /** Nothing is expired, no clock entry is prunable and the sibling limit is not reached. */
  predicate Quiet(existing: seq<Sibling>, incoming: seq<Sibling>, opts: Options, now: Int64) {
    && (forall i :: 0 <= i < |existing| ==> !Expired(existing[i], now))
    && |Reconcile(existing, incoming)| <= opts.maxSiblings
    && forall i :: 0 <= i < |Reconcile(existing, incoming)| ==>
         PruneIsIdle(Reconcile(existing, incoming)[i].clock, now, opts.pruneThreshold, opts.maxEntries)
  }

  lemma NothingExpired(s: seq<Sibling>, now: Int64)
    requires forall i :: 0 <= i < |s| ==> !Expired(s[i], now)
    ensures Unexpired(s, now) == s
  {
    FilterKeepsAll(NotExpired(now), s);
  }

  lemma QuietPutReconciles(existing: seq<Sibling>, incoming: seq<Sibling>, opts: Options, now: Int64, r: seq<Sibling>)
    requires Quiet(existing, incoming, opts, now)
    requires PutResult(existing, incoming, opts, now, r)
    ensures r == Reconcile(existing, incoming)
  {
    NothingExpired(existing, now);
    var m := Reconcile(existing, incoming);
    var p: seq<Sibling> :| ClocksPruned(m, p, opts, now) && Limited(p, r, opts.maxSiblings);
    forall i | 0 <= i < |m| ensures p[i] == m[i] {
      IdlePruneKeepsClock(m[i].clock, p[i].clock, now, opts.pruneThreshold, opts.maxEntries);
    }
    assert p == m;
  }

  /** The reconciliation is something a quiet Put may store. */
  lemma QuietPutIsPossible(existing: seq<Sibling>, incoming: seq<Sibling>, opts: Options, now: Int64)
    requires Quiet(existing, incoming, opts, now)
    ensures PutResult(existing, incoming, opts, now, Reconcile(existing, incoming))
  {
    NothingExpired(existing, now);
    var m := Reconcile(existing, incoming);
    forall i | 0 <= i < |m|
      ensures PrunedFrom(m[i].clock, m[i].clock, now, opts.pruneThreshold, opts.maxEntries)
    {
      IdlePruneIsPossible(m[i].clock, now, opts.pruneThreshold, opts.maxEntries);
    }
    assert ClocksPruned(m, m, opts, now);
  }

  // ----- exactly when a background mechanism loses a version -----

  /** Expired siblings disappear from local reads without losing a version exactly when what remains covers them. */
  lemma ExpiryKeepsCoverIff(s: seq<Sibling>, now: Int64)
    ensures SameCover(s, Unexpired(s, now)) <==>
            forall x :: x in s && Expired(x, now) ==> Covers(Unexpired(s, now), x.clock)
  {
    DroppingKeepsCoverIff(NotExpired(now), s);
  }

  function NotCollected(now: Int64, ttl: nat): Sibling -> bool {
    (x: Sibling) => !(x.tombstone && Sub64(now, x.timestamp) > ttl)
  }

  /** Tombstone collection of one record: the siblings that stay; none left means the key is deleted. */
  function Collected(s: seq<Sibling>, now: Int64, ttl: nat): seq<Sibling> {
    Filter(NotCollected(now, ttl), s)
  }

  lemma CollectionKeepsCoverIff(s: seq<Sibling>, now: Int64, ttl: nat)
    ensures SameCover(s, Collected(s, now, ttl)) <==>
            forall x :: x in s && x.tombstone && Sub64(now, x.timestamp) > ttl ==>
              Covers(Collected(s, now, ttl), x.clock)
  {
    DroppingKeepsCoverIff(NotCollected(now, ttl), s);
  }

  /** Exactly the tombstones older than the limit go. */
  lemma CollectionDropsOldTombstones(s: seq<Sibling>, now: Int64, ttl: nat, x: Sibling)
    requires x in s && -TWO63 <= now - x.timestamp < TWO63
    ensures x in Collected(s, now, ttl) <==> !x.tombstone || now - x.timestamp <= ttl
    ensures forall y :: y in Collected(s, now, ttl) ==> y in s
  {
    FilterMembers(NotCollected(now, ttl), s);
  }

  /** Pruning a clock loses nothing exactly when every dropped entry counts zero. */
  lemma PruningKeepsClockIff(c: Clock, p: Clock, now: Int64, threshold: nat, max: nat)
    requires PrunedFrom(c, p, now, threshold, max)
    ensures Leq(c, p) <==> forall n :: n in c && n !in p ==> c[n].counter == 0
  {
    PrunedSize(c, p, now, threshold, max);
    assert forall n :: n in p ==> p[n] == c[n];
    if Leq(c, p) {
      forall n | n in c && n !in p ensures c[n].counter == 0 {
        LeqAt(c, p, n);
      }
    }
  }

  /** What the sibling limit drops is no newer than anything it keeps. */
  lemma LimitKeepsNewest(all: seq<Sibling>, r: seq<Sibling>, k: nat, kept: Sibling, dropped: Sibling)
    requires NewestOf(all, r, k) && kept in r && multiset(r)[dropped] < multiset(all)[dropped]
    ensures dropped.timestamp <= kept.timestamp
  {
    var rest :| NewestFirst(r + rest) && multiset(r + rest) == multiset(all);
    assert multiset(r + rest) == multiset(r) + multiset(rest);
    assert dropped in multiset(rest);
    var i, j :| 0 <= i < |r| && r[i] == kept && 0 <= j < |rest| && rest[j] == dropped;
    assert (r + rest)[i] == kept && (r + rest)[|r| + j] == dropped;
  }

  // ----- every database reached by Puts and tombstone collection -----

  /** Tombstone collection of one key; the error of encoding is ignored, so an unencodable set would leave an
      empty record. */
  ghost predicate CollectStep(crc: Checksum, db: Database, key: Bytes, now: Int64, ttl: nat, db': Database) {
    && key in db && StoredIn(crc, db, key).Ok?
    && var kept := Collected(StoredIn(crc, db, key).value, now, ttl);
       db' == if kept == [] then db - {key}
              else db[key := if Encode(crc, kept).Ok? then Encode(crc, kept).value else []]
  }

  lemma CollectedIsSafe(s: seq<Sibling>, now: Int64, ttl: nat)
    requires SafeSet(s)
    ensures SafeSet(Collected(s, now, ttl))
  {
    var kept := Collected(s, now, ttl);
    FilterMembers(NotCollected(now, ttl), s);
    FilterShrinks(NotCollected(now, ttl), s);
    forall i | 0 <= i < |kept| ensures Storable(kept[i]) && ReadableClock(kept[i].clock) {
      assert kept[i] in kept;
    }
  }

  lemma RemovalKeepsDatabaseSafe(crc: Checksum, db: Database, key: Bytes)
    requires SafeDatabase(crc, db)
    ensures SafeDatabase(crc, db - {key})
    ensures StoredIn(crc, db - {key}, key) == Ok([])
    ensures forall k :: k != key ==> StoredIn(crc, db - {key}, k) == StoredIn(crc, db, k)
  {
    var after := db - {key};
    forall k | k != key ensures StoredIn(crc, after, k) == StoredIn(crc, db, k) {
    }
    forall k | k in after ensures StoredIn(crc, after, k).Ok? && SafeSet(StoredIn(crc, after, k).value) {
      assert k in db;
    }
  }

  /** Collection stores what it kept, and no other key is affected. */
  lemma CollectionKeepsDatabaseSafe(crc: Checksum, db: Database, key: Bytes, now: Int64, ttl: nat, db': Database)
    requires SafeDatabase(crc, db) && CollectStep(crc, db, key, now, ttl, db')
    ensures SafeDatabase(crc, db')
    ensures StoredIn(crc, db', key) == Ok(Collected(StoredIn(crc, db, key).value, now, ttl))
    ensures forall k :: k != key ==> StoredIn(crc, db', k) == StoredIn(crc, db, k)
  {
    var s := StoredIn(crc, db, key).value;
    var kept := Collected(s, now, ttl);
    CollectedIsSafe(s, now, ttl);
    if kept == [] {
      RemovalKeepsDatabaseSafe(crc, db, key);
    } else {
      SafeSetRoundTrip(crc, kept);
      UpdateKeepsDatabaseSafe(crc, db, key, Encode(crc, kept).value, kept);
    }
  }

  datatype Request =
    | Put(key: Bytes, incoming: seq<Sibling>, now: Int64)
    | Collect(key: Bytes, now: Int64, ttl: nat)

  /** A request may also be refused, which leaves the database as it was. */
  ghost predicate Serves(crc: Checksum, opts: Options, db: Database, q: Request, db': Database) {
    db' == db ||
    match q
    case Put(key, incoming, now) => AllStorable(incoming) && PutStep(crc, opts, db, key, incoming, now, db')
    case Collect(key, now, ttl) => CollectStep(crc, db, key, now, ttl, db')
  }

  ghost function Service(crc: Checksum, opts: Options): (Database, Request, Database) -> bool {
    (db: Database, q: Request, db': Database) => Serves(crc, opts, db, q, db')
  }

  lemma ServiceKeepsDatabaseSafe(crc: Checksum, opts: Options, db: Database, q: Request, db': Database)
    requires SafeOptions(opts) && SafeDatabase(crc, db) && Serves(crc, opts, db, q, db')
    ensures SafeDatabase(crc, db')
  {
    if db' != db {
      match q
      case Put(key, incoming, now) => PutKeepsDatabaseSafe(crc, opts, db, key, incoming, now, db');
      case Collect(key, now, ttl) => CollectionKeepsDatabaseSafe(crc, db, key, now, ttl, db');
    }
  }

  /** From the empty database, no sequence of Puts and collections ever leaves a record that reading would refuse. */
  lemma EveryRecordStaysReadable(crc: Checksum, opts: Options, run: seq<Database>, requests: seq<Request>, i: nat)
    requires SafeOptions(opts) && Runs.IsRun(Service(crc, opts), run, requests) && run[0] == map[] && i < |run|
    ensures SafeDatabase(crc, run[i])
  {
    var inv := db => SafeDatabase(crc, db);
    forall db, q, db' | inv(db) && Service(crc, opts)(db, q, db') ensures inv(db') {
      ServiceKeepsDatabaseSafe(crc, opts, db, q, db');
    }
    Runs.HoldsFrom(Service(crc, opts), inv, run, requests, 0, i);
  }
}
