# GoQuorum in Dafny

GoQuorum is a Dynamo-style replicated key-value store: a hash ring places keys on nodes, a coordinator writes to and
reads from N replicas with quorums W and R, vector clocks order versions, and read repair, hinted handoff, Merkle-tree
anti-entropy, a TTL sweeper and gossip bring replicas back together. This project models those mechanisms and proves
what they keep.

The central notion is the *cover* of a set of siblings: the clocks that some stored sibling is at or after
(`Siblings.Covers`). Reconciliation, transport, the coordinator's merge, read repair and anti-entropy are all described
by what they do to the cover, and convergence, quorum safety and repair follow from that.

The main results:

- `Missed.QuorumSafetyIff`: with strict quorums, reads meet earlier successful writes in every live run exactly when
  R + W outnumbers the preference list; `Quorum.QuorumSafety` is the direction that R + W > N promises. A live run is
  any interleaving of writes, reads and background traffic over encoded records in which there are no deletes, nothing
  expires, no limit is reached, identifiers have no colons and every clock that enters is one the decoder accepts.
  `Missed.ReadMeetsWriteIff` is the exact bound that covers sloppy quorums.
- `Stories.DeletesStayHiddenIff`: deletes that a member of the preference list acknowledged stay hidden from the reads
  it coordinates, in every calm run (a live run with deletes), exactly when R exceeds the number of the other members.
  `Deletes.RunShowsIff` says of every read of every run, other steps between its answers included, which versions it
  merges.
- `Outcomes.EveryOutcomeIsRight`: in every run, what a read hands to the client is exactly what its answers call for.
- `Quorum.MetReadShowsValue`: a read that meets a write shows the written value, or a version that happens after it,
  when nothing else enters with the same counters and another value.
- `Convergence.StrongConvergence`: replicas that put the same clocks, in any order and grouping, with any repetition,
  show the same versions, when nothing expires, no limit is reached and identifiers have no colons.
- `Siblings.ReconcileCoverIff`: exactly when reconciliation loses no version, whatever the identifiers.
- `StorageEngine.EveryRecordStaysReadable`: with at most 121 clock entries and identifiers of 1 to 64 bytes, the
  storage engine never leaves a record that its own decoder refuses; `RecordCodec.RecordRoundTrip` and
  `StorageEngine.EntryLimitIsTight` say exactly when it could.
- `MerkleParity.IncrementalEqualsBuild` and `MerkleSpec.DiffFindsEveryBucket`: the incremental tree equals a full
  build, and the top-down search finds exactly the differing buckets.
- `HashRing.Ring.GetPreferenceList` with `HashRing.ClockwiseIsUnique`: the preference list is the one list of owners
  nearest clockwise of the key.
- `HashRing.AdditionDisturbsNobody`, `HashRing.RemovalDisturbsNobody`, `HashRing.RingIgnoresHistory`: membership
  changes move one node and nothing else, and the ring does not depend on how it came about.
- `HintedHandoff.UnaccountedHintsAreLost` and `HintedHandoff.OverlappingReplayLosesIff`: over every interleaving of
  stores and replays, the hints that are lost, and exactly when none is.
- `AntiEntropy.SyncBothWays`: a complete pass each way makes two replicas equal.

Hash functions (xxHash, SHA-256, CRC-32), clocks, random choices and the outcome of remote calls are parameters.
Results about Merkle differences assume that the node hash does not collide at the positions compared, and nothing more.
Fixed-width arithmetic is written out: counters wrap at 2^64, clock lengths at 2^32, times are 64-bit.

Where a promise is false of the code, the code is kept, the failing case is shown and the exact condition is proved:

- A write whose clock the decoder refuses, for which an empty identifier in a client's context is enough, can be
  acknowledged by every replica and then read as not found, whenever R is at most the number of members other than the
  reader (`Missed.UnreadableWriteVanishes`, `Missed.EmptyIdentifierIsUnreadable`,
  `Quorum.AcknowledgedWriteReadsBackIff`). The configuration checks identifiers of
  nodes, but those in a client's context are not checked.
- Two concurrent clocks can have the same text when identifiers contain a colon, and a write can then erase a version it
  never saw (`ClockText.ColonIdsCollide`, `Siblings.ColonWriteLosesVersion`, `Siblings.ReconcileCoverIff`).
- A tick on a counter at 2^64 - 1 goes back in time (`VClock.TickIsAfterIff`).
- The encoder accepts clocks that the decoder refuses (`RecordCodec.RecordRoundTrip`), and the decoder accepts records
  that end within their last value (`Layout.ShortRecordIsPadded`).
- A time to live is kept by the coordinator of the write alone; every other replica shows the value for ever
  (`Expiry.ReadsBackIff`, `Expiry.OtherReplicasNeverExpire`).
- Two Puts of one coordinator under the same context have equal clocks, and a write that every member acknowledged can
  then be met by a read that shows the other value only (`Losses.EqualClocksHideValue`; `Quorum.MetReadShowsValue` is
  the condition).
- A remote reader never sees tombstones, so a deleted value can come back to a reader that acknowledged the delete
  (`Stories.DeletedValueComesBack`, `Stories.DeletesStayHiddenIff`, `Deletes.DeletedValueReturnsIff`), and to others
  after every member acknowledged it (`Losses.DeletedEverywhereComesBack`). For the same reason read repair of a
  tombstone never settles (`ReadRepair.TombstoneRepairNeverSettles`, `ReadRepair.RemoteViewSettledIff`).
- Acknowledgements of overflow nodes count towards a sloppy write but do not make it visible (`Missed.ReadMeetsWriteIff`).
- The coordinator's Merkle update toggles in the written set only, and a delete toggles out what it read
  (`MerkleParity.OverwriteToggleMatchesIff`, `MerkleParity.DeleteToggleMatchesIff`).
- Clock texts carry timestamps, which every hop renews, so replicas with the same versions can have different roots
  (`MerkleParity.PushedRecordMatchesIff`, `MerkleSpec.RootsAgreeIff`).
- Hints stored between the snapshot and the commit of a replay are lost (`HintedHandoff.OverlappingReplayLosesIff`).
- A node's second change of status within one tick of the clock does not spread (`Gossip.SelfUpdateSpreadsIff`).
- Merges of gossip with equal times and different contents depend on their order (`Gossip.MergesCommuteIff`).
- One direction of anti-entropy makes replicas equal only if the peer had nothing more (`AntiEntropy.OneWaySyncEqualisesIff`).

Where code and comments disagree the model follows the code: gossip compares update times although its comment speaks
of versions, and the record format holds the binary form of clocks and an expiry field that its comment does not
mention.

## Model

| member | source | states |
|---|---|---|
| VClock.EqualIffSameCounters | api/vclock/compare.go:50-87 | Compare answers Equal exactly for clocks with the same non-zero counters, whatever their timestamps |
| VClock.VectorClock.CompareTo | api/vclock/compare.go:50-87 | the two-flag loop over the union of nodes decides the pointwise order of counters: Before, After, Equal or Concurrent by whether some counter is smaller and whether some is larger |
| VClock.MergeIsLeastUpperBound | api/vclock/vclock.go:87-108 | the merged clock is above both arguments and below every clock that is above both |
| VClock.MergeIsSemilattice | api/vclock/vclock.go:87-108 | merge is idempotent, commutative and associative on counters and timestamps together |
| VClock.MergeKeepsNewest | api/vclock/vclock.go:87-108 | node by node, the entry with the larger counter is kept whole, and of equal counters the later time |
| VClock.VectorClock.Merge | api/vclock/vclock.go:87-108 | the loop turns the receiver into the merge and leaves the argument's entries alone, also when the two are the same object |
| VClock.TickIsAfterIff | api/vclock/vclock.go:50-61 | a tick happens after its clock exactly when the counter is not at 2^64 - 1, where it happens before |
| VClock.VectorClock.Tick | api/vclock/vclock.go:50-61 | one counter goes up by one modulo 2^64 and is restamped, every other entry stays |
| VClock.VectorClock.Set | api/vclock/vclock.go:72-83 | afterwards the node counts what was asked and carries the new time, and every other counter and entry is what it was |
| VClock.VectorClock.Copy | api/vclock/vclock.go:111-121 | a new object with the same entries |
| VClock.VectorClock.Prune | api/vclock/vclock.go:137-179 | entries over the age limit go, then the newest maxEntries stay; the number removed is returned |
| VClock.KeepNewest | api/vclock/vclock.go:154-175 | exactly the wanted number is kept, unchanged, and nothing dropped is newer than anything kept |
| VClock.PrunedSize | api/vclock/vclock.go:137-179 | a pruned clock respects the limit and is at or below the clock it came from |
| VClock.PruneByAge | api/vclock/vclock.go:137-179 | every kept entry is within the threshold, and all such entries are kept when they are at most maxEntries, for times less than 2^63 apart |
| VClock.IdlePruneKeepsClock | api/vclock/vclock.go:137-179 | pruning a clock with recent entries within the limit changes nothing |
| StorageEngine.PruningKeepsClockIff | api/vclock/vclock.go:137-179 | pruning loses no causal history exactly when every dropped entry counts zero |
| ClockText.ClockStringInjective | api/vclock/vclock.go:185-212 | the text of a clock determines it when no identifier contains a colon |
| ClockText.ClockStringSame | api/vclock/vclock.go:185-212 | clocks over the same identifiers, colons or not, have the same text only if they are equal, whatever follows the text |
| ClockText.ColonIdsCollide | api/vclock/vclock.go:185-212 | with colons, two concurrent clocks have the same text |
| ClockText.TextForm | api/vclock/vclock.go:185-212 | the text is a bracketed list of `node:counter@time` by ascending identifier, separated by comma and space |
| ClockText.DecIsDecimal | api/vclock/vclock.go:185-212 | numbers are written in decimal digits without a leading zero |
| ClockText.ValidIdIsPlain | internal/config/cluster.go:138-154 | every identifier the configuration accepts is free of colons |
| ClockCodec.MarshalBinary | api/vclock/vclock.go:225-278 | the writing loop produces the specified encoding, or the specified error |
| ClockCodec.UnmarshalBinary | api/vclock/vclock.go:281-336 | the reading loop decodes as specified on every byte string, with its errors |
| ClockCodec.ClockRoundTrip | api/vclock/vclock.go:225-336 | an encoded clock decodes to itself exactly when every identifier has 1 to 1024 bytes, and is refused otherwise |
| ClockCodec.ClockSize | api/vclock/vclock.go:225-278 | with identifiers of at most 64 bytes encoding succeeds and takes at most 2 + 82 bytes per entry |
| Siblings.ReconcileSiblings | internal/storage/engine.go:326-358 | the nested loops compute the reconciliation, empty sets included |
| Dedup.Run | internal/storage/engine.go:361-374 | the seen-map loop keeps the first element of each key |
| Siblings.DedupKeepsClocks | internal/storage/engine.go:361-374 | deduplication by text loses no clock, given identifiers without colons |
| Siblings.ReconcileCover | internal/storage/engine.go:326-358 | without colons in identifiers, a clock is covered afterwards exactly when it was covered before or is covered by the incoming set: no version is lost or invented |
| Siblings.ReconcileCoverIff | internal/storage/engine.go:326-374 | for any identifiers, no version is lost or invented exactly when one side is empty or every candidate is at or below the first candidate of some text |
| Siblings.ColonWriteLosesVersion | internal/storage/engine.go:361-374 | with colons, a write leaves nothing of a stored version that is concurrent with it |
| Siblings.ReconcileIsExact | internal/storage/engine.go:326-374 | the stored clocks are the incoming ones and the existing ones nothing incoming happens after; for a clock on both sides the incoming sibling wins |
| Siblings.WriteCollapsesIff | internal/storage/engine.go:326-374 | one write replaces the whole set exactly when it happens after, or repeats, each stored clock |
| Convergence.CoverOfRun | internal/storage/engine.go:191-275 | without colons in identifiers, after any sequence of Puts in which nothing expires and no limit is reached, the cover is the initial one and those of all writes |
| Convergence.StrongConvergence | internal/storage/engine.go:191-275 | under the same conditions two replicas, each with its own limits and times, that put the same clocks show the same maximal versions, whatever the order, grouping and repetition |
| ReadMerge.MergeAllSiblings | internal/cluster/coordinator.go:519-559 | the coordinator's loop computes the maximal versions |
| ReadMerge.IsDominated | internal/cluster/coordinator.go:527-541 | the inner loop decides whether some answer happens after this one |
| ReadMerge.MaximalIsAntichain | internal/cluster/coordinator.go:519-559 | results come from the answers, none is below an answer, and any two are concurrent |
| ReadMerge.MaximalDominates | internal/cluster/coordinator.go:519-559 | every answer is at or below some result |
| ReadMerge.MaximalCover | internal/cluster/coordinator.go:519-559 | merging keeps the cover |
| ReadMerge.MaximalIsExact | internal/cluster/coordinator.go:519-559 | the merged versions are exactly the answers no answer happens after |
| ReadMerge.MaximalKeepsFirst | internal/cluster/coordinator.go:545-556 | of several siblings with one clock the first arrival is returned |
| ReadMerge.MaximalDependsOnCover | internal/cluster/coordinator.go:519-559 | equal covers give equal merged versions |
| ReadMerge.MergeIgnoresResponseOrder | internal/cluster/coordinator.go:446-559 | neither the order of responses nor repeated responses change the merged versions |
| ReadMerge.FilterTombstones | internal/cluster/coordinator.go:562-570 | the loop keeps the live siblings in order |
| ReadMerge.HidingTombstonesKeepsCoverIff | internal/storage/engine.go:398-406 | hiding tombstones loses no version exactly when a live sibling is at or above each of them |
| RecordCodec.EncodeSiblingSet | internal/storage/encoding.go:45-132 | the writing loop produces the specified record, or the specified error |
| RecordCodec.DecodeSiblingSet | internal/storage/encoding.go:135-242 | the reading loop decodes as specified on every byte string, with its errors; `RecordCodec.DecodingChecks` and `RecordCodec.RecordRoundTrip` say what that is |
| RecordCodec.DecodingChecks | internal/storage/encoding.go:135-168 | for every byte string, a last word that is not the checksum of the rest is refused; what is accepted has a matching checksum, at least six bytes, a non-zero count that is the number of siblings, and no value over 1 MiB |
| RecordCodec.RecordRoundTrip | internal/storage/encoding.go:45-242 | a record decodes to the set that was written exactly when every clock encodes within 10000 bytes and has readable identifiers, and is refused otherwise, also when a clock's length wraps at 2^32 |
| Layout.RecordLayout | internal/storage/encoding.go:45-132 | two bytes of count, the siblings in order, four bytes of checksum, least significant byte first |
| Layout.SiblingLayout | internal/storage/encoding.go:62-93 | four bytes of clock length, then the clock, then the rest of the sibling |
| Layout.TailLayout | internal/storage/encoding.go:84-119 | flags, time, expiry if there is one, value length and value at their offsets; the first bit marks a tombstone, the third an expiry |
| Layout.ClockLayout | api/vclock/vclock.go:225-278 | two bytes of count, then the entries by ascending identifier |
| Layout.EntryLayout | api/vclock/vclock.go:225-278 | identifier length, identifier, counter and two's-complement time at their offsets |
| Layout.ShortRecordIsPadded | internal/storage/encoding.go:213-228 | a record cut off within its last value, with a checksum to match, decodes with that value filled up with zeros |
| StorageEngine.Storage.GetRaw | internal/storage/engine.go:142-188 | of the recorded siblings exactly those without expiry or with an expiry still to come; an empty answer stands for a key not found; keys of no or of more than 65536 bytes, records whose checksum does not match and other unreadable records are errors |
| StorageEngine.Storage.Put | internal/storage/engine.go:191-275 | a successful Put performs one specified step, a failed one changes nothing; it fails for an invalid key, a value over 1 MiB or a record whose checksum does not match, and a valid request fails only for an unreadable record or an unencodable result |
| StorageEngine.PruneSiblings | internal/storage/engine.go:377-395 | the newest maxCount siblings of a permutation sorted newest first |
| StorageEngine.LimitKeepsNewest | internal/storage/engine.go:377-395 | nothing the limit drops is newer than anything it keeps |
| StorageEngine.PutResultIsReadable | internal/storage/engine.go:191-275 | with at most 121 clock entries and identifiers of at most 64 bytes, what Put stores is encodable, decodes to itself and can be stored again |
| StorageEngine.EntryLimitIsTight | internal/storage/encoding.go:135-242 | with 64-byte identifiers a clock is readable exactly up to 121 entries |
| StorageEngine.PutKeepsDatabaseSafe | internal/storage/engine.go:191-275 | under the same limits a Put keeps every record readable, reading the key back gives the stored set, and no other key changes |
| StorageEngine.SafeDatabaseAccepts | internal/storage/engine.go:191-275 | under the same limits a database of readable records refuses no well-formed non-empty write |
| StorageEngine.CollectionKeepsDatabaseSafe | internal/storage/engine.go:425-473 | tombstone collection, which ignores encoding errors, still keeps every record readable, stores what it kept and changes no other key |
| StorageEngine.EveryRecordStaysReadable | internal/storage/engine.go:191-473 | with at most 121 clock entries and identifiers of 1 to 64 bytes, from the empty database no sequence of Puts and collections reaches a record that reading refuses |
| StorageEngine.ExpiryKeepsCoverIff | internal/storage/engine.go:172-186 | lazy expiry loses no version exactly when what remains covers each expired sibling |
| StorageEngine.ExpiryIsFinal | internal/storage/engine.go:172-186 | a sibling is shown exactly before its expiry, and what is hidden stays hidden at every later time |
| Expiry.ReadsBackIff | internal/cluster/coordinator.go:188-200 | in every calm run, a Put with a time to live, once its coordinator stored it, is in the coordinator's own answer exactly while the time is below that of the Put plus the time to live; a sum of zero means no expiry |
| Expiry.OtherReplicasNeverExpire | internal/cluster/rpc_client.go:204-230 | in every calm run, every other replica that stored it shows the value at every later time |
| Expiry.WrittenFields | internal/cluster/coordinator.go:180-200 | value, mark, times, expiry and every counter of what a Put and a Delete write |
| StorageEngine.CollectionKeepsCoverIff | internal/storage/engine.go:444-450 | tombstone collection loses no version exactly when what remains covers each collected tombstone |
| StorageEngine.CollectionDropsOldTombstones | internal/storage/engine.go:444-450 | exactly the tombstones older than the limit go, for times less than 2^63 apart |
| Expiry.DeleteIsCollectedIff | internal/storage/engine.go:444-450 | the tombstone that a Delete writes is collected exactly when the Delete lies further back than the limit |
| StorageEngine.QuietPutReconciles | internal/storage/engine.go:191-275 | when nothing expires and no limit is reached, Put stores exactly the reconciliation |
| HashRing.Ring.constructor | internal/cluster/hashring.go:36-45 | an empty ring; a count that is not positive becomes 256 |
| HashRing.Ring.AddNode | internal/cluster/hashring.go:48-74 | a known node is an error without effect; otherwise exactly its points are added to a sorted ring |
| HashRing.Ring.RemoveNode | internal/cluster/hashring.go:77-97 | an unknown node is an error without effect; otherwise exactly its points go |
| HashRing.Ring.GetPreferenceList | internal/cluster/hashring.go:107-147 | exactly min(N, nodes) members, each once: the owners of the nearest points clockwise of the key's hash, nearest first, with everybody left out no nearer; the first owns the first point at or after the hash, or the smallest; an empty ring is an error |
| HashRing.PrefixIsPreferenceList | internal/cluster/hashring.go:107-185 | the same of the list of every length, hence of extended lists |
| HashRing.BeforeIffNearer | internal/cluster/hashring.go:120-144 | with distinct hashes one node comes before another exactly when its nearest point clockwise of the key is nearer |
| HashRing.ClockwiseIsUnique | internal/cluster/hashring.go:120-144 | with distinct hashes there is one such list of each length |
| HashRing.Ring.GetExtendedPreferenceList | internal/cluster/hashring.go:151-185 | min(N + extra, nodes) members of the same order, which `HashRing.PrefixIsPreferenceList` describes by distances; they begin with the preference list and go on with other nodes only |
| HashRing.Search | internal/cluster/hashring.go:121-124 | the binary search finds the first point at or after the key, or the end |
| HashRing.Walk | internal/cluster/hashring.go:126-144 | the search and the wrapping walk with its seen-set collect the first distinct owners of the clockwise order |
| HashRing.OrderIsPermutationOfMembers | internal/cluster/hashring.go:107-147 | from every position the walk meets each member once and nobody else |
| HashRing.RemovalDisturbsNobody | internal/cluster/hashring.go:77-97 | removing a node deletes it from every key's order and leaves the order of the others |
| HashRing.AdditionIsUndoneByRemoval | internal/cluster/hashring.go:48-97 | removing a node just added gives back the ring, point by point |
| HashRing.AdditionDisturbsNobody | internal/cluster/hashring.go:48-74 | adding a node inserts it in every key's order and leaves the order of the others |
| HashRing.JoinChangesListByOne | internal/cluster/hashring.go:48-147 | when a node joins, the preference list of every key stays, or the new node enters it at one place and at most the last member goes |
| HashRing.LeaveChangesListByOne | internal/cluster/hashring.go:77-147 | when a node leaves, the preference list of every key stays, or the node goes and at most one other enters at the end |
| HashRing.RingIgnoresHistory | internal/cluster/hashring.go:48-97 | with distinct hashes the ring depends on its members alone |
| HashRing.JoinKeepsRing | internal/cluster/hashring.go:48-74 | adding a node gives the ring of the larger membership |
| HashRing.LeaveKeepsRing | internal/cluster/hashring.go:77-97 | removing a node gives the ring of the smaller membership |
| HashRing.OverflowFollowsList | internal/cluster/hashring.go:149-185 | on every ring the extended list begins with the preference list, its overflow nodes are other nodes, and it is as long as asked or as the ring allows |
| Transport.VClockToDTO | internal/cluster/rpc_client.go:171-177 | the wire form lists every counter of the clock and nothing else |
| Transport.DTOToVClock | internal/cluster/rpc_client.go:179-185 | setting the listed counters in a new clock gives the transcribed clock with new times: the round trip over the wire |
| Transport.RestampedCounters | internal/cluster/rpc_client.go:171-185 | the wire form keeps all counters, so the clock stays equal in the causal order |
| Transport.WhatIsSent | internal/cluster/rpc_client.go:171-230 | value, write time, mark and counters of every sibling arrive, entry times become that of arrival, and the expiry is gone |
| Transport.RestampedIsReadable | internal/cluster/rpc_client.go:171-185 | a clock that crossed the wire is readable exactly when it was before |
| Transport.SentAllCovers | internal/cluster/rpc_client.go:187-260 | siblings that cross the wire keep their cover |
| Quorum.EvaluateRead | internal/cluster/coordinator.go:377-443 | the loop over responses yields the specified outcome, which `Outcomes.ReadResultIsRight` describes by the answers alone |
| Outcomes.ReadResultIsRight | internal/cluster/coordinator.go:377-443 | for every list of answers: too few exactly when fewer than R answered; otherwise the client gets exactly the live siblings that arrived first with their counters and that no sibling of any answer happens after, no two of them ordered or equal, or not-found when there is none |
| Outcomes.EveryOutcomeIsRight | internal/cluster/coordinator.go:357-443 | whatever else happens in a run, the outcome of every read in it is right for its answers |
| Quorum.CountSuccesses | internal/cluster/coordinator.go:712-720 | the count is the number of distinct replicas that acknowledged |
| Quorum.AcknowledgedWriteReadsBackIff | internal/storage/engine.go:191-275 | a write that a replica acknowledged, with nothing expired and no limit reached, reads back as the reconciliation exactly when its clocks are ones the decoder accepts, and makes the record an error otherwise; no other record changes |
| Quorum.WriteGrowsCover | internal/cluster/coordinator.go:283-347 | a quiet replica write of readable clocks leaves a readable record, adds the cover of the write and loses nothing |
| Quorum.StepKeepsInv | internal/cluster/coordinator.go:164-443 | every calm step, deletes included, keeps all records readable and every acknowledging node covering what it acknowledged, and no cover shrinks |
| Quorum.RunKeepsInv | internal/cluster/coordinator.go:164-443 | the invariant holds in every state of every calm run |
| Quorum.LiveRunStaysLive | internal/cluster/coordinator.go:164-516 | without deletes no record and no answer ever holds a tombstone |
| Quorum.RunKeepsReliable | internal/cluster/coordinator.go:164-516 | in a live run every later answer from a node that covers a clock covers it, and the node keeps covering it |
| Quorum.RunKeepsRawReliable | internal/cluster/coordinator.go:446-516 | with deletes about, the same holds of the answers a coordinator gives itself |
| Quorum.RunKeepsGood | internal/cluster/coordinator.go:164-516 | any property of siblings that survives restamping and that everything entering a calm run has, holds in every record and every answer of the run |
| Quorum.QuorumsIntersect | internal/config/quorum.go:42-52 | two groups that together outnumber the list share a member |
| Quorum.ReadMeetsWrite | internal/cluster/coordinator.go:164-443 | in a live run, strict or sloppy, a later read that gets enough answers finds a version at or after the write when its acknowledgements from the list and R outnumber the list |
| Quorum.QuorumSafety | internal/config/quorum.go:42-52 | in every live run with R + W > N and strict quorums, every read that starts after a successful write and gets enough answers finds a version at or after it |
| Quorum.MetReadShowsValue | internal/cluster/coordinator.go:164-443 | a read of a live run that meets a write shows the written value or a version that happens after it, when nothing enters with the written counters and another value |
| Losses.EqualClocksHideValue | internal/cluster/coordinator.go:164-280 | for every two values, every reader, and R and W within the list there is a live run in which both Puts of one coordinator under one context succeed at the whole list and a later read meets the first write without showing its value |
| Missed.ScenarioRuns | internal/cluster/coordinator.go:164-443 | any choice of acknowledging members, failures, overflow nodes and answering members none of which can show the write is a run in which the write succeeds and the later read ends with not found |
| Missed.QuorumSafetyIff | internal/config/quorum.go:42-52 | with strict quorums, all reads in all live runs meet all earlier successful writes of a key exactly when R + W outnumbers its preference list |
| Missed.ReadMeetsWriteIff | internal/cluster/coordinator.go:238-271 | strict or sloppy, all reads in all live runs meet the writes with a given number of acknowledgements from the list exactly when that number and R outnumber the list; overflow acknowledgements do not help |
| Missed.UnreadableWriteVanishes | internal/server/internal_api.go:98-129 | for every clock the encoder accepts and the decoder refuses, when R is at most the number of members other than the reader and W at most the list, there is a run in which the whole list acknowledges the write and a later read with enough answers ends with not found |
| Missed.EmptyIdentifierIsUnreadable | internal/server/client_api.go:261-273 | a client context with an empty identifier gives such a clock |
| Quorum.SucceededWriteIsDurable | internal/cluster/coordinator.go:164-280 | in a calm run, deletes included, a write that returned success, strict or sloppy, is covered by readable records on at least W distinct nodes in every later state |
| Quorum.OverflowIsLastResort | internal/cluster/coordinator.go:238-271 | in every run, nodes off the list have stored a write only if it is no delete, quorums are sloppy and the whole list responded with fewer than W acknowledgements |
| Deletes.ReadShowsIff | internal/cluster/coordinator.go:357-443 | for every read and every choice of the states and times at which nodes answer, a version is merged exactly when some answer shows it and none shows one that happens after it; tombstones are shown by the coordinator alone |
| Deletes.EveryReadHasMoments | internal/cluster/coordinator.go:446-516 | whatever steps come between its answers, what a read of any run has gathered is what nodes answered at earlier states of that run |
| Deletes.RunShowsIff | internal/cluster/coordinator.go:357-516 | hence the merged versions of any read of any run are exactly those that some answer showed at its moment and none surpassed |
| Deletes.DeletedValueReturnsIff | internal/server/internal_api.go:98-129 | however many replicas hold the tombstone, when the coordinator is not among the responders a deleted value that one of them held when it answered is shown to the client exactly when no live sibling that a responder held then happens after it |
| Deletes.DeleteStaysHidden | internal/cluster/coordinator.go:446-516 | in every calm run with deletes, a read whose coordinator had acknowledged the delete and answered shows no version that the delete happens after |
| Stories.DeletedValueComesBack | internal/server/internal_api.go:98-129 | when R is at most the number of other members there is a calm run in which the reader acknowledges a delete and later shows a version that the delete happens after |
| Stories.DeletesStayHiddenIff | internal/cluster/coordinator.go:357-516 | for a member of a list of two or more, no read it coordinates in any calm run shows what a delete it had acknowledged happens after, exactly when R exceeds the number of the other members |
| Losses.DeletedEverywhereComesBack | internal/storage/engine.go:191-275 | there is a calm run in which a Put and then its delete succeed at the whole list, the value reaches one member once more by repair, handoff or anti-entropy, and a read by any other coordinator with R at most the members besides it shows the value; two siblings a record are enough |
| Digests.SumDependsOnParity | internal/cluster/merkle_tree.go:68-88 | an xor of digests depends only on which items occur an odd number of times |
| Merkle.MerkleTree.constructor | internal/cluster/merkle_tree.go:21-38 | a coherent tree with 2^depth zero leaves |
| Merkle.MerkleTree.ToggleKey | internal/cluster/merkle_tree.go:68-88 | each byte of the leaf of the key's bucket is xored with the hash of the key followed, sibling by sibling, by clock text and value; no other leaf changes and the bucket is marked for rebuilding; a missing set changes nothing |
| Merkle.HashKey | internal/cluster/merkle_tree.go:73-82 | the hash is fed the key and then each sibling's clock text and value |
| Merkle.TwoKeysCancelIff | internal/cluster/merkle_tree.go:68-88 | the same siblings toggled under two keys of one bucket restore the leaves exactly when the hash collides on two different inputs |
| Merkle.MerkleTree.RebuildTree | internal/cluster/merkle_tree.go:157-194 | every internal node becomes the hash of its subtree, bottom up in place |
| Merkle.MerkleTree.RebuildIfNeeded | internal/cluster/merkle_tree.go:147-154 | afterwards every node is the hash of its subtree, whether or not a leaf was marked |
| Merkle.MerkleTree.Build | internal/cluster/merkle_tree.go:41-66 | the leaves are those of the scanned records alone, and the tree is coherent |
| Merkle.MerkleTree.GetRoot | internal/cluster/merkle_tree.go:103-113 | the root of the current leaves, whatever was pending: the hash of the left half followed by the right half of the leaves, and so on down; zero for depth 0 |
| MerkleSpec.NodeHashIsFolded | internal/cluster/merkle_tree.go:157-194 | the hash of every node is the fold of exactly the leaves below it, left before right |
| Merkle.MerkleTree.Compare | internal/cluster/merkle_tree.go:197-226 | trees of different depth differ everywhere, depth 0 included; otherwise the result of the top-down search on two coherent trees |
| MerkleSpec.FindDifferences | internal/cluster/merkle_tree.go:230-271 | the recursion with its start and width arithmetic performs the specified search |
| MerkleSpec.DifferenceGivesSingles | internal/cluster/merkle_tree.go:230-271 | the reported ranges are single buckets, in order, without overlap |
| MerkleSpec.DifferenceIsExact | internal/cluster/merkle_tree.go:230-271 | a bucket is reported exactly when the trees differ at each of its ancestors and at it |
| MerkleSpec.ReportedBucketsDiffer | internal/cluster/merkle_tree.go:197-271 | every reported bucket differs, without any assumption on the hash |
| MerkleSpec.DiffFindsEveryBucket | internal/cluster/merkle_tree.go:197-271 | without a collision at the compared nodes, exactly the differing buckets are reported |
| MerkleSpec.RootsAgreeIff | internal/cluster/merkle_tree.go:103-113 | without a collision at the compared nodes, two roots agree exactly when all buckets do |
| MerkleParity.LeafIsSum | internal/cluster/merkle_tree.go:68-88 | after any toggles a leaf is its old value xor everything toggled into its bucket |
| MerkleParity.LeavesDependOnParity | internal/cluster/merkle_tree.go:68-100 | runs that toggle the same items an odd number of times end in the same leaves and root |
| Changes.OddTogglesAreContents | internal/cluster/merkle_tree.go:90-100 | when every change toggles out the old record and toggles in the new one, the items toggled an odd number of times are the contents |
| MerkleParity.IncrementalEqualsBuild | internal/cluster/merkle_tree.go:41-100 | change-by-change maintenance gives the leaves and root of a full build over the final contents |
| MerkleParity.CoordinatorToggleMatchesIff | internal/cluster/merkle_tree.go:68-88 | toggling one set, or none, for a change of a key matches a full build exactly when its digest is the xor of the replaced and the stored record's, an absent record counting as zero |
| MerkleParity.OverwriteToggleMatchesIff | internal/cluster/coordinator.go:230-236 | for a write that replaces what is stored and whose clock pruning leaves alone, the coordinator's bucket is right for a first write, for a later one exactly when the replaced record has the zero digest, and when the coordinator does not store the key exactly when the written set has |
| MerkleParity.DeleteToggleMatchesIff | internal/cluster/coordinator.go:600-616 | a delete toggles out the unexpired set it read: its bucket is right exactly when the stored result's digest is the xor of the old record's and of what was read, which without expiry means zero |
| MerkleParity.SentContentIff | internal/cluster/merkle_tree.go:68-88 | a record, however many siblings it has, keeps its hashed content over the wire exactly when every clock entry already had the time of arrival |
| MerkleParity.PushedRecordMatchesIff | internal/cluster/merkle_tree.go:68-88 | unless the content hash collides, a record that crossed the wire has its sender's leaf exactly when every clock entry already had the time of arrival |
| AntiEntropy.Replica.Replicate | internal/server/internal_api.go:71-95 | one replicated sibling adds its cover to the key and touches no other key |
| AntiEntropy.Replica.RemotePut | internal/cluster/rpc_client.go:204-230 | sibling by sibling up to the first failure, the receiver gains exactly the cover of what arrived; success means that everything did |
| AntiEntropy.ExchangeWithPeer | internal/cluster/anti_entropy.go:142-193 | nothing when the peer's root cannot be read or equals the tree's own; otherwise every key of the bucket is tried, the peer loses nothing, gains nothing else, and gains all of each key whose push did not fail |
| AntiEntropy.PushBucket | internal/cluster/anti_entropy.go:163-184 | the scan pushes exactly the keys of its bucket and records each completed push once |
| AntiEntropy.TriggerWithPeer | internal/cluster/anti_entropy.go:199-219 | over all buckets each local key of a bucket whose exchange went ahead is tried exactly once, with the same effect on the peer |
| AntiEntropy.AllKeysChosen | internal/cluster/anti_entropy.go:199-219 | when roots keep differing the buckets together are the whole key space |
| AntiEntropy.SyncBothWays | internal/cluster/anti_entropy.go:199-219 | a pass each way, in which roots keep differing and no push fails, leaves both replicas with the union of their covers and the same visible versions of every key |
| AntiEntropy.TwoWaySyncEqualises | internal/cluster/anti_entropy.go:142-244 | two complete passes, one each way, whatever scheduled them, end with the same cover and the same visible versions of every key |
| AntiEntropy.OneWaySyncEqualisesIff | internal/cluster/anti_entropy.go:142-193 | one push makes them equal exactly when the peer had nothing the pusher lacked |
| ReadRepair.IsDominatedOrEqual | internal/cluster/read_repair.go:89-99 | the loop decides the cover |
| ReadRepair.CheckNeedsRepair | internal/cluster/read_repair.go:70-86 | a replica needs repair exactly when it has no answer or misses the cover of some merged version |
| ReadRepair.SendRepair | internal/cluster/read_repair.go:102-128 | unless the call fails a repaired replica no longer needs repair by its stored state; it never loses a version, gains none but the merged ones and changes no other key; the local node is skipped |
| ReadRepair.RepairedStaysRepaired | internal/cluster/read_repair.go:70-128 | no later sequence of Puts in which nothing expires and no limit is reached makes a repaired replica need that repair again |
| ReadRepair.RemoteViewSettledIff | internal/cluster/read_repair.go:70-86 | judged by its answer, a remote replica is settled exactly when its live siblings cover every merged version |
| ReadRepair.TombstoneRepairNeverSettles | internal/cluster/read_repair.go:70-128 | a replica that holds the merged tombstone is repaired again on every read |
| Overwrite.JoinClocks | client/client.go:241-248 | the resolver's loop computes the join of all contexts |
| Overwrite.JoinedIsLeast | client/client.go:241-248 | the join is the least clock above every sibling's |
| Overwrite.ResolvedWriteCollapses | client/client.go:241-248 | a write with a context at or above every stored clock leaves that write alone |
| Overwrite.SweepClockIsAfterIff | internal/cluster/ttl_sweeper.go:73-83 | the sweeper's doubly ticked clock happens after every sibling exactly when the joined counter is below 2^64 - 2 |
| Overwrite.SweepLeavesOnlyTombstone | internal/cluster/ttl_sweeper.go:59-96 | a swept replica keeps only the tombstone, whatever has expired and whatever is pruned |
| Overwrite.Sweep | internal/cluster/ttl_sweeper.go:59-96 | deletes go only to keys with a sibling whose non-zero expiry has passed, at most 1000 succeed, and below that every such key gets one |
| Membership.Manager.RecordHeartbeatSuccess | internal/cluster/membership.go:166-189 | misses are reset and Failed or Unknown becomes Active; unknown peers are ignored |
| Membership.Manager.RecordHeartbeatFailure | internal/cluster/membership.go:192-219 | misses go up and the status follows the threshold; unknown peers are ignored |
| Membership.Manager.SendHeartbeat | internal/cluster/failure_detector.go:107-141 | one heartbeat updates one peer and fires the callbacks of its transition; for an unknown peer nothing happens |
| Membership.StatusMatchesHistory | internal/cluster/membership.go:166-219 | after any history of heartbeats the status and the miss count are those read off the history directly |
| Membership.PlannedStatusStays | internal/cluster/membership.go:166-219 | a joining or leaving peer stays so through any heartbeats until its misses reach the threshold |
| Membership.FailedIffMissesReachThreshold | internal/cluster/membership.go:192-219 | a peer is Failed exactly when its last misses reach the threshold, and Active only after a success |
| Membership.CallbacksAlternate | internal/cluster/failure_detector.go:107-141 | failure and recovery callbacks alternate, beginning with failure, and the last one agrees with the status |
| Gossip.Gossip.Merge | internal/cluster/gossip.go:195-217 | entry by entry in any order, newer entries are taken, the own entry never, and known peers get the new status |
| Gossip.MergeKeepsSelfAndStamps | internal/cluster/gossip.go:195-217 | a merge keeps the own entry and every known node, and no update time goes back |
| Gossip.MergesCommuteIff | internal/cluster/gossip.go:195-217 | two merges can be exchanged exactly when entries that tie on a newest time are equal |
| Gossip.MergedAllIsNewest | internal/cluster/gossip.go:195-217 | after any sequence of merges each entry was offered and is as new as every offer |
| Gossip.GossipIgnoresOrder | internal/cluster/gossip.go:195-217 | without ties, order and repetition of merges do not matter |
| Gossip.Gossip.MarkPeer | internal/cluster/gossip.go:236-247 | the entry of the node gets the status and the time, made if need be, and no other entry changes |
| Gossip.MarkSurvivesIff | internal/cluster/gossip.go:195-247 | what a node noted about another outlives any sequence of merges exactly when none of them carries a later time |
| Gossip.Gossip.SetSelf | internal/cluster/gossip.go:250-266 | the own entry gets the status, the next version and the time, and no other entry changes |
| Gossip.SelfUpdateSpreadsIff | internal/cluster/gossip.go:195-266 | a peer takes over a node's new status exactly when its own entry about the node is older, missing or the same |
| Gossip.PushPullAgreesIff | internal/cluster/gossip.go:153-190 | after one exchange both sides agree on a third node exactly when they did not tie on different entries |
| HintedHandoff.Handoff.StoreHint | internal/cluster/hinted_handoff.go:66-89 | a hint for oneself is refused; otherwise it is appended, the oldest going first at 1000 |
| HintedHandoff.Handoff.Replay | internal/cluster/hinted_handoff.go:137-179 | undelivered recent hints stay in order, delivered ones are counted, other nodes are untouched |
| HintedHandoff.Deliver | internal/cluster/hinted_handoff.go:150-166 | the delivery loop splits the snapshot; exactly the hints at most 24 hours old whose call failed are retained |
| HintedHandoff.RunConserves | internal/cluster/hinted_handoff.go:66-179 | over every run without overlap each stored hint is counted once among pending, delivered, aged and evicted, and pending keeps store order within the limit |
| HintedHandoff.EveryFateHasItsReason | internal/cluster/hinted_handoff.go:66-179 | in every interleaving a hint dropped as aged was over 24 hours old at some commit, a delivered one at most that old with a successful call, an evicted one the oldest of 1000 |
| HintedHandoff.BurstOfStores | internal/cluster/hinted_handoff.go:66-89 | after any burst the newest 1000 hints are pending and the oldest were evicted |
| HintedHandoff.UnaccountedHintsAreLost | internal/cluster/hinted_handoff.go:66-179 | after every interleaving of stores, snapshots and commits the hints without account are exactly those a commit found pending although they were stored after its snapshot |
| HintedHandoff.OverlappingReplayLosesIff | internal/cluster/hinted_handoff.go:137-179 | a run loses no hint exactly when no hint was stored between a snapshot and its commit |
| HintedHandoff.EveryRunIsBounded | internal/cluster/hinted_handoff.go:66-179 | in every interleaving the pending list stays within 1000 |

## Left out

- Concurrency inside one replica: a storage Put is one step, although the replication handler takes no per-key lock and two Puts of one key can interleave between read and write.
- Aliasing: clocks are values once stored, so pruning a stored clock does not reach back into a caller's map as it can in Go.
- Quorum.QuorumSafety: assumes live runs; the lemmas ending in `KeepsCoverIff`, `StorageEngine.PruningKeepsClockIff`, `Siblings.ReconcileCoverIff`, `Quorum.AcknowledgedWriteReadsBackIff` and `Deletes.ReadShowsIff` say what each excluded event can lose.
- ClockText.ClockStringInjective: gives a sufficient condition, since what reconciliation needs of the text is settled exactly by `Siblings.ReconcileCoverIff`.
- StorageEngine.EveryRecordStaysReadable: is stated for the limits under which clocks fit the decoder; a larger configured entry limit can write a record that reading refuses, as `StorageEngine.EntryLimitIsTight` shows.
- AntiEntropy.ExchangeWithPeer: the peer's root is what the remote call returned, and a replica's Put is reconciliation alone, which `StorageEngine.QuietPutReconciles` justifies.
- Transport.DTOToVClock: all entries of one clock get one time, although the source reads the clock for each.
- Overwrite.Sweep: whether a delete reaches its quorum is a parameter.
- Merkle.MerkleTree.Compare: two trees of depth 0 are left out; the source indexes past the end there, and the configuration demands a depth of at least one.
- Membership.Manager.RecordHeartbeatFailure: latency and time bookkeeping, and the peer's version, are not recorded.
- The order that library sorts give to equal keys is open wherever the source leaves it open.
- The attribution of replica errors to nodes in quorum errors, and the error texts.
- The JSON wire format, and what it does to identifiers that are not valid UTF-8.
- Pebble, files, HTTP, gRPC, TLS, timeouts, goroutine scheduling, metrics, logging, backup, rate limiting and the command line.
- Bootstrap, graceful shutdown, node join and leave at the coordinator, partition detection, batch operations and client retries.
- The Merkle tree's level listing, the ring's accessors and the configuration checks beyond identifiers and quorum overlap.
