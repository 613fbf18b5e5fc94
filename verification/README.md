# logship: a verified model

logship is a small Kafka-shaped commit log written in Go. This project models its four stateful
parts in Dafny and proves what they keep, over every input, every run and every message order:

1. **The segmented log** (`internal/record`, `internal/log`): the binary record codec, the sparse
   index and its file, segments, recovery after a crash, rotation, and byte-budgeted reads over
   several segments. Files are byte sequences; the checksum is the real CRC-32 (Castagnoli).
2. **Replication under one leader's tenure** (`internal/broker/replica.go`, `handlers.go`): leader
   and follower as a system of atomic steps over a network that delays, repeats and reorders
   everything, with liveness and freshness chosen anew at every recomputation.
3. **The consumer-group coordinator and the range assignor** (`internal/group`,
   `internal/assignor`): the four-state machine, one assignment per generation, bounded rebalances.
4. **Controller upkeep and replica placement** (`broker.go`, `metadata.go`).

What the source changes in place is a class whose methods are proved against functions on values
(`Log`, `Segment`, `SparseIndex`, `Reader`, `LeaderPartition`, `Metadata`, `ConsumerGroup`,
`Coordinator`); the theorems about whole runs are stated on those functions. `dafny verify
dfyconfig.toml` checks everything.

## Files

| file | holds |
|---|---|
| Bytes, Crc32c, Seqs, Sorting, Wrappers | big-endian integers, the checksum, sequence facts, sorting by a total order, Option |
| Record | codec, its laws, concatenated encodings |
| Index, Segment, Recovery, StaleIndex | sparse index, one segment, recovery of one segment, index entries left beside an empty file |
| View, ReadLaws, FailingReads, Log | the log as a chain of record segments, what reads return and when they fail, the `Log` class |
| Replication, Broker | the tenure as a step system; the broker's bookkeeping in place |
| Controller | ticks, recomputations, placement, pushed metadata |
| Assignor, Group, GroupLaws, Coordinator | range assignor, groups as values and their runs, what each operation does to a group, the coordinator in place |
| Keys | string keys of replica state and committed offsets |

## Findings

Where the code and its documentation or its own comments part, the model follows the code, and a
lemma gives the exact condition or a concrete run:

- **Reads can skip records.** After stopping on the byte budget inside one segment, the loop over
  segments passes the next one by and goes on in the one after it (internal/log/log.go:182-205).
  `ReadContiguousIff` says exactly when that happens, `HoleShape` what the batch then looks like;
  `HoleReachable` lays such a log out by appends. Followers survive it: `RoundProgress`, `CatchUp`.
  A read from a negative offset passes over the first segment the same way (`ReadRefines`).
- **An empty active file keeps its index.** Recovery returns before it clears the index
  (internal/log/segment.go:85-88). Lookups then search a list out of order, which misleads some read of
  some later history exactly when three or more entries were left (`LiveIff`, `ManyHurt`). New entries go
  over the file from the front, so old ones can still end it when the segment is sealed and opened again,
  and that scan starts from the last one. `StaleIndexIff` has the exact condition for all later
  histories, reopened or not: at most one entry left, or two in one corner case.
- **Records over 64 MiB are written but cannot be read back.** `DecodeEncoding` has the
  equivalence. In the active segment, reopening drops such a record and everything after it
  (`ActiveRecovery`, `CrashAndReopen`); a sealed one does so exactly when the record is not before its
  last index entry (`SealedShortcut`), and then leaves a gap in the log. Followers stay behind such a
  record for ever: `StuckBehind`, `CatchUpIff`. The decoder panics on the key lengths of `PanicsExactly`;
  `PanicReachable` has such an input.
- **The high watermark is not always the minimum over the in-sync set**, as DESIGN.md has it: a
  replica enters the set on a recent report alone. `WatermarkIsMinimumIff` has the condition;
  `StoredSetMayLag` is a run where a record acknowledged with acks=all is missing on a replica of
  the stored set. What holds instead: `AdvanceSafety`, `AckedDurable`.
- **Leader election ignores the in-sync set**, even while a member of it is alive, against
  DESIGN.md's "if no ISR member is alive": `CleanElectionIff`, `UncleanElection`.
- **Ticks never go quiet when all replicas of a partition are dead**: `TickSettles`.
- **Pushed metadata can leave a leader outside its in-sync set**: `LeaderInSyncIff`, `LeaderDropped`.
- **Offset keys of different groups can meet**, exactly when one name with a slash after it starts the
  other: `OffsetKeysMeetIff`, `OffsetKeysMeet`.

## Model

| member | source | states |
|---|---|---|
| Records.Encode | internal/record/record.go:45-65 | the buffer filled field by field is the wire form of the record, with a zero timestamp replaced by the clock and any other kept |
| Records.PayloadFields | internal/record/record.go:45-65 | which field sits at which bytes of the payload |
| Records.ReadFull | internal/record/record.go:132-145 | delivers the whole buffer or tells a clean end of stream from a torn one, for both kinds of reader |
| Records.Decode | internal/record/record.go:87-130 | streaming decode answers as the byte-level decoder does and advances by exactly the record |
| Records.DecodeAt | internal/record/record.go:76-85 | positioned decode gives the same answer as streaming decode from there |
| Records.DecodeEncoding | internal/record/record.go:45-130 | decoding an encoding followed by anything returns the record and its size if and only if the payload is at most 64 MiB; otherwise, as long as the length fits its field, it is the corruption error |
| Records.EncodingDecode | internal/record/record.go:87-130 | accepted bytes are exactly the encoding of the record returned |
| Records.PrefixRejected | internal/record/record.go:87-103 | a non-empty proper prefix of an encoding is never taken for the record, and is an error, not another record, a clean end or a panic, as long as the length fits its field |
| Records.PanicsExactly | internal/record/record.go:118-122 | the inputs on which the wrapping key-length guard lets the slice expression panic |
| Records.PanicReachable | internal/record/record.go:118-122 | one such input, of 33 bytes |
| Records.ScanCut | internal/record/record.go:87-145 | parsing a file cut at any byte yields its longest prefix of whole records up to the first over 64 MiB, ending cleanly exactly when the cut fell right after them |
| Records.ScanPrefix | internal/record/record.go:87-145 | those records come first whatever the lengths |
| Records.ScanAll | internal/record/record.go:45-145 | a concatenation of encodings parses back to the one list of records |
| Index.SparseIndex.Open | internal/log/index.go:24-58 | loading keeps every whole entry and does not move the write position |
| Index.SparseIndex.Append | internal/log/index.go:60-69 | one entry more in memory and at the write position, truncated to 32 bits |
| Index.SparseIndex.Lookup | internal/log/index.go:72-84 | binary search, on entries in any order, and on sorted ones the position of the greatest offset at or below the target |
| Index.FoundExact | internal/log/index.go:72-84 | on sorted entries, the position of the entry whose successor is beyond the target, 0 when the first entry already is |
| Index.LoadFileOf | internal/log/index.go:37-69 | the index file reads back as the entries written, whatever torn entry follows |
| Index.EntriesPoint | internal/log/segment.go:162-181 | entries strictly increase in offset and position, and each points at its own record |
| Index.EntriesSpaced | internal/log/segment.go:162-181 | the first record is indexed, entries are at least the interval apart, and a record without one has an entry closer than that before it |
| Index.LookupBoundary | internal/log/index.go:72-84 | a lookup lands on a record boundary at or before the target |
| Segments.Segment.Append | internal/log/segment.go:162-181 | writes any record at the next offset and keeps file, index and counters describing the same records if they did; refuses any other offset unchanged |
| Segments.Segment.ReadFrom | internal/log/segment.go:183-219 | the batch that a scan of the bytes gives from where the lookup points, which is the batch of the records, or a failure exactly when a record over 64 MiB lies between the indexed record before the offset and the point where the batch stops |
| Segments.BatchFromBoundary | internal/log/segment.go:183-219 | a scan of the bytes from any record boundary at or before the offset gives the same batch, or fails exactly when it comes to a record over 64 MiB |
| Segments.Segment.Open | internal/log/segment.go:53-82 | opens to what the two recovery paths make of the bytes found |
| Segments.Segment.RecoverSealed | internal/log/segment.go:89-119 | the scan from the last index entry, in place, gives the specified end and truncation |
| Segments.Segment.RecoverByFullScan | internal/log/segment.go:120-160 | the full scan rebuilds the index entries and counters of the records found, and truncates after them |
| Recoveries.ActiveRecovery | internal/log/segment.go:84-160 | a file cut at any non-zero byte recovers to the state after appending the records that survive: the whole ones, up to the first over 64 MiB |
| Recoveries.RebuildEqualsLive | internal/log/segment.go:120-181 | rebuilding a live segment by full scan gives its own entries, counters, size and next offset if and only if it holds no record over 64 MiB |
| Recoveries.SealedShortcut | internal/log/segment.go:89-119 | scanning from the last index entry, or from the start without an index, finds the true end and recovers all if and only if no record from there on is over 64 MiB |
| Recoveries.SealedRecovery | internal/log/segment.go:89-160 | what a sealed segment recovers to in any case: everything up to the first record over 64 MiB from there on |
| StaleIndex.StaleIndexIff | internal/log/segment.go:85-119 | an index left beside an empty log file is harmless to every later history, before and after the segment is opened again, active or sealed, if and only if it holds at most one entry; or two, when every record gets an entry and none can be longer than the position of the second |
| StaleIndex.LiveIff | internal/log/segment.go:85-88 | reads before the segment is opened again are harmed if and only if there are more than two entries |
| StaleIndex.ManyHurt | internal/log/segment.go:85-88 | for any leftover of three or more, a history whose last record such a read misses or fails on |
| StaleIndex.ReadLive | internal/log/segment.go:53-82 | opening with an empty log file, appending and reading gives exactly those reads |
| StaleIndex.ReadReopened | internal/log/segment.go:53-160 | opening that segment once more from the files it leaves gives exactly the state and reads the condition speaks of |
| Index.LoadOverwritten | internal/log/index.go:60-69 | an index file written over from the front reads back as the new entries and the old ones beyond them |
| Logs.Log.Open | internal/log/log.go:44-86 | every segment is recovered from its files; files left by a history reopen to that history cut to whole records |
| Logs.Log.Append | internal/log/log.go:109-120 | assigns the next offset and grows the abstract log by exactly that record, of any size, across rotations |
| Logs.Log.AppendAt | internal/log/log.go:122-130 | takes only the next offset, otherwise refuses and changes nothing |
| Logs.Log.AppendLocked | internal/log/log.go:132-152 | rotation changes where the record goes, never what the log holds |
| Logs.Log.RotateLocked | internal/log/log.go:154-165 | seals the active segment and starts an empty one at the next offset |
| Logs.Log.Read | internal/log/log.go:167-207 | the loop over segments returns the specified batch, or the failure of the first segment read that fails |
| FailingReads.ReadWhenOk | internal/log/log.go:182-205 | a read that does not fail gives what the abstract log says, of readable records only; with all records readable none fails |
| FailingReads.FailsAt | internal/log/log.go:182-205 | a read from a record over 64 MiB always fails |
| Logs.Log.SetHighWatermark | internal/log/log.go:223-234 | advances to what is asked or to the log end, whichever is less, and never retreats |
| Logs.Log.WaitHighWatermark | internal/log/log.go:236-261 | whatever happens to the watermark meanwhile, a wait succeeds if and only if it found the watermark past the offset in some round with all rounds up to it in time, and fails with the watermark at or below the offset |
| Logs.WaitOutcome | internal/log/log.go:236-261 | with a forward clock that is so exactly if the watermark passed the offset in a round begun before the deadline, even when it was noticed after it |
| Logs.CrashAndReopen | internal/log/log.go:62-86 | a valid log whose sealed segments scan through, cut anywhere in its active file, reopens to its longest prefix of whole, readable records and is ready for appends |
| Logs.CutKeepsPrefix | internal/log/log.go:62-86 | what survives a cut is a prefix of the abstract log and the longest one |
| Logs.AppendWithinLimit | internal/log/log.go:132-152 | every segment stays within the limit or holds a single record, so positions fit 32 bits |
| Logs.AppendKeepsFilled | internal/log/log.go:132-152 | no segment is sealed before a record that would still have fitted, and an appended record is the last one |
| Views.FlatAt | internal/log/log.go:32-41 | the segments are consecutive slices of one sequence of records |
| Views.AppendGrowsFlat | internal/log/log.go:132-165 | an append adds one record at the end of that sequence wherever the segment boundary falls |
| ReadLaws.ReadRefines | internal/log/log.go:167-207 | every read, from any offset: nothing past the end or the cap, otherwise an increasing selection of the log's own records from its start on and below the cap, all but the last under the budget, ending only where the next is missing or does not fit; a negative offset starts after the whole first segment |
| ReadLaws.ReadBudget | internal/log/log.go:182-205 | a batch oversteps its byte budget only by a last record that is also its first or the first of a segment |
| ReadLaws.ReadExact | internal/log/log.go:167-207 | when the bytes left fit the budget the batch is exactly the slice up to the cap |
| ReadLaws.ReadContiguousIff | internal/log/log.go:182-205 | a batch has no hole if and only if it does not stop short in a segment with a non-empty one below the cap two places on |
| ReadLaws.HoleShape | internal/log/log.go:182-205 | a batch has a hole if and only if it breaks off inside one segment and goes on at the start of the segment two places after it |
| ReadLaws.GoesOnTwoFurther | internal/log/log.go:182-205 | when the first run ends in a segment and the batch goes on, it goes on with the first record two segments further |
| ReadLaws.NoHoleNearTheEnd | internal/log/log.go:182-205 | a first run that ends in the last or next-to-last such segment, wherever the read came from, is the whole batch |
| ReadLaws.HoleReachable | internal/log/log.go:182-205 | a log built by four appends and a read of it that skips two records |
| Replication.MinLeoIsMinimum | internal/broker/replica.go:71-79 | the candidate watermark is the least end offset known in the in-sync set, and is attained |
| Replication.ReportingExact | internal/broker/replica.go:52-70 | the followers in a recomputed in-sync set are exactly the live replicas with a recent report |
| Replication.ApplyKeepsPrefix | internal/broker/replica.go:182-198 | applying any records of the leader's log to a prefix of it gives a longer prefix |
| Replication.ApplyTakesRun | internal/broker/replica.go:182-198 | a follower takes from a batch exactly what its first run has beyond the own end, and nothing after a gap |
| Replication.StepKeepsInv | internal/broker/replica.go:13-94 | every step keeps the tenure invariant and takes nothing back |
| Replication.FollowerPrefix | internal/broker/replica.go:182-198 | after any steps in any order every follower's log is a prefix of the leader's |
| Replication.AdvanceSafety | internal/broker/replica.go:39-94 | every member of the in-sync set behind an advance holds the leader's records below it, then and for the rest of the tenure |
| Replication.AckedDurable | internal/broker/handlers.go:164-173 | an acks=all success is below the watermark and held by every member of the set behind the latest advance |
| Replication.HighWatermarkLaws | internal/log/log.go:223-234 | watermarks stay between 0 and the log end, the leader's never decreases, a follower's rises only under the leader's and stays below it if it started there |
| Replication.ReadsAreStable | internal/broker/handlers.go:238-242 | a record once read at an offset is the one every later read of that offset returns |
| Replication.WatermarkIsMinimumIff | internal/broker/replica.go:71-90 | the watermark equals the known minimum of the set exactly when that minimum is not below the old watermark |
| Replication.StoredSetMayLag | internal/broker/replica.go:52-88 | a run after which a stored in-sync replica lacks an acknowledged record |
| Replication.RoundProgress | internal/broker/replica.go:177-198 | a fetch round gains at least one record, holes or not, if and only if the follower is behind and the leader's read does not fail |
| Replication.CatchUp | internal/broker/replica.go:159-211 | as many rounds as the follower is records behind a quiet leader of readable records make the logs equal |
| Replication.StuckBehind | internal/broker/replica.go:159-211 | no number of rounds takes a follower past a record over 64 MiB ahead of it |
| Replication.CatchUpIff | internal/broker/replica.go:159-211 | a follower of readable records catches up if and only if all of the leader's are readable |
| Brokers.SameIntsCheck | internal/broker/replica.go:96-110 | equal lengths and containment of the second list in the first |
| Brokers.LeaderPartition.NoteReplica | internal/broker/replica.go:13-27 | records exactly the reported end offset; one step of the tenure |
| Brokers.LeaderPartition.RecomputeHW | internal/broker/replica.go:39-94 | the stored set is exactly the leader and the live replicas heard from within the lag time; the watermark, if raised, is the least of their reported ends and the log end, and is never below it; a run of the tenure's steps |
| Brokers.LeaderPartition.MaybeSoloHW | internal/broker/handlers.go:184-195 | publishes everything exactly when the leader is alone in the stored set; a run of the tenure's steps |
| Brokers.LeaderPartition.ProduceOne | internal/broker/handlers.go:160-178 | one record is appended, noted, recomputed for and waited for or published; up to what others do to the watermark during the wait, a run of the tenure's steps |
| Brokers.LeaderPartition.ProduceLocal | internal/broker/handlers.go:142-182 | the log grows by the messages in order, offsets are consecutive, success with acks=all means all are below the watermark, and a failure leaves the record it waited for in the log |
| Brokers.ApplyFetch | internal/broker/replica.go:182-202 | the record loop applies the specified prefix of a batch to the log, takes over the watermark and reports the end; the apply step of the tenure |
| Controllers.Metadata.ControllerTick | internal/broker/broker.go:224-270 | updates every partition of every topic as specified and reports a change exactly when one qualifies, on all inputs on which the election does not panic |
| Controllers.TickKeepsMeta | internal/broker/broker.go:228-261 | a tick keeps the in-sync set non-empty, duplicate-free, within the replicas and with the leader in it |
| Controllers.TickSettles | internal/broker/broker.go:228-261 | one tick leaves leader and set alive if any replica is; a second changes nothing; it still reports a change exactly when all replicas are dead |
| Controllers.TickExact | internal/broker/broker.go:228-261 | exactly who is in the in-sync set and who leads after a tick: a dead leader is replaced by the first live replica in placement order, a live one only by the preferred replica |
| Controllers.TickReportsIff | internal/broker/broker.go:224-263 | a change is reported exactly when the partition changed or its leader was dead |
| Controllers.RecomputeKeepsMeta | internal/broker/replica.go:52-88 | a leader's recomputation keeps the same invariant |
| Controllers.MetaRunKeeps | internal/broker/broker.go:224-262 | so does every run of ticks and recomputations |
| Controllers.CleanElectionIff | internal/broker/broker.go:239-244 | a dead leader's successor comes from the old set exactly if a live member has no live replica placed before it, or nobody lives and the first placed was a member |
| Controllers.UncleanElection | internal/broker/broker.go:239-244 | a live in-sync replica passed over for one outside the set |
| Controllers.AssignReplicas | internal/broker/metadata.go:158-179 | fills every partition with as many consecutive brokers as the replication factor asks for, between one and all of them, led by the first alone |
| Controllers.PlacementOk | internal/broker/metadata.go:166-177 | distinct brokers give distinct replicas and a sound starting state |
| Controllers.LeaderShare | internal/broker/metadata.go:166-177 | the j-th broker leads npart/n partitions, one more for the first npart mod n |
| Controllers.LeadersBalanced | internal/broker/metadata.go:166-177 | leader counts differ by at most one |
| Controllers.SameIntsIsSetEquality | internal/broker/replica.go:96-110 | on lists without repetitions the comparison is set equality |
| Controllers.ApplyTopic | internal/broker/metadata.go:77-103 | merges each pushed partition with the first local copy of the same id as specified |
| Controllers.ApplyExact | internal/broker/metadata.go:77-103 | who leads and who is in the in-sync set after a push, in terms of the push, the local copy and liveness |
| Controllers.LeaderInSyncIff | internal/broker/metadata.go:88-102 | when a push leaves the leader inside its in-sync set, in terms of the push, the local copy and liveness |
| Controllers.LeaderDropped | internal/broker/metadata.go:96-101 | a push after which the leader is outside the set |
| Assignors.AssignRange | internal/assignor/range.go:32-52 | the running-index loop gives each member its share of one topic |
| Assignors.RangeAssign | internal/assignor/range.go:9-30 | every member gets, for each topic, its share of the sorted partitions in sorted member order: each share ascends, and an earlier member's partitions are not above a later one's |
| Sorting.IntsAscend | internal/assignor/range.go:23-27 | sorted partitions ascend and are the ones given |
| Sorting.StringsAscend | internal/assignor/range.go:12-14 | sorted ids ascend by their first difference and are the ones given |
| Assignors.StartFormula | internal/assignor/range.go:38-51 | slice i starts at i * (p/n) + min(i, p mod n) |
| Assignors.SlicesConcat | internal/assignor/range.go:41-51 | the slices in member order concatenate to the sorted partition list |
| Assignors.SlicesBalanced | internal/assignor/range.go:38-51 | loads differ by at most one, longer slices first |
| Assignors.RangeExact | internal/assignor/range.go:6-30 | with distinct members and partitions each partition goes to exactly one member |
| Groups.SortedIdsLaw | internal/group/coordinator.go:235-244 | however ids are collected, sorting gives one list, least id first |
| GroupLaws.JoinExact | internal/group/coordinator.go:157-227 | after a join: the member has its topics, is heard and joined; exactly the others heard within the session timeout stay, with theirs; the group is assigned exactly if all have joined |
| GroupLaws.LeaveExact | internal/group/coordinator.go:317-328 | after a leave: the member is gone, exactly the others heard within the session timeout stay and must join again |
| GroupLaws.ExpireExact | internal/group/coordinator.go:403-449 | after an expiry: exactly who stays, whether a rebalance completes, and in which generation and state |
| GroupLaws.SyncExact | internal/group/coordinator.go:261-297 | the refusals in order; otherwise the member is refreshed and gets its assignment, and the last to sync makes the group stable |
| GroupLaws.HeartbeatExact | internal/group/coordinator.go:299-315 | the refusals in order; otherwise exactly that member is refreshed |
| GroupLaws.TopicsOfLastJoin | internal/group/coordinator.go:157-328 | in any run, a member is in by its last join, has not left since, and subscribes to exactly its topics |
| Groups.StepKeepsInv | internal/group/coordinator.go:157-449 | every operation keeps the group invariant and never lowers the generation |
| Groups.Frozen | internal/group/coordinator.go:197-297 | an assigned group keeps members and assignments until its generation changes |
| Groups.OneAssignmentPerGeneration | internal/group/coordinator.go:261-297 | successful syncs of one generation in any run come from one assignment |
| Groups.AssignmentExact | internal/group/coordinator.go:229-259 | what one assignor run hands out divides the reading it ran on: each partition of each subscribed topic has exactly one owner, and nobody holds anything else |
| Groups.AssignmentOfRun | internal/group/coordinator.go:229-259 | in any run, an assigned group's assignment was made by one event of its generation and divides the metadata as that event read it |
| GroupLaws.AssignmentFromRequests | internal/group/coordinator.go:229-259 | in any run, an assigned group divides what the event that assigned it read of the topics its members last joined with, and is led by the least id |
| Groups.BoundedRebalance | internal/group/coordinator.go:404-449 | an expiry later than the opening time plus the rebalance wait ends the rebalance or finds a later generation, and leaves nobody silent beyond the session timeout |
| Groups.ExpireEnds | internal/group/coordinator.go:425-446 | one such expiry, from any state in which the late members were last heard from before the opening |
| Groups.ExpireQuietIff | internal/group/coordinator.go:403-424 | an expiry leaves an assigned group as it is if and only if every member was heard from within the session timeout |
| Coordinators.ConsumerGroup.BeginRebalanceLocked | internal/group/coordinator.go:197-208 | resets every member and opens the next generation |
| Coordinators.ConsumerGroup.MaybeCompleteJoinLocked | internal/group/coordinator.go:210-227 | drops expired members and finishes once all others have joined or none is left |
| Coordinators.ConsumerGroup.FinishAssignmentLocked | internal/group/coordinator.go:229-259 | elects the least id and hands out the range assignment of all subscribed topics |
| Coordinators.ConsumerGroup.ExpireGroup | internal/group/coordinator.go:408-448 | the per-group body of an expiry, with the outcome of `GroupLaws.ExpireExact` |
| Coordinators.Coordinator.Join | internal/group/coordinator.go:157-195 | serves a join with the outcome of `GroupLaws.JoinExact`, answers with generation, leader, state and, to the leader alone, the sorted member ids; leaves every other group alone |
| Coordinators.Coordinator.Sync | internal/group/coordinator.go:261-297 | serves a sync, with the answer and the errors in the source's order |
| Coordinators.Coordinator.Heartbeat | internal/group/coordinator.go:299-315 | refreshes a member of a stable group at its generation, otherwise refuses unchanged; answers with the group's state |
| Coordinators.Coordinator.Leave | internal/group/coordinator.go:317-328 | removes a member and always opens a new generation |
| Coordinators.Coordinator.Expire | internal/group/coordinator.go:403-449 | visits every group exactly once, with the outcome of `GroupLaws.ExpireExact` |
| Coordinators.GroupsAreIndependent | internal/group/coordinator.go:148-155 | each group of a coordinator goes through exactly the run of its own requests |
| Coordinators.CoordinatorInvariant | internal/group/coordinator.go:157-449 | every group keeps the invariant over every run of the coordinator |
| Coordinators.OneAssignmentEverywhere | internal/group/coordinator.go:261-297 | one assignment per group and generation over every run of the coordinator |
| Coordinators.AssignmentEverywhere | internal/group/coordinator.go:229-259 | the same for every group of a coordinator in every run |
| Coordinators.BoundedEverywhere | internal/group/coordinator.go:404-449 | a bounded rebalance of every group in every run of the coordinator |
| Keys.SplitAfterKey | internal/broker/replica.go:142-150 | splitting a replica key gives topic and partition back, slashes in the topic or not |
| Keys.LastSlash | internal/group/coordinator.go:392-399 | the position of the last slash, -1 without one |
| Keys.OffsetKeyRoundTrip | internal/group/coordinator.go:353-376 | a group reads back the topic and partition it committed |
| Keys.OffsetKeysMeetIff | internal/group/coordinator.go:112-114 | some keys of two groups meet if and only if one name with a slash after it starts the other with a slash after it |
| Keys.OffsetKeysApart | internal/group/coordinator.go:112-114 | in particular keys of groups without a slash in their names never meet |
| Keys.OffsetKeysMeet | internal/group/coordinator.go:112-114 | two groups whose keys meet |

## Left out

- Logs.Log.Append: a log of 2^63 records, where the source's offset would wrap, is excluded.
- Logs.Log.Read: says nothing of logs that hold a record of 4 GiB or more, whose length does not fit the size field; what the decoder makes of one depends on checksum collisions.
- Logs.CrashAndReopen: sealed segments that do not scan through are excluded; `Recoveries.SealedRecovery` says what becomes of one, and the log then has a gap.
- Records.ScanCut: a file that holds a record of 4 GiB or more is covered by `Records.ScanPrefix` only.
- Segments.Segment.Open: does not cover files on which the decoder panics (`Records.PanicsExactly`), since the process ends there.
- Logs.Log.WaitHighWatermark: one setting of the watermark per round stands for all that happens during a sleep, and the log end stays; a wake-up without one is a round that sets it to what it is.
- Brokers.LeaderPartition.ProduceLocal: the partition of each message and the leader check are taken as decided; nothing but the watermark moves between its steps; that anything may happen there is what the step system of `Replication` allows.
- Replication: the clock is never at the Unix epoch, because a zero timestamp would be replaced again by the follower's clock; followers may restart and lose their watermark but not their records, so losing the page cache is not a step of a tenure.
- StaleIndex.StaleIndexIff: speaks of leftovers of one history of appends, not of files in which entries of several were left over each other.
- Several leaders at once, failover between tenures, divergent logs and truncation: the code fences neither, and its documents disclaim them.
- Coordinators: one clock reading serves a whole operation; partition ids of a topic are distinct in the reading an assignment uses.
- Aliasing between Go slices (the tick filters the in-sync list inside its own backing array) and maps handed out to callers: the model passes values.
- Write errors, fsync and the append counter's flushes, directory creation and file names, and a crash that damages bytes instead of cutting the active file.
- Committing offsets, their JSON file, the persistence hook and the internal offsets topic; commits are not fenced by generation.
- HTTP handlers, JSON, forwarding, proxies and client retries; the wire carries keys and values unchanged.
- The partitioner, cluster liveness bookkeeping, the store of open logs, configuration and command-line tools.
