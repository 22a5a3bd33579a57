# ApexStore, modelled and verified

ApexStore is an embedded key-value store built as a log-structured merge tree,
with a REST and WebSocket front end. This project models the parts of it whose
correctness is not visible in any one function, and proves what they promise.

| module | part of the system |
|---|---|
| `TableIterators`, `Merge` | the k-way merge iterator behind scans and compaction |
| `Compaction`, `CompactionGroups` | the merge of a group of tables, replacing groups in the table list, size classes |
| `VersionedCompaction`, `CompactionPasses` | what compactions do to reads of records with timestamps, one group or several in one pass |
| `StoredTables`, `VersionSets` | tables in memory or in files, the table list and background plans |
| `TableReads` | point reads of the table lists, and their value cache |
| `MemTable`, `RangeTombstones` | memtable accounting, ordered snapshots, range deletes |
| `RateLimiter` | the sharded sliding-window rate limiter |
| `Crdt`, `Gossip`, `PnGossip` | last-writer-wins map, counters, and counters that gossip |
| `Sync` | the real-time sync protocol between server and clients |
| `MemoryLimiter` | the lock-free memory budget, one atomic operation at a time |
| `BlobKeys`, `BlobStore` | chunked blobs as a map from name to bytes |
| `Successor`, `Paging`, `Keyspace`, `BulkIo` | prefix ranges, paged scans with cursors, paged export |
| `Transactions` | REST transactions with owners, limits and lifetimes |
| `TimeTravel` | bounded snapshot history, persisted and restored |
| `DataSync` | diff and resolution between two replicas |
| `Options`, `Bytes`, `Utf8`, `Rows`, `Sums` | byte order, UTF-8, sorted rows, layered views, sums |

Objects that update themselves are classes, loops are loops with invariants, and
each method is tied to a specification function or to a ghost history of the run
(`log`, `captured`, `history`). Protocols with concurrency are step systems whose
invariants hold after every sequence of steps. Clocks, random identifiers, hash
functions, failures of storage and of the file system are parameters.

## Where the code falls short of its promise

Each of these is stated as an if-and-only-if whose condition a caller could
check, and shown at an input.

- A size-tiered group need not be a run of neighbours, and its output takes the
  place of its oldest table, so a read can go back to an older value
  (`KeyReadPreservedIff`, `SizeTieredGroupCanLoseNewestValue`). A dropped
  tombstone can bring an older value back (`NeighbourRunSafeIff`,
  `DroppedTombstoneUncoversOldValue`). Several groups in one pass depend on each
  other (`PassReadPreservedIff`, `NestedGroupsGoBackToMiddle`).
- Compaction looks only at rows in memory, and tables found on disk at start have
  none there. What is in their files alone is lost when they are compacted, and
  after a restart all of them are picked (`OldestRunSafeIff`,
  `RecoveredListIsLost`, `RecoveredPickIsLost`).
- Reads know an empty value from a deletion; compaction and the value cache do not
  (`WholeListReadsIff`, `EmptyValueIsLost`, `CachedReadsRightIff`,
  `EmptyValueIsReadOnce`).
- The value cache of point reads is keyed without the column family, so a value
  read in one family can answer in another (`CachedReadsRightIff`,
  `OtherFamilyAnswers`).
- Compaction drops every key under a range tombstone, also one written after
  the range delete (`FullCompactionLosesLaterWriteIff`, `LaterWriteIsLost`). And
  it stamps its output anew, group after group, so a record can outlive a range
  delete that took its timestamp earlier and reached the list later
  (`LateTombstoneIff`, `RestampedRecordOutlivesDelete`, `PassReadPreservedIff`,
  `StampsApartReviveOlderValue`).
- Timestamps are drawn before the lock is taken, and ties favour the record, so a
  range delete may miss the write before it or hide the write after it
  (`LayersReadLatestIff`, `DeleteAfterWrite`, `DeleteBeforeWrite`).
- A blob of 2^32 chunks or more is silently cut (`RetrievableIff`,
  `HugeBlobComesBackEmpty`).
- The export's `key_after` skips keys that extend the last one of a page
  (`ExportCompleteIff`, `MixedWidthExportSkips`), and on an all-0xFF key it starts
  over: it visits rows twice or never stops (`FixedWidthExportIff`,
  `WrappedPageHaltsIff`, `WrappedExportNeverHalts`).
- Cursors of prefix listings are converted to UTF-8, which can skip keys that are
  not (`FollowCompleteIff`, `LossyCursorSkips`).
- A request that wraps the word is granted on a full memory budget
  (`BudgetConserved`, `OversizedRequestBreaksBudget`).
- Last-writer-wins merges of tied writes depend on arrival order
  (`OrderMattersWhenNewestDisagree`), and catching up from a timestamp misses
  entries stamped at or before it (`CatchUpIff`, `EarlierChangeIsNotResent`).
- A two-way data sync never sends a key that only the local side has with
  timestamp 0 (`TwoWayConvergesIff`, `UnstampedKeyIsNotSent`).
- After a clock that went back or stood still, a restart can rebuild another
  snapshot list (`RestartRebuildsIff`, `StalledClockIsNotRebuilt`).

Where code and comment disagree the code is modelled: the range query of time
travel includes its lower bound (src/infra/time_travel.rs:172, the comment at
line 165 excludes it), and `key_after` never returns `None`
(src/infra/bulk_io.rs:70-82).

## Model

| member | source | states |
|---|---|---|
| TableIterators.TableIterator.constructor | src/core/table.rs:149-155 | a cursor over a sorted table stands on its first row and has all of it to read |
| TableIterators.TableIterator.Next | src/core/table.rs:160-162 | advancing drops exactly the current row from what is left to read |
| TableIterators.TableIterator.Seek | src/core/table.rs:178-183 | the loop leaves exactly the unread rows at or above the key |
| Merge.MergeIterator.constructor | src/core/iterators.rs:56-69 | the heap holds one live cursor per source that is not empty; nothing is lost or skipped |
| Merge.MergeIterator.Peek | src/core/iterators.rs:38-48 | the top entry precedes every other by (key, source index) |
| Merge.LeastHeadIsNext | src/core/iterators.rs:38-48 | the least head, ties to the lower index, is the next row of the merge: least pending key with the value of the newest source holding it |
| Merge.MergeIterator.SkipDuplicates | src/core/iterators.rs:71-94 | only rows of the emitted key are dropped, and no cursor is left on it |
| Merge.EmittedIsGone | src/core/iterators.rs:71-94 | after skipping, the emitted key is gone from what is pending and every other key keeps its value |
| Merge.MergeIterator.Next | src/core/iterators.rs:103-112 | what is pending loses exactly its least key, and the number of unread rows strictly falls |
| Merge.MergeIterator.Key | src/core/iterators.rs:114-119 | the least key still pending, empty when exhausted |
| Merge.MergeIterator.Value | src/core/iterators.rs:121-126 | the value the newest source has for that key |
| Merge.MergeIterator.Seek | src/core/iterators.rs:132-150 | from any reachable state, seeking leaves exactly the pending rows at or above the key, although the current key is reset |
| Merge.MergeIterator.Drain | src/core/iterators.rs:71-130 | draining terminates and gives a sorted sequence that is the merge of what was unread |
| Merge.MergeAll | src/core/iterators.rs:56-130 | a merge built over any sorted sources and drained is their merge |
| Merge.MergedStream | src/core/iterators.rs:38-126 | there is exactly one merge of given sources: two sequences that qualify are equal |
| Merge.RowInMerge | src/core/iterators.rs:38-126 | a row is in the merge iff some source holds it and no lower-index source holds its key |
| Merge.NestedMergeIsFlatMerge | src/core/iterators.rs:56-112 | merging consecutive groups and then the results is merging everything at once |
| Merge.SeekFiltersStream | src/core/iterators.rs:132-150 | draining after a seek is the undisturbed stream without its rows below the key |
| Compaction.LookupIsMergedView | src/core/engine/compaction.rs:117-131 | taking the tables newest first, the merge sees of every key what the newest table holding it has |
| Compaction.KeepLiveRows | src/core/engine/compaction.rs:148-185 | the merge loop reads the whole merge and keeps its rows with a value and outside every range tombstone |
| Compaction.ExecuteCompaction | src/core/engine/compaction.rs:96-209 | the output, at most one table and never an empty one, holds of every key the newest value among the rows in memory, unless that is empty or under a range tombstone |
| Compaction.ReplaceGroup | src/core/engine/version_set.rs:485-522 | one pass over the list: the output takes the place of the oldest input, other tables keep their order |
| Compaction.FillBins | src/core/engine/compaction.rs:236-256 | the loop sorts the tables into size classes: one class each, every table in its own |
| Compaction.GroupIntoBuckets | src/core/engine/compaction.rs:236-263 | the groups are exactly the size classes with enough members, wherever those stand in the list, each once and without a common table |
| VersionedCompaction.ColumnReadPreservedIff | src/core/engine/version_set.rs:466-522 | at one key, for whatever the group becomes there: the read is kept iff the group does not hold the key, a newer table answers, or what then comes first reads like the group's newest record |
| VersionedCompaction.LaterReadPreservedIff | src/core/engine/mod.rs:481-525 | for any group, any of its tables in memory, any range tombstones at the compaction and any afterwards, and every key: the read is kept iff a condition on the tables, the new stamp and the youngest tombstone over the key holds |
| VersionedCompaction.KeyReadPreservedIff | src/core/engine/mod.rs:1225-1235 | for reads right after the compaction, of every key, under a range tombstone or not, the condition is one on the tables alone |
| VersionedCompaction.CompactionPreservesReadsIff | src/core/engine/mod.rs:481-525 | a compaction preserves every read iff every key is safe |
| VersionedCompaction.RunSafeIff | src/core/engine/version_set.rs:466-472 | a run of neighbouring tables overtakes nothing: the read is kept iff a newer table answers, the run does not hold the key, or what compaction keeps of it, or else an older table, reads the same |
| VersionedCompaction.NeighbourRunSafeIff | src/core/engine/version_set.rs:466-472 | for a run in memory the only unsafe case at an uncovered key is a newest record without a value, over an older table that reads differently |
| VersionedCompaction.OldestRunSafeIff | src/core/engine/version_set.rs:466-472 | a run starting at the oldest table is safe at a key iff a newer table answers or what is in memory of the run reads like the run |
| VersionedCompaction.OldestRunIsSafe | src/core/engine/version_set.rs:466-472 | in memory, such a run is safe at an uncovered key unless it reads as an empty value |
| VersionedCompaction.WholeListReadsIff | src/core/engine/mod.rs:481-525 | compacting all tables, all in memory, keeps the read of an uncovered key iff it is not an empty value |
| VersionedCompaction.RecoveredListIsLost | src/core/engine/compaction.rs:123-131 | compacting all tables when none is in memory leaves every key unreadable |
| VersionedCompaction.DroppedTombstoneUncoversOldValue | src/core/engine/compaction.rs:150-165 | compacting a tombstone with any table that lacks the key makes the key read as the older value below the group, where it read as deleted |
| VersionedCompaction.EmptyValueIsLost | src/core/engine/compaction.rs:160-161 | an empty value is read before the compaction and absent after |
| VersionedCompaction.FullCompactionLosesLaterWriteIff | src/core/engine/mod.rs:1225-1235 | compacting all tables keeps the read of a key under a range tombstone iff it read as deleted, so a write after the range delete is lost |
| VersionedCompaction.LaterWriteIsLost | src/core/engine/compaction.rs:150-165 | a record one tick younger than the tombstone over it reads before the compaction and not after |
| VersionedCompaction.LateTombstoneIff | src/core/engine/mod.rs:2581-2619 | for a range delete the compaction of all tables did not see: a key under it reads as without the compaction iff the old and the new timestamp of its record lie on the same side of the delete, or it has no value and is hidden |
| VersionedCompaction.RestampedRecordOutlivesDelete | src/core/engine/mod.rs:2581-2619 | a record of time 3 under a range delete of time 5 is deleted, but not when a compaction at time 5 or later stamped it first |
| CompactionGroups.ReplaceGroups | src/core/engine/version_set.rs:485-522 | one pass over the list replaces every group: outputs go in at each group's oldest position, other tables keep their order |
| CompactionGroups.OneAfterTheOthers | src/core/engine/version_set.rs:485-522 | on a column the pass is the other groups first and then any chosen group in place, whichever is chosen |
| CompactionGroups.PassIsOneByOne | src/core/engine/version_set.rs:485-522 | at every key the pass over disjoint groups reads like replacing the other groups first and any chosen group last |
| CompactionPasses.ColumnPassIff | src/core/engine/mod.rs:498-512 | at one key, for whatever the groups become there: the pass keeps the read iff the group of the newest record, if any, is safe in the column the other groups leave |
| CompactionPasses.StepReadPreservedIff | src/core/engine/mod.rs:498-512 | adding one group to a pass keeps the read of a key iff that group is safe in the column the other groups leave, although its output was made from the original tables |
| CompactionPasses.PassReadPreservedIff | src/core/engine/mod.rs:498-512 | for any disjoint groups compacted in one pass, each stamped at its own times, any tables in memory, any range tombstones then and later, and every key: the read is kept iff no table holds the key, or its newest record is in no group, or the group of that record is safe in the column the other groups leave |
| CompactionPasses.StampsApartReviveOlderValue | src/core/engine/mod.rs:498-506 | a range delete between the stamps of two groups, one around the other, hides the key before the pass, and after it an older value is read |
| StoredTables.LoadedOfGroup | src/core/engine/compaction.rs:123-131 | what compaction iterates of a group is what is in memory of it |
| StoredTables.CompactTables | src/core/engine/compaction.rs:96-209 | the output holds of every key the newest record in memory, if it has a value and is not covered, stamped by the clock anew |
| StoredTables.CompactGroup | src/core/engine/mod.rs:481-525 | the whole compaction of a group keeps exactly the reads of the keys that were safe, under the range tombstones it saw and under any list of them afterwards |
| StoredTables.SizeTieredGroupCanLoseNewestValue | src/core/engine/compaction.rs:236-263 | for any such values, a size class with a larger table between its members makes the read go from the newest value back to the middle one |
| StoredTables.NestedGroupsGoBackToMiddle | src/core/engine/compaction.rs:236-263 | two size classes nested around a larger table make a read go back to the middle table, for any values of these sizes and any outputs |
| StoredTables.RecoveredArePickedTogether | src/core/engine/compaction.rs:226-263 | tables not in memory count as empty, so after a restart the strategy picks the whole list as one group |
| VersionSets.PlanIsDisjoint | src/core/engine/version_set.rs:485-505 | the groups the list makes of requests without a common position start at their least position in range and stay disjoint |
| VersionSets.RequestsReadIff | src/core/engine/mod.rs:481-525 | with requests as given, positions out of range and all, the pass keeps the read of a key iff the groups were safe there |
| VersionSets.RecoveredPickIsLost | src/core/engine/mod.rs:481-525 | with no table in memory, applying what the strategy picked leaves every key unreadable |
| VersionSets.VersionSet.AddTable | src/core/engine/version_set.rs:347-352 | the new table becomes the newest and the generation advances |
| VersionSets.VersionSet.AtomicReplaceGroups | src/core/engine/version_set.rs:485-522 | all groups are replaced in one pass; positions out of range are ignored, and if none is left nothing changes, not even the generation |
| VersionSets.VersionSet.AtomicReplace | src/core/engine/version_set.rs:473-522 | the case of one group: its output goes in at its least position, or nothing changes if no position is in range |
| VersionSets.VersionSet.CompactGroups | src/core/engine/mod.rs:498-512 | a compaction of several disjoint groups under the lock keeps the read of a key, under any range tombstones later, iff the groups were safe there |
| VersionSets.VersionSet.CompactFamily | src/core/engine/mod.rs:481-525 | picking and compacting together: nothing happens with too few tables or no full size class; otherwise the read of a key is kept iff the size classes were safe there, and with no table in memory nothing can be read any more |
| VersionSets.VersionSet.ApplyPlan | src/core/engine/mod.rs:1861-1890 | a background plan of several groups is applied iff the generation is still the planned one, and then to exactly the planned tables; reads are kept iff the plan was discarded or safe in the planned tables |
| TableReads.BuiltIsWellIndexed | src/core/table.rs:47-85 | the key range and filter a table is built with never skip a key it holds |
| TableReads.SearchTable | src/core/engine/version_set.rs:173-240 | one table, with its skips: the value in memory, else what the file says, which knows a tombstone from an empty value |
| TableReads.Search | src/core/engine/version_set.rs:173-240 | the search finds what the newest table holding the key says, in memory or in its file |
| TableReads.SearchRecord | src/core/engine/version_set.rs:108-138 | the same for records with their timestamps, which are asked of the file |
| TableReads.Get | src/core/engine/mod.rs:1225-1235 | the two searches and the choice between them read exactly the newest record of the key, unless a range delete over it is younger: the read the compaction results speak of |
| TableReads.CachedIsRead | src/core/engine/version_set.rs:95-98 | over any run of reads and evictions, whatever is cached under a key is what some column family reads there |
| TableReads.CachedReadsRightIff | src/core/engine/version_set.rs:163-238 | the value cache ignores the column family and takes an empty value for a tombstone: a family reads a key right after every run of reads and evictions iff no family reads something else there and it does not itself read an empty value |
| TableReads.OtherFamilyAnswers | src/core/engine/version_set.rs:163-171 | reading a key in one family makes its value the answer in every other |
| TableReads.EmptyValueIsReadOnce | src/core/engine/version_set.rs:163-171 | an empty value is read the first time and absent from then on |
| RateLimiter.PruneTimestamps | src/api/rate_limiter.rs:50-57 | the loop drops exactly the expired front of the deque |
| RateLimiter.PruneTracks | src/api/rate_limiter.rs:50-57 | a pruned deque holds exactly the accepted requests of the full history that are in the window |
| RateLimiter.RouteTimesAreGlobal | src/api/rate_limiter.rs:154-169 | every timestamp recorded for a route is also in the peer's global history |
| RateLimiter.ForgettingIsSafe | src/api/rate_limiter.rs:66-74 | a peer whose global deque is empty may be dropped: no cap could count anything of it |
| RateLimiter.SweepKeeps | src/api/rate_limiter.rs:66-74 | a sweep keeps every peer's deques in step with its history, those of the dropped peers included |
| RateLimiter.RecordKeeps | src/api/rate_limiter.rs:154-169 | recording an accepted request keeps the deques in step with the longer history |
| RateLimiter.CapsSeeEverything | src/api/rate_limiter.rs:131-137 | wherever a cap applies, every accepted request it counts was tracked |
| RateLimiter.RateLimiterState.TouchedTrack | src/api/rate_limiter.rs:139-148 | whether or not its shard was swept, the touched peer's deque lengths are the counts in the window |
| RateLimiter.RateLimiterState.IsRateLimited | src/api/rate_limiter.rs:125-171 | on every run, the sharded and lazily swept limiter rejects exactly when a limiter keeping the full history does |
| RateLimiter.RateLimiterState.SweepShard | src/api/rate_limiter.rs:66-74 | a sweep leaves exactly the peers with requests in the window, with exact counts |
| RateLimiter.RateLimiterState.GetState | src/api/rate_limiter.rs:180-202 | the summary lists exactly the peers with tracked requests in the window, with exact counts per route |
| RateLimiter.NoWindowExceedsCap | src/api/rate_limiter.rs:125-171 | in no half-open window of the run does a peer get more requests through than the global or a route's cap |
| Crdt.CrdtEngine.Merge | src/infra/crdt.rs:45-54 | the existing entry stays unless the new one is strictly newer |
| Crdt.MergedIsNewest | src/infra/crdt.rs:45-54 | after any sequence of merges each key holds one of its newest writes |
| Crdt.OrderIrrelevantWhenNewestAgree | src/infra/crdt.rs:45-54 | if the newest writes to every key agree, any order and repetition of the same writes gives the same state |
| Crdt.OrderMattersWhenNewestDisagree | src/infra/crdt.rs:45-54 | if two newest writes to a key disagree, two orders of exactly the same writes give different states |
| Crdt.GCounter.Increment | src/infra/crdt.rs:125-128 | one slot grows, saturating; the others stay |
| Crdt.GCounter.Value | src/infra/crdt.rs:131-133 | the sum of the slots, wrapping at 64 bits |
| Crdt.GCounter.Merge | src/infra/crdt.rs:136-141 | the loop computes the slot-wise maximum |
| Crdt.JoinLaws | src/infra/crdt.rs:136-141 | merge is commutative, associative, idempotent and absorbs a repeated snapshot |
| Crdt.PNCounter.Value | src/infra/crdt.rs:183-185 | the 64-bit signed difference of the wrapped totals, which is the true difference iff that is a 64-bit signed number |
| Crdt.WrappedDifference | src/infra/crdt.rs:183-185 | it is the true difference iff that is a 64-bit signed number, however large the totals are |
| Sums.SumTakesOut | src/infra/crdt.rs:131-133 | summing over a map does not depend on the order of visits |
| Gossip.InvariantStep | src/infra/crdt.rs:116-141 | one increment, snapshot or merge keeps every slot at or behind its owner |
| Gossip.InvariantAlways | src/infra/crdt.rs:116-141 | on every run no slot anywhere is ahead of its owner's, and owners hold what they really added, up to saturation |
| Gossip.LearntStaysKnown | src/infra/crdt.rs:136-141 | once increments stop, an owner's final count learnt through any snapshot is never lost |
| Gossip.ConvergedValue | src/infra/crdt.rs:131-133 | a replica that knows every count reports the true total iff that total fits 64 bits |
| Gossip.CountersConverge | src/infra/crdt.rs:116-141 | run anything, stop incrementing, and let every replica merge every final count: all report the true total, if it fits |
| PnGossip.HalfOfRun | src/infra/crdt.rs:158-192 | each half of a run of positive-negative counters, with increments, decrements, snapshots and merges of pairs, is a run of grow-only counters |
| PnGossip.PnCountersConverge | src/infra/crdt.rs:158-192 | run anything, stop counting, let every replica merge every final count: below saturation all report increments minus decrements iff that is a 64-bit signed number |
| Sync.SyncManager.Broadcast | src/api/sync.rs:94-106 | every open client gets the change, closed ones are forgotten |
| Sync.SyncManager.ApplyLocked | src/api/sync.rs:118-134 | reserved keys are refused, stale changes ignored, a failed write changes nothing, otherwise storage and state take the change together |
| Sync.SyncManager.ApplyChange | src/api/sync.rs:109-138 | only an accepted change is broadcast |
| Sync.InvariantStep | src/api/sync.rs:82-138 | one submission, broadcast, registration, removal or delivery keeps the protocol invariant |
| Sync.InvariantAlways | src/api/sync.rs:109-138 | on every interleaving storage equals the server's state and accepted timestamps strictly increase per key |
| Sync.ClientsNeverAhead | src/api/sync.rs:94-138 | a client that merges broadcasts in any order never holds a newer entry than the server, and the same one on a tie |
| Sync.SyncConverges | src/api/sync.rs:82-138 | once nothing is in flight to a client it agrees with the server on every key accepted since it registered |
| Sync.CatchUpIff | src/api/sync.rs:141-153 | merging the changes since a timestamp brings a client level at a key iff the server's entry is later than it or the client had it already |
| Sync.EarlierChangeIsNotResent | src/api/sync.rs:141-153 | a client that acknowledged 5 does not get an entry stamped 3 that reached the server later |
| MemoryLimiter.SafeStep | src/infra/memory_limiter.rs:41-76 | one atomic operation keeps the limit, the justification of refusals and the peak's lag |
| MemoryLimiter.SafeAlways | src/infra/memory_limiter.rs:41-76 | on every interleaving, with any request sizes, usage stays within the limit and every refusal was right about the usage its thread loaded |
| MemoryLimiter.HighestIsReached | src/infra/memory_limiter.rs:48-56 | the recorded maximum is the usage of some state of the run and no state exceeds it |
| MemoryLimiter.PeakIsHighest | src/infra/memory_limiter.rs:53-54 | with no thread between its swap and its peak update, the peak is the largest usage of the run |
| MemoryLimiter.ConservedStep | src/infra/memory_limiter.rs:41-76 | one atomic operation conserves usage against bytes granted, held and given back |
| MemoryLimiter.BudgetConserved | src/infra/memory_limiter.rs:41-76 | on every interleaving without a request that could wrap, usage is bytes granted minus bytes released, and releases never saturate |
| MemoryLimiter.OversizedRequestBreaksBudget | src/infra/memory_limiter.rs:43-47 | the size condition is exact: every request that could wrap is granted on a full budget and usage falls below the bytes in use |
| BlobKeys.DecimalRoundTrip | src/infra/blob_store.rs:99 | decimal digits of a chunk index determine it |
| BlobKeys.SuffixDecides | src/infra/blob_store.rs:99 | the part after the last colon is the index, whatever colons the name has |
| BlobKeys.ChunkKeysInjective | src/infra/blob_store.rs:99 | chunk keys of different (name, index) pairs differ |
| BlobKeys.MetaKeysInjective | src/infra/blob_store.rs:109 | metadata keys of different names differ |
| BlobKeys.MetaAndChunkKeysDisjoint | src/infra/blob_store.rs:13-15 | no metadata key is a chunk key |
| BlobKeys.MetaRoundTrip | src/infra/blob_store.rs:104-110 | decoding the encoded metadata gives it back |
| BlobStore.RetrievableIff | src/infra/blob_store.rs:89-93 | a stored value comes back whole iff its number of chunks fits the 32-bit count |
| BlobStore.HugeBlobComesBackEmpty | src/infra/blob_store.rs:89-101 | in chunks of one byte, every blob of 2^32 bytes is stored without error and comes back empty |
| BlobStore.JoinedChunks | src/infra/blob_store.rs:131-135 | concatenating the chunks gives the value cut to them |
| BlobStore.StoredIsFetched | src/infra/blob_store.rs:95-110 | with the chunks written, writing the metadata makes the value fetchable |
| BlobStore.OthersUntouched | src/infra/blob_store.rs:82-156 | a store or delete under one name is invisible under every other name |
| BlobStore.BlobStore.Store | src/infra/blob_store.rs:82-113 | the store, seen as a map from name to bytes, changes at this name only, to what is retrievable of the value |
| BlobStore.BlobStore.Retrieve | src/infra/blob_store.rs:118-138 | the last stored bytes of the name or nothing; chunks left over from longer versions never surface |
| BlobStore.BlobStore.Delete | src/infra/blob_store.rs:141-156 | the name is gone from the map and no other name changes |
| Successor.CarryLoop | src/core/engine/mod.rs:2348-2355 | the in-place reverse loop adds one with carry, or turns every byte to zero when all were 0xFF |
| Successor.PlusOneIsGreater | src/core/engine/mod.rs:2348-2355 | plus one with carry is above the key in byte order |
| Successor.BumpedByteBoundsPrefix | src/core/engine/mod.rs:2341-2360 | raising the last byte bounds exactly the keys with the prefix |
| Successor.PrefixEndCorrectIff | src/core/engine/mod.rs:2341-2360 | on arbitrary bytes, the range from a prefix to its computed end holds exactly the keys with that prefix iff the prefix is empty or does not end in 0xFF |
| Utf8.Utf8HasNoHighByte | src/core/engine/mod.rs:2341-2346 | no byte of a string is above 0xF4 |
| Successor.StringPrefixIsBounded | src/core/engine/mod.rs:2341-2360 | every string prefix is bounded exactly |
| Bytes.ZeroExtensionIsSuccessor | src/api/keyspace.rs:53-56 | appending a zero byte gives the least key above |
| Keyspace.NextPageRange | src/api/keyspace.rs:53-67 | restarting above the last row leaves exactly the rest of the range: no row is skipped or repeated |
| Keyspace.Collect | src/api/keyspace.rs:36-71 | the page loop terminates and returns the first `limit` wanted rows among the first `budget` of the range, with the clamped limit |
| Keyspace.Scan | src/api/keyspace.rs:17-24 | a scan returns the public rows of the range up to the limit; the budget never cuts it short |
| Keyspace.ScanMatching | src/api/keyspace.rs:26-34 | with at most 100 results among the first 10000 rows |
| Keyspace.Prefix | src/api/keyspace.rs:73-97 | a page is the next rows of the listing above the cursor, and a cursor is given iff more follow |
| Keyspace.ListingIsComplete | src/api/keyspace.rs:73-97 | the listing of a string prefix holds each public key with the prefix, once and in order |
| Keyspace.FollowCursors | src/api/keyspace.rs:73-97 | whenever a client that follows cursors stops, its pages are those of the request by request run, each within the limit |
| Keyspace.RemainingIsSuffix | src/api/keyspace.rs:79-86 | what a cursor leaves is the listing from just above the cursor on |
| Keyspace.CursorResumesIff | src/api/keyspace.rs:79-95 | for any conversion of the last key to a cursor, the next page goes on with the next row iff the cursor is at or above that key and below the next one |
| Keyspace.FollowCompleteIff | src/api/keyspace.rs:73-97 | for any conversion, the client stops having seen each listed row once and in order iff every cursor it is given does so |
| Keyspace.StringKeysAreListed | src/api/keyspace.rs:73-97 | with UTF-8 keys the client stops having seen each public key with the prefix exactly once, in order |
| Keyspace.LossyCursorSkips | src/api/keyspace.rs:90-92 | keys that are not UTF-8 can be skipped: the cursor for the key 0x80 lies above the key 0x81 |
| Keyspace.ZeroLimitSeesNothing | src/api/keyspace.rs:79-95 | with a limit of zero the client gets one empty page and no cursor |
| BulkIo.KeyAfter | src/infra/bulk_io.rs:70-82 | plus one with carry, or the zeros and one more when every byte was 0xFF |
| BulkIo.PlusOneIsPlusOne | src/infra/bulk_io.rs:70-82 | on keys of one width the carry is plus one in big-endian base 256 |
| BulkIo.ByteOrderIsNumericOrder | src/infra/bulk_io.rs:65-69 | on keys of one width byte order is numeric order |
| BulkIo.BoundaryContinuesIff | src/infra/bulk_io.rs:107-117 | the next page continues with exactly the next row iff the last key does not wrap and no row lies in the gap jumped over |
| BulkIo.ForEachKv | src/infra/bulk_io.rs:88-121 | whenever the loop halts, it has given the callback exactly the rows of the page by page run over the whole store, up to the one the callback stops at |
| BulkIo.ExportCompleteIff | src/infra/bulk_io.rs:88-121 | the loop halts having visited each row once and in order iff no page boundary ends in a key that wraps or skips a row |
| Paging.CompleteIff | src/infra/bulk_io.rs:88-121 | any reader of pages stops having read each row once and in order iff it resumes, after every full page, where the page ended |
| BulkIo.FixedWidthExportIff | src/infra/bulk_io.rs:88-121 | with keys of one width the only failure is a full last page that ends in the all-0xFF key |
| BulkIo.WrappedExportNeverHalts | src/infra/bulk_io.rs:107-117 | if the last page is full and ends in an all-0xFF key, no row lies below the key it restarts from and no other page boundary is bad, the loop never halts |
| BulkIo.WrappedPageHaltsIff | src/infra/bulk_io.rs:107-117 | a single full page that ends in an all-0xFF key: the loop halts iff a row lies below the key it restarts from, and then the rows from there on have been visited twice |
| BulkIo.MixedWidthExportSkips | src/infra/bulk_io.rs:107-117 | at every page size, keys that extend each other make the loop halt having skipped a row |
| Transactions.StagedIsLastChange | src/core/engine/transaction.rs:77-115 | the write buffer holds, per key, what the last change to it said |
| Transactions.NothingElseStaged | src/core/engine/transaction.rs:77-115 | and no key that was not changed |
| Transactions.TransactionManager.Prune | src/api/transactions.rs:104-106 | exactly the entries whose lifetime is over are dropped |
| Transactions.TransactionManager.Begin | src/api/transactions.rs:108-141 | refused for capacity iff the limits are met after pruning; otherwise the first free identifier is opened and none overwritten; identifiers fail only on an entropy error or eight collisions |
| Transactions.TransactionManager.WithTransaction | src/api/transactions.rs:143-158 | the caller's changes, any number of them, are staged in order iff the caller owns an unexpired transaction of that id |
| Transactions.TransactionManager.Take | src/api/transactions.rs:160-177 | the transaction is removed and returned iff the caller owns it unexpired |
| Transactions.OpeningStaysBounded | src/api/transactions.rs:112-121 | opening below both limits keeps the total and every owner within them |
| Transactions.PruneKeepsMatch | src/api/transactions.rs:104-106 | pruning loses no unexpired transaction |
| Transactions.BeginKeepsMatch | src/api/transactions.rs:122-139 | an identifier is begun again only after its transaction was taken or has expired |
| Transactions.ChangeKeepsMatch | src/api/transactions.rs:143-158 | staged changes are recorded in the open transaction and in no other |
| Transactions.TakeKeepsMatch | src/api/transactions.rs:160-177 | a take closes that transaction and no other |
| Transactions.TakenAtMostOnce | src/api/transactions.rs:160-177 | on every run an identifier is taken a second time only if it was begun again in between |
| Transactions.TakenIsWhatWasStaged | src/api/transactions.rs:104-177 | on every run a taken transaction was begun by the same owner less than a lifetime before, and holds exactly the changes made since, in lock order |
| TimeTravel.AtOrBefore | src/infra/time_travel.rs:303-308 | a snapshot at or before the time that none at or before it is newer than, or none iff there is none |
| TimeTravel.LatestOfTies | src/infra/time_travel.rs:303-308 | among equal timestamps the last in the list answers |
| TimeTravel.QueryRangeIff | src/infra/time_travel.rs:170-176 | a range query answers iff a snapshot lies in the range, both ends included, and from the newest at or before its end |
| TimeTravel.AsOfInterval | src/infra/time_travel.rs:160-163 | on an increasing list the answer is the snapshot whose interval holds the time |
| TimeTravel.RetainedAnswersIff | src/infra/time_travel.rs:160-163 | after eviction the chosen snapshot is that of the whole history iff nothing was evicted, the time precedes the history, or it is at or after the oldest retained snapshot |
| TimeTravel.RetainedQueriesIff | src/infra/time_travel.rs:160-163 | the same for every key's answer, with evicted snapshots that were empty as the only other exception |
| TimeTravel.TimeTravelEngine.Capture | src/infra/time_travel.rs:132-153 | memory is the last captures up to the capacity; with a later timestamp and a written file, memory stays a suffix of the history and stays full |
| TimeTravel.TimeTravelEngine.EvictOldest | src/infra/time_travel.rs:147-150 | the loop keeps exactly the last entries up to the capacity |
| TimeTravel.TimeTravelEngine.Clear | src/infra/time_travel.rs:203-205 | memory is empty and the files still hold the history |
| TimeTravel.TimeTravelEngine.LoadFiles | src/infra/time_travel.rs:269-285 | every readable snapshot with a new timestamp is added; an unreadable file stops the loop with what was added before it |
| TimeTravel.TimeTravelEngine.RestoreSnapshots | src/infra/time_travel.rs:265-294 | after an increasing, persisted history, from any cleared or partial memory, a restore brings back exactly the last captures up to the capacity |
| TimeTravel.RestoreOverSuffix | src/infra/time_travel.rs:265-294 | loading the history over any suffix of it, sorting and evicting gives its last captures, so repeating a restore changes nothing |
| TimeTravel.DirectoryIsHistory | src/infra/time_travel.rs:230-257 | with increasing timestamps the files, listed in any order and sorted, are the history |
| TimeTravel.RestartRebuildsIff | src/infra/time_travel.rs:265-294 | for any clock: a restart rebuilds the last captures iff these are in order and no earlier capture has a timestamp of its own among theirs |
| TimeTravel.StalledClockIsNotRebuilt | src/infra/time_travel.rs:265-294 | two captures under a clock that did not advance are not rebuilt, whatever the capacity |
| DataSync.Diff | src/infra/data_sync.rs:86-140 | exactly one entry for each key on which the sides differ, describing both sides |
| DataSync.DiffEmptyIff | src/infra/data_sync.rs:86-140 | the diff is empty iff the sides are equal |
| DataSync.ResolveConflicts | src/infra/data_sync.rs:171-219 | the loop collects each entry's resolution, in order |
| DataSync.AppliedAt | src/infra/data_sync.rs:171-219 | applied to any map, the resolved entries set each differing key to the side the direction picks and leave every other key alone |
| DataSync.TwoWayConvergesIff | src/infra/data_sync.rs:199-215 | applied to both sides, a two-way sync makes them equal iff no key of the local side alone has timestamp 0 |
| DataSync.UnstampedKeyIsNotSent | src/infra/data_sync.rs:199-215 | a key only the local side has, stamped 0, is in the diff and in no resolved entry |
| DataSync.TwoWayKeepsNewest | src/infra/data_sync.rs:199-215 | at every other key both sides then hold the newest version, the remote one on ties |
| DataSync.SecondDiffEmptyIff | src/infra/data_sync.rs:86-215 | a second diff is empty under the same condition |
| DataSync.PullMirrorsIff | src/infra/data_sync.rs:181-189 | a pull makes the local side the remote one iff the local side has no key of its own |
| DataSync.PushMirrorsIff | src/infra/data_sync.rs:190-198 | a push makes the remote side the local one iff the remote side has no key of its own |
| MemTable.TotalInsert | src/core/memtable.rs:46-55 | replacing a record replaces its share of the total size |
| MemTable.SizeStaysExactIff | src/core/memtable.rs:46-55 | an exact size field stays exact iff the new total fits the word |
| MemTable.MemTable.Insert | src/core/memtable.rs:46-55 | over any run, until the total exceeds the word, the size field is the sum of the estimated sizes of the current records |
| MemTable.MemTable.Clear | src/core/memtable.rs:150-156 | everything is empty, the size is exact again, and the number of records dropped is returned |
| MemTable.SortRowsKeeps | src/core/memtable.rs:84 | sorting the collected entries gives a strictly sorted sequence with the same content |
| MemTable.MemTable.Iter | src/core/memtable.rs:77-86 | the iterator reads the strictly sorted content |
| MemTable.MemTable.IterFrom | src/core/memtable.rs:101-111 | the iterator reads the suffix of the sorted content from the start key on |
| RangeTombstones.MaxCovering | src/core/memtable.rs:142-148 | the largest timestamp among the tombstones covering the key, none iff none covers it |
| MemTable.LatestIsStored | src/core/memtable.rs:46-55 | the record or tombstone of the last operation on a key is stored, whatever the timestamps |
| MemTable.ReadIsLatestIff | src/core/engine/mod.rs:1180-1200 | on every log, a read returns what the last operation left iff the timestamps of the last write and the range deletes do not contradict the order of the log |
| MemTable.LayersReadLatestIff | src/core/engine/mod.rs:1144-1200 | the same for every cutting of the log into frozen memtables and the active one |
| MemTable.OrderedMisreadIff | src/core/engine/mod.rs:1180-1200 | where timestamps do not fall along the log, the only wrong read is of a live record with the timestamp of a later range delete |
| MemTable.DeleteAfterWrite | src/core/engine/mod.rs:1183-1186 | a range delete after a write hides it iff its timestamp is strictly later |
| MemTable.DeleteBeforeWrite | src/core/engine/mod.rs:1183-1186 | a range delete before a write hides it as well iff its timestamp is later |

## Left out

- HTTP handlers, authentication, WebSocket framing, JSON of requests, CLI, TUI, replication, backup, metrics: input and output around the modelled parts.
- Write-ahead log, SSTable blocks, compression, encryption, block cache, quarantine: a table's file holds its records and reads back as written.
- ORSet, quotas, retry, idempotency cache, access control, vector index: they would only add easy members.
- VersionSets.VersionSet.CompactFamily: one column family and the size-tiered strategy; which tables the leveled strategies pick is not modelled, and VersionSets.VersionSet.CompactGroups takes any disjoint groups.
- StoredTables.CompactTables: output files and the TTL side entries of old tables are not modelled. That rows in memory, if any, are those of the file is how the four places that make tables leave them (src/core/engine/mod.rs:1625-1642, src/core/engine/compaction.rs:195-196, src/core/table.rs:47-110).
- VersionedCompaction.LateTombstoneIff: compares timestamps as they come; that a range delete draws its timestamp before taking the lock and does not make a compaction plan stale is not itself a step of the model.
- TableReads.Search: expired records and files that fail to read are not modelled. The filter is any function without false negatives, and one that is always true where a table has none.
- TableReads.CachedReadsRightIff: the table lists stay as they are during the run; adding or replacing tables empties the cache and starts a new one.
- Merge.MergeIterator.Peek: the binary heap is a map from source index to cursor with a search for its least entry, so heap layout is not modelled.
- MemTable.LayersReadLatestIff: the flushed tables under the memtables are not modelled, nor the flush, which drops expired records; the records of the write-ahead log are not modelled.
- MemTable.MemTable.Insert: the column family tag of a record is left out, and its own estimated size is taken to fit the word.
- RateLimiter.RateLimiterState.IsRateLimited: route limits are fixed for the run; changing them at run time is not modelled.
- Sync.SyncConverges: authorization of individual messages and UTF-8 conversion of keys and values are not modelled.
- MemoryLimiter.BudgetConserved: `reset` is not a step, and compare-exchange is sequentially consistent.
- BlobKeys.MetaRoundTrip: the metadata JSON is modelled as the exact bytes the encoder writes; other JSON spellings of it are taken as undecodable.
- BlobStore.BlobStore.Store: failures of the underlying engine, which leave a partly written blob, are not modelled.
- Keyspace.Collect: the engine's range scan is the sorted visible rows of a fixed store; concurrent writes between pages and scan errors are not modelled.
- Keyspace.FollowCursors: the run may be one that never stops; then there is no result to speak of, and the method is asked for runs that stop only (Keyspace.FollowCompleteIff says which runs stop with everything). The lossy conversion is a parameter.
- BulkIo.ForEachKv: runs that never stop (BulkIo.WrappedExportNeverHalts) have no result; the method is asked for runs that stop only. Scan errors are not modelled.
- Transactions.TransactionManager.Take: the storage work of commit and rollback after the take is not modelled.
- Transactions.TransactionManager.WithTransaction: the value the closure returns is left out, and a closure is what it stages.
- TimeTravel.TimeTravelEngine.RestoreSnapshots: the JSON and hex form of a snapshot file is not modelled, and `remove_snapshot`, which leaves the file behind, is not a step.
- DataSync.TwoWayConvergesIff: the resolved entries are applied by the caller; `sync` itself only counts them.
- PnGossip.PnCountersConverge: states nothing once a slot has saturated, where the code loses counts by design.
- `MemTable::should_flush`: its comment and its code disagree for the limit 0, and nothing is stated about it.
