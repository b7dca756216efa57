# Verified model of the shared-memory table engine

This project models the core of an embedded, shared-memory table engine in Dafny and proves what that core
promises. Code that changes state in place is a class or a method here, proved against a value-level
specification; what the engine promises is then proved about that specification, over every input, every
run and every crash point. Mutations are taken to run under the exclusive root lock.

## The parts

- **Write-ahead log.** `WalFormat` (records as bytes), `WalImage` (the ring as a value: area, four header fields, what
  one append, one reclaim step and one rewind do), `WalScan` (both scans, with every branch for torn bytes, and what
  they deliver of damaged areas), `WalBatch` (when a batch fits), `WalRing` (the ring object), `WalProtocol` (writes,
  batches, flushes, reclaims, failures, crashes and recovery as a state machine), `WalEngine` (the engine's write path
  and recovery; each method is a run of that machine, and may be stopped before its first record, when room has been
  made for it, or behind any record).
- **B+ tree.** `BTreeModel` (nodes by offset, with local invariants that give the whole tree), `BTreeDepth`
  (the height bound), `BTree` (the tree object and its cursor), `OrderedKey` (memcmp order and the integer
  key encoding).
- **Allocators.** `VarPoolModel`, `VarPoolSteps`, `VarPool` (boundary-tag pool over an array of words),
  `SlabModel`, `Slab` (size classes over an array of words), `Sums`.
- **Row store.** `RowImage` (versions, records, tombstones, primary index, and each single write of an
  operation), `Recovery` (histories, replay, when it succeeds and what index it leaves), `RecoveredTable` (what it
  leaves of the table after a crash at any write), `RecoveryCases`, `RecoveryExamples`, `SecIndex` (secondary keys),
  `RowBatch` (staging, applying, releasing), `BatchRows` (what a batch makes of the rows by key), `BatchHistory`
  (a batch is a history), `TableStore` (the store object).
- **Subscription.** `SubscriptionModel` (the protocol over a growing log), `Subscription` (engine cursor,
  server session, client pump).
- **SQL.** `SqlSyntax`, `SqlRoundTrip`, `SqlParser` (WHERE parser and string literals), `SqlGrammar` (the grammar
  and its derivations, apart from the parser), `SqlFilter`, `SqlSort`, `SqlExec` (evaluation, key-range pushdown,
  paging, ORDER BY, LIMIT), `SqlMeaning` (what literals, comparisons, conditions and orders mean, apart from the
  evaluator).
- **Group commit.** `GroupCommit` (leaders, followers, background flusher and direct flushes interleaved).
- **Wire.** `WireFormat` (layouts), `Wire` (writer and sticky-failure reader), `WireCodec`, `WireBlocks`
  (table definitions, rows, column blocks, result headers).
- `LittleEndian`, `Arith`, `Errors` are shared.

## Where the code falls short of what one would expect

Each of these is proved: a concrete input, and for all inputs the exact condition of the good case.

- The space test of an empty ring admits every record up to the area's size, but the tail does not move when
  such a record wraps. `WalImage.AppendSoundIff`: the append is sound exactly when the record fits before the
  tail or behind the head; `WalImage.OverlapExample` overlaps, and `WalScan.OverlapLoses` shows that the next
  scan then delivers nothing and reports nothing. Batches: `WalBatch.LandsIffSplits`.
- Replaying an update of a key that the index already holds returns before the version is compared, and a key
  that the index has in another slot makes replay report corruption. All operations of a batch are staged on the
  rows before it, so a batch may bring one slot to one version several times, and may update a key that it has
  deleted. `RecoveredTable.RecoveryConverges` takes every history of applied operations, such batches included, a
  crash at any single write, and a replay from any record up to the first unapplied one. Replay succeeds exactly
  when no key that the crash left in the index is first met in another slot and no key moves from an insert or
  update to another slot. It then restores the table exactly when two conditions on the crash image and the log
  hold. No key is revived: none has for its last record an update that its batch logged behind its delete. And no
  slot's last record is lost: not an update, nor an insert whose key replay meets in the index, while the slot
  shows another row; nor a delete whose version the slot shows without a tombstone.
  The inputs: `RecoveryExamples.MovedKeyExample`, `RecoveryExamples.ReviveCorruptsExample` (everything applied, every
  indexed key in its slot, and replay reports corruption), `RecoveryExamples.RevivedKeyExample` (the key comes back
  on a slot with a tombstone), `RecoveryExamples.LostUpdateExample`, `RecoveryExamples.SameVersionExample`.
  Where versions grow from record to record, `RecoveryCases.PlainRecovers` has the conditions that remain: success
  when no indexed key is first met elsewhere, the whole table when no slot's last unapplied record is an update.
- An insertion that the primary index refuses is withdrawn in two writes, and stays in the log. A crash between the
  two makes replay give its key to a blank row (`RecoveryExamples.RefusedInsert`). A batch that inserts one key
  twice is refused in the middle of its application, and its log is refused by every replay
  (`RecoveryExamples.MoveCorrupts`).
- A batch is checked against the rows before it. It may bring a value of a unique column twice
  (`TableStore.BatchUniqueExample`), and an update behind a delete of the same key succeeds without effect but
  leaves an entry in the secondary indexes (`TableStore.DeleteUpdateExample`). `TableStore.Store.ExecuteBatch`:
  after a success the unique indexes are unique exactly when the batch's own standing rows are distinct, and the
  secondary indexes are exact exactly when no such update brings a value; both are read off the requests.
- A SELECT without WHERE and ORDER BY stops reading at limit + offset or at the row budget.
  `SqlExec.EarlyStopExact` gives exactly when that is the slice of the whole table. `SqlExec.EarlyStopCutsExample`
  is cut short silently; `SqlExec.LimitZeroExample` asks for nothing and fails.
- The comment at src/sql/parser.cpp:610 says that AND binds looser than OR; the code binds AND tighter
  (`SqlRoundTrip.AndBindsTighter`), and the model follows the code. NOT is two-valued: a comparison with NULL is
  false before NOT sees it (`SqlFilter.NotNullExample`).

## Model

| member | source | states |
|---|---|---|
| WalFormat.FrameFields | src/storage/wal_ring.hpp:13-29 | every field of a record laid down as bytes is read back, and its checksum holds, for any checksum function |
| WalImage.AppendKeeps | src/storage/wal_ring.cpp:156-199 | an admitted append adds exactly its record, under the next number, and damages no retained one, through pads, bare wraps and exact fill |
| WalImage.AppendSoundIff | src/storage/wal_ring.cpp:46-55 | an append that the space test admits leaves the ring holding old records plus the new one if and only if the empty-ring size condition holds |
| WalImage.OverlapExample | src/storage/wal_ring.cpp:49-50 | a 3500-byte record in an empty 4096-byte ring at position 3000 is admitted and destroys the accounting |
| WalScan.OverlapLoses | src/storage/wal_ring.cpp:277-355 | after such an append the scan starts in the middle of the record, takes it for torn, delivers nothing and reports no damage |
| WalImage.SkipGapKeeps | src/storage/wal_ring.cpp:225-230 | skipping a pad or bare wrap at the tail keeps every record and frees exactly its bytes |
| WalImage.DropKeeps | src/storage/wal_ring.cpp:231-243 | dropping the oldest record keeps all the others |
| WalImage.RewindKeeps | src/storage/wal_ring.cpp:260-269 | moving the head back behind record k leaves exactly the first k records |
| WalScan.ScanExact | src/storage/wal_ring.cpp:277-355 | the full scan returns exactly the retained sequence and reports no damage |
| WalScan.RangeExact | src/storage/wal_ring.cpp:357-439 | the incremental scan delivers the wanted records in order and stops only for the budget; a start before the window is an overflow |
| WalScan.DeliverWithin | src/storage/wal_ring.cpp:357-439 | what is delivered is the window from its start, consecutive, inside the asked interval |
| WalScan.ScanIntact | src/storage/wal_ring.cpp:277-355 | of any bytes at all: what the scan delivers are whole records whose checksums hold, numbered without a gap from the tail on |
| WalScan.StepJudges | src/storage/wal_ring.cpp:293-343 | of any bytes: pads are skipped, a record is delivered exactly if it is intact and has the number that is due, and of the rest what fails its checksum is the torn end and what passes it is damage |
| WalScan.DamageEnds | src/storage/wal_ring.cpp:277-355 | when in the place of record k there is no intact record of its number, nor a pad, whatever follows, the scan delivers exactly the records before it, and complains only if the checksum of what stands there holds |
| WalBatch.LandsIffSplits | src/storage/wal_ring.cpp:46-55 | a list of records can all be appended soundly if and only if it splits at the end of the area into two parts that fit |
| WalBatch.ReservationSuffices | src/engine.cpp:312-322 | room for the sum is room for every record of the batch, with a pad and a wrap inside it or not |
| WalBatch.LandedRetains | src/engine.cpp:1364-1389 | a landed batch leaves the retained records followed by the batch, each once and in order |
| WalRing.Ring.WriteTailPadAndWrap | src/storage/wal_ring.cpp:132-154 | writes the pad only where a record would fit, and wraps |
| WalRing.Ring.Append | src/storage/wal_ring.cpp:156-199 | the three refusals, the whole new state, and soundness if and only if the empty-ring condition holds |
| WalRing.Ring.AdvanceTail | src/storage/wal_ring.cpp:225-243 | one turn of the reclaim loop on any bytes: what cannot stand at the tail is reported and left, a record that is not safe stops it, and otherwise it moves past exactly one gap, pad or record |
| WalRing.Ring.ReclaimForRecord | src/storage/wal_ring.cpp:211-246 | drops a prefix, none of it past the safe number, no longer than needed, and says exactly when it fails; on a sound ring it never reports corruption |
| WalRing.Ring.RewindHeadAfterReplay | src/storage/wal_ring.cpp:260-269 | refuses positions outside the window, otherwise leaves the first records |
| WalRing.Ring.RewindHeadToTail | src/storage/wal_ring.cpp:271-275 | leaves an empty, sound ring |
| WalRing.Ring.DropAllRetained | src/storage/wal_ring.cpp:206-209 | leaves an empty, sound ring under the same next number |
| WalRing.Ring.ScanValid | src/storage/wal_ring.cpp:277-355 | the loop returns what the scan function says of any bytes |
| WalRing.Ring.ScanRange | src/storage/wal_ring.cpp:357-439 | the loop returns what the range function says of any bytes, and the last number delivered |
| WalProtocol.AppliedInOrder | src/storage/wal_ring.cpp:480-562 | recovery hands over exactly the rows past the checkpoint, each once, in log order |
| WalProtocol.DropKeepsClosed | src/storage/wal_ring.cpp:211-246 | a reclaim that cuts a finished batch in two neither opens nor nests one for recovery |
| WalProtocol.StepKeeps | src/engine.cpp:272-395 | every step of the protocol keeps the invariant: writes, batches, flushes, reclaims, failures, crashes, and recovery's rewind and publication as two steps |
| WalProtocol.RunSafe | src/engine.cpp:1359-1416 | over every run, each retained committed record is a lone one or in a batch whose COMMIT was appended, and tail <= checkpoint + 1, checkpoint <= committed < head |
| WalProtocol.RunLogs | src/storage/wal_ring.cpp:564-606 | over every run the log of all records ever committed only grows: no crash, rewind or reclaim changes a committed record |
| WalProtocol.AbandonedNeverDelivered | src/storage/wal_ring.cpp:556-583 | no record of a batch that failed or crashed before its COMMIT is ever retained below committed_seq, although its numbers are given out again |
| WalProtocol.RecoverDropsBatch | src/storage/wal_ring.cpp:519-562 | recovery after a crash inside a batch drops exactly that batch and hands over the rest past the checkpoint in order |
| WalProtocol.RecoverAgain | src/storage/wal_ring.cpp:574-606 | a recovery that crashed between rewind and publication hands over the same rows when it runs again |
| WalEngine.Engine.EnsureRingSpace | src/engine.cpp:272-298 | makes room by flush and reclaim, never inside a batch, and is a run of the protocol; succeeds at once where there is room, and fails only for a failed flush or when what the retained records may not give up leaves no room |
| WalEngine.Engine.WalAppend | src/engine.cpp:325-395 | one logged record; what is retained is a suffix of the old records and the new one |
| WalEngine.Engine.ReserveBatchWal | src/engine.cpp:312-322 | a batch larger than the area is refused without any change; success gives room for the sum |
| WalEngine.Engine.LogBatch | src/engine.cpp:1369-1389 | after a reservation no record of the batch is refused or overlaps unless the ring was empty and too small on both sides |
| WalEngine.Engine.ExecuteBatch | src/engine.cpp:1359-1416 | a batch, stopped when room has been made, behind any of its records or not at all, is a run of the protocol; every answer has its exact cause: where the batch fits it is Published when the rows were applied and NotApplied, poisoned and uncommitted when not; published, it stands whole behind a suffix of the old records |
| WalEngine.Engine.LogAndEnd | src/engine.cpp:1369-1408 | the same from the reservation on: log, apply, publish or poison |
| WalEngine.Engine.WriteOne | src/engine.cpp:703-761 | the same for a single write, stopped before anything, between the reclaim and the append, behind the append, or not at all |
| WalEngine.Engine.ReplayFilter | src/storage/wal_ring.cpp:507-562 | the recovery loop hands over finished batches only and ends the valid prefix in front of an unfinished one |
| WalEngine.Engine.ReplayWal | src/storage/wal_ring.cpp:445-609 | recovery of any crashed engine, stopped before or behind its rewind or not at all, is a run of the protocol; finished, it is the protocol's recovery and never lowers committed_seq |
| WalEngine.Engine.FetchCommitted | src/storage/wal_ring.cpp:357-439 | a subscriber gets consecutive committed records, none of an unfinished or abandoned batch, even where numbers were reused; the answer ends at committed_seq or when the budget is spent; falling behind is an overflow |
| OrderedKey.MemcmpIsNumeric | src/infra/shared_btree.hpp:334-337 | comparing keys bytewise is comparing the numbers they spell |
| OrderedKey.SpelledInjective | src/infra/shared_btree.hpp:334-337 | distinct keys of one length spell distinct numbers, so keys may be taken as numbers |
| OrderedKey.EncodeOrderedInt64 | src/infra/shared_btree.hpp:20-26 | eight bytes that spell the value plus 2^63, decoded back to it |
| OrderedKey.DecodeOrderedInt64 | src/infra/shared_btree.hpp:28-32 | reads what the encoding spells |
| OrderedKey.OrderedInt64Order | src/infra/shared_btree.hpp:17-26 | byte order of two encodings is numeric order |
| BTreeModel.SeparatorsSplit | src/infra/shared_btree.hpp:166-227 | every key anywhere below a child left of a separator is smaller, every key to the right is not, despite lazy deletion |
| BTreeModel.SplitHolds | src/infra/shared_btree.hpp:421-459 | a split keeps the tree and the map |
| BTreeModel.GrownHolds | src/infra/shared_btree.hpp:171-179 | a new root above a full one changes no content |
| BTreeModel.InsertHolds | src/infra/shared_btree.hpp:188-197 | a leaf insertion at the lower bound adds exactly its entry |
| BTreeModel.RemoveHolds | src/infra/shared_btree.hpp:212-227 | a leaf removal takes exactly its entry, emptying leaves included |
| BTreeDepth.DepthBound | src/infra/shared_btree.hpp:181-187 | a tree of 4096-byte pages in a 64-bit space has at most 53 levels above its leaves, so the depth guard never fires |
| BTree.SharedBTree.LowerBound | src/infra/shared_btree.hpp:360-369 | the first position whose key is not below the target |
| BTree.SharedBTree.StrictUpper | src/infra/shared_btree.hpp:371-381 | the first position whose key is above the target |
| BTree.SharedBTree.Find | src/infra/shared_btree.hpp:104-120 | the map's answer |
| BTree.SharedBTree.SplitChild | src/infra/shared_btree.hpp:421-459 | exactly the split, or nothing when the page is refused |
| BTree.SharedBTree.Insert | src/infra/shared_btree.hpp:166-209 | adds a new key, rejects a present one, and leaves the map unchanged when any page is refused, also behind a new root |
| BTree.SharedBTree.Remove | src/infra/shared_btree.hpp:212-227 | takes exactly the key from the map |
| BTree.SharedBTree.LoadAndCheckHi | src/infra/shared_btree.hpp:462-485 | over exhausted and empty leaves to the least entry ahead, if it is within the bound |
| BTree.SharedBTree.SeekRange | src/infra/shared_btree.hpp:262-280 | stands on the least entry of the interval, for open and closed ends and crossed bounds |
| BTree.SharedBTree.Next | src/infra/shared_btree.hpp:240-250 | moves to the least entry above the current one |
| BTree.SharedBTree.Enumerate | src/infra/shared_btree.hpp:236-280 | driving a cursor lists the interval's entries, each once, ascending |
| BTree.ListingUnique | src/infra/shared_btree.hpp:236-280 | there is only one such listing |
| VarPoolModel.Tiled | src/storage/var_pool.cpp:220-254 | every word of the region lies in exactly one block |
| VarPoolModel.PayloadKeeps | src/storage/var_pool.cpp:100-145 | whatever owners write into live payloads, tags, free list and the other blocks stay as they are |
| VarPoolModel.UnlinkChain | src/storage/var_pool.cpp:79-89 | unlinking takes exactly one entry out of the doubly linked list |
| VarPoolModel.LinkChain | src/storage/var_pool.cpp:91-98 | linking puts exactly one entry in front |
| VarPoolSteps.AllotSplit | src/storage/var_pool.cpp:121-144 | cutting a block and listing the rest keeps tags, list, tiling and coalescing |
| VarPoolSteps.SettleJoined | src/storage/var_pool.cpp:170-185 | merging into a free left neighbour keeps them too |
| VarPool.Pool.Create | src/storage/var_pool.cpp:42-77 | a fresh region is one free block |
| VarPool.Pool.FindBest | src/storage/var_pool.cpp:107-119 | the first of the smallest free blocks that fit, or none fits |
| VarPool.Pool.Allocate | src/storage/var_pool.cpp:100-145 | fails exactly when no free block is big enough and otherwise uses the first of the smallest that fit; the sums stay exact and no other payload changes |
| VarPool.Pool.Deallocate | src/storage/var_pool.cpp:147-191 | frees exactly what is a live payload, with its free neighbours; a free one is rejected without change |
| VarPool.Pool.WalkBlocks | src/storage/var_pool.cpp:220-238 | the block walk on any memory: what it accepts is tiled by blocks whose headers and footers agree, with as many free ones as counted; and it accepts every consistent pool |
| VarPool.Pool.ValidateList | src/storage/var_pool.cpp:240-253 | on any memory: accepts exactly when the list in memory, with its marks and back links, has the counted number of entries; it always ends |
| VarPool.Pool.ValidateWalk | src/storage/var_pool.cpp:220-254 | on any memory: what the self-check accepts is tiled by blocks with as many free ones as the list has entries; it accepts every valid pool |
| VarPool.ReleaseUndoesAllocate | src/storage/var_pool.cpp:100-191 | releasing what was just handed out gives back the very same blocks |
| SlabModel.UserKeeps | src/infra/slab_allocator.cpp:63-99 | whatever owners write into live or permanent cells, headers, free lists and the other cells stay as they are |
| SlabModel.CutKeeps | src/infra/slab_allocator.cpp:81-98 | a new cell is apart from all others and leaves lists, headers and user bytes as they were |
| SlabModel.ReuseKeeps | src/infra/slab_allocator.cpp:70-80 | reusing a list head keeps every list exact and acyclic |
| SlabModel.FreeKeeps | src/infra/slab_allocator.cpp:101-115 | freeing puts exactly the cell in front of its class's list |
| SlabModel.BytesSet | src/infra/slab_allocator.cpp:140-143 | what one cell's change does to the byte account |
| Slab.Allocator.Allocate | src/infra/slab_allocator.cpp:63-99 | the smallest class that fits, from its list or cut from the rest; fails exactly when neither works; a live cell is never handed out |
| Slab.Allocator.Deallocate | src/infra/slab_allocator.cpp:101-115 | frees exactly what is a live cell, so whatever was handed out is taken back; a free or permanent one is rejected without change |
| Slab.Allocator.ReservePermanent | src/infra/slab_allocator.cpp:117-133 | a page-aligned area apart from all cells, or no change |
| RowImage.AfterAll | src/storage/table_store.cpp:714-836 | the last of an operation's single writes completes it, whatever the torn record was |
| Recovery.SucceedsIff | src/storage/table_store.cpp:889-926 | over any image at all and of any log: replay succeeds exactly when no indexed key is first met in another slot and no key moves from an insert or update to another slot |
| Recovery.ReplayEntry | src/storage/table_store.cpp:889-941 | of any log: a key's last record alone decides whether replay leaves it in the index, and in which slot |
| Recovery.IndexFollows | src/storage/table_store.cpp:889-941 | replaying applied and unapplied records over what the crash left gives the history's index if and only if no key's last record is an update behind its delete, which the log and the crash's index tell |
| Recovery.HistoryJoin | src/storage/table_store.cpp:606-712 | histories follow each other when the later one's versions are newer than what its slots have |
| RecoveredTable.StaysFrozen | src/storage/table_store.cpp:896-911 | records no newer than what a slot shows move only index entries |
| RecoveredTable.StaysCaught | src/storage/table_store.cpp:889-911 | a slot caught in an update or delete under a version that its batch has brought it to before is left alone by the earlier records, because replay finds their key in the index |
| RecoveredTable.TracksTo | src/storage/table_store.cpp:875-938 | over any slot that shows nothing newer than its records: replay leaves what the history leaves, as far as anyone can tell, if and only if the slot's last record is not lost, or else replay has a key there that the history has not |
| RecoveredTable.RecoveryConverges | src/storage/table_store.cpp:875-938 | over every history of applied operations, several of one batch on one slot included, a crash at any write and replay from any record up to the first unapplied one: it succeeds if and only if no indexed key is first met elsewhere and no key moves, and then restores the table if and only if no key is revived and no slot's last record is lost |
| RecoveryCases.PlainRecovers | src/storage/table_store.cpp:875-938 | where versions grow from record to record: success if and only if no indexed key is first met elsewhere, and then the whole table if and only if no slot's last unapplied record is an update |
| RecoveryCases.InsertsAndDeletesConverge | src/storage/wal_ring.cpp:480-553 | where versions grow, without updates, and with every key in one slot that other keys may share, replay always succeeds and converges |
| RecoveryExamples.LostUpdateExample | src/storage/table_store.cpp:891-894 | an update logged but not applied is lost |
| RecoveryExamples.MovedKeyExample | src/storage/table_store.cpp:889-894 | a key whose slot was given away and that came back in another makes replay report corruption, with everything applied |
| RecoveryExamples.ReviveCorruptsExample | src/storage/table_store.cpp:889-914 | a batch that updates a key behind its delete makes a later replay report corruption, with everything applied and every indexed key in its slot |
| RecoveryExamples.RevivedKeyExample | src/storage/table_store.cpp:896-914 | replaying such a batch alone leaves the key in the index on a slot with a tombstone |
| RecoveryExamples.SameVersionExample | src/storage/table_store.cpp:928-932 | a crash between a batch's update and its delete of one row: replaying the batch leaves no tombstone |
| RecoveryExamples.MoveCorrupts | src/storage/table_store.cpp:889-894 | over any image: a log in which a key goes from an insert or update to another slot is refused, as that of a batch that inserts a key twice |
| RecoveryExamples.RefusedInsert | src/storage/table_store.cpp:747-753 | over any image: a crash inside the withdrawal of a refused insertion makes replay give its key to a blank row, a crash behind it does no harm |
| SecIndex.SecKeyOrder | src/storage/sec_index.hpp:56-62 | secondary keys order by value code, then by row number, and tell both apart |
| SecIndex.CodeOrder | src/storage/sec_index.cpp:26-38 | every 64-bit integer has a code and nothing else has; codes order and distinguish as the integers do |
| SecIndex.EncodeSecValue | src/storage/sec_index.cpp:26-38 | a value has a code exactly when it is an integer of 64 bits, and the code fits 64 bits |
| SecIndex.FloatOrder | src/storage/sec_index.cpp:39-58 | so do the codes of 64-bit float patterns other than negative zero |
| SecIndex.ExactIsUnique | src/storage/table_store.cpp:1197-1209 | the maintained index equals a full rebuild |
| SecIndex.ExactRows | src/storage/table_store.cpp:1102-1120 | a row has an entry in an exact index exactly when it brings a 64-bit integer |
| SecIndex.RowChanges | src/storage/table_store.cpp:1102-1120 | removing the old entry and adding the new one keeps the index exact |
| SecIndex.ProbeDecides | src/storage/sec_index.cpp:150-159 | the prefix probe finds a conflict exactly when another row has the value |
| SecIndex.LookupLists | src/storage/table_store.cpp:1154-1195 | an equality lookup lists exactly the matching rows, by row number |
| RowBatch.StageReused | src/storage/table_store.cpp:606-653 | reserving a tombstoned slot behind any staged operations keeps all of them applicable |
| RowBatch.ApplyFirst | src/storage/table_store.cpp:714-836 | applying the first staged operation keeps the rest applicable |
| RowBatch.BlankFirst | src/storage/table_store.cpp:747-753 | so does the retreat after a refused index insertion |
| RowBatch.ReleaseLast | src/storage/table_store.cpp:838-871 | releasing the last gives back exactly what staging it reserved |
| RowBatch.Accounting | src/storage/table_store.cpp:1382-1399 | used slots less tombstones are the primary index's size |
| BatchRows.RowAfter | src/engine.cpp:1391-1408 | the row of every key after a batch is the one its standing request brings, or the old one |
| BatchRows.BatchKeepsUnique | src/storage/table_store.cpp:1122-1152 | a unique column stays unique if and only if the batch's standing rows are distinct in it |
| BatchRows.AppliesUnlessRepeat | src/engine.cpp:1391-1408 | a request can be applied behind the ones before it exactly unless it inserts a key again or deletes one again |
| SecIndex.ExactWithout | src/storage/table_store.cpp:796-806 | entries of dead rows leave an index exact if and only if those rows bring no value |
| TableStore.Store.FindFreeSlot | src/storage/table_store.cpp:589-604 | the first tombstone from the hint on that is not yet staged, or there is none |
| TableStore.Store.CheckSecUnique | src/storage/table_store.cpp:1122-1152 | refuses exactly when a unique index holds another row with the value |
| TableStore.Store.TakenIs | src/storage/table_store.cpp:1122-1152 | over exact indexes the check lets a row through exactly when no other key's row has an equal 64-bit integer in a unique column |
| TableStore.Store.RowsUniqueIs | src/storage/table_store.cpp:1122-1152 | the unique indexes are unique exactly when no two rows of the table share an integer in a unique column |
| TableStore.Store.StageInsert | src/storage/table_store.cpp:606-653 | each of its errors exactly when it occurs, and otherwise one more operation of the batch |
| TableStore.Store.StageUpdate | src/storage/table_store.cpp:655-690 | the same for updates |
| TableStore.Store.StageRemove | src/storage/table_store.cpp:692-712 | the same for deletes |
| BatchHistory.StagedIsStageable | src/storage/table_store.cpp:606-712 | what staging lets through is what recovery's histories consist of, also where the slot has the operation's version already |
| BatchHistory.LedStep | src/engine.cpp:1382-1393 | applying the next operation of a batch continues the history of those before it, whatever they did to its key and slot |
| TableStore.BatchContinues | src/engine.cpp:1296-1425 | the history of a successful batch follows any history that led to the image before it |
| TableStore.Store.StoreInsert | src/storage/table_store.cpp:720-737 | the stores of an insertion leave, one after the other, exactly the images that a crash is proved about |
| TableStore.Store.StoreUpdate | src/storage/table_store.cpp:784-793 | the same for an update |
| TableStore.Store.StoreDelete | src/storage/table_store.cpp:820-825 | the same for a delete, up to the key's removal from the index |
| TableStore.Store.Withdraw | src/storage/table_store.cpp:747-753 | a refused insertion is withdrawn in two stores, the record first |
| TableStore.Store.ApplyInsert | src/storage/table_store.cpp:719-776 | published, the whole new image and exact secondary indexes; refused, no reader sees a difference |
| TableStore.Store.ApplyUpdate | src/storage/table_store.cpp:777-812 | the whole new image; the secondary indexes hold the live rows and the rows updated after their delete |
| TableStore.Store.ApplyDelete | src/storage/table_store.cpp:813-832 | the whole new image and exact secondary indexes |
| TableStore.Store.ReleaseStaged | src/storage/table_store.cpp:838-871 | an unapplied operation leaves no trace, a published one is not taken back |
| TableStore.Store.InsertRow | src/storage/table_store.cpp:1213-1226 | exactly the key's row is added by one operation of a recoverable history; AlreadyExists exactly when the key is there or another row has one of its values in a unique column; indexes stay exact and rows unique; refused without a torn secondary insertion, the table is as before |
| TableStore.Store.UpdateRow | src/storage/table_store.cpp:1349-1359 | exactly the key's row is replaced, with the same guarantees |
| TableStore.Store.RemoveRow | src/storage/table_store.cpp:1361-1371 | exactly the key's row goes, with the same guarantees |
| TableStore.Store.PopulateSecondaryIndex | src/storage/table_store.cpp:999-1029 | builds the exact index, refusing exactly when a unique one has duplicates |
| TableStore.Store.StageOne | src/engine.cpp:1310-1345 | which error a request gets behind the ones already staged, and that it reserves a slot exactly when it is an accepted insert |
| TableStore.Store.StageAll | src/engine.cpp:1310-1345 | all requests are staged, or the first that is not acceptable decides the error and nothing stays reserved |
| TableStore.Store.ReplayUpsert | src/storage/table_store.cpp:875-917 | the store's replay is the one recovery is proved about, with each of its errors exactly when it occurs |
| TableStore.Store.ReplayDelete | src/storage/table_store.cpp:919-938 | the same for deletes |
| TableStore.Store.ExecuteBatch | src/engine.cpp:1296-1425 | whatever happens, nothing stays reserved, the rows are the old ones with a prefix of the requests applied, and the three counts agree; refused with the error of its first unacceptable request, and otherwise, logged and with every index insertion granted, it succeeds exactly unless it repeats an insert or a delete; after a success secondary indexes are exact, and unique ones unique, if and only if the requests say so; and its operations are one of recovery's histories |
| TableStore.BatchUniqueExample | src/storage/table_store.cpp:1122-1152 | one batch brings a value twice past a unique index |
| TableStore.DeleteUpdateExample | src/storage/table_store.cpp:777-812 | an update behind a delete of its key succeeds, changes no row, and leaves an entry in the secondary index |
| SubscriptionModel.MatchingComplete | src/engine.cpp:1639-1766 | no wanted record of the interval is missing from the due events |
| SubscriptionModel.MatchingPrefix | src/server/server.cpp:898-916 | cutting an answer after event k leaves exactly the events due up to its number |
| SubscriptionModel.CallbackKeeps | src/client/rtdb_client.cpp:440-454 | one successful callback extends what was taken by exactly the next due event |
| SubscriptionModel.NothingLost | src/client/rtdb_client.cpp:403-522 | over every run, every wanted record between start and position had a successful callback that moved the position, in increasing order |
| SubscriptionModel.RunContinues | src/client/rtdb_client.cpp:338-522 | over every run without a reset, reconnections and lost answers included, the start stays and what was taken only grows |
| SubscriptionModel.CatchesUp | src/client/rtdb_client.cpp:403-469 | from every state of a run whose window reaches back to the position, one answer to the end of the log and callbacks that return bring everything due |
| Subscription.ChangeCursor.Scan | src/engine.cpp:1655-1739 | the events of a stretch without a gap, or overflow exactly when the window left the position behind |
| Subscription.ChangeCursor.Next | src/engine.cpp:1639-1766 | all events due between the old and the new position |
| Subscription.Session.DoFetchDelta | src/server/server.cpp:844-923 | the answer holds every event due up to the number it resumes from, within the byte limit; it is empty only if every look was scanned, or its budget spent, with nothing due; it leaves out only what no longer fits, and is refused only when the first due event is too long |
| Subscription.Session.Encode | src/server/server.cpp:898-916 | at least one event, a prefix, within the limit from the second on, as many as fit |
| Subscription.Session.Poll | src/server/server.cpp:876-897 | polls until something is due or the time is up; nothing due only if every look was seen to its end or budget |
| Subscription.Pump.ResetTo | src/client/rtdb_client.cpp:575-584 | a new start and a new epoch |
| Subscription.Pump.ConnectSubscribe | src/client/rtdb_client.cpp:338-400 | a reconnect never moves an existing position |
| Subscription.Pump.PumpOnce | src/client/rtdb_client.cpp:403-469 | exactly the events in front of the first throw count as taken, and the position is the number of the last of them; a reset starts anew at the last position asked for |
| Subscription.Pump.HandleOverflow | src/client/rtdb_client.cpp:472-490 | waits for a reset; without one nothing moves |
| Subscription.Pump.Fetch | src/client/rtdb_client.cpp:403-438 | what the server's session answers, lost or not, is all that is due behind the position up to where the answer ends |
| Subscription.Pump.Link | src/client/rtdb_client.cpp:338-400 | a connection brings a session with a cursor of its own and moves no position but the first |
| Subscription.Pump.Run | src/client/rtdb_client.cpp:492-522 | all rounds against real sessions, with connections and answers lost, keep the account: without a reset what was taken and the position are exactly what the callbacks of the rounds returned for, and every event taken had a callback that returned |
| SqlRoundTrip.PrintParses | src/sql/parser.cpp:611-736 | parsing a printed condition gives it back and consumes exactly its tokens, whatever follows |
| SqlRoundTrip.ReparseStable | src/sql/parser.cpp:611-736 | whatever parses survives printing and parsing again |
| SqlRoundTrip.AndBindsTighter | src/sql/parser.cpp:611-655 | x OR y AND z is read as x OR (y AND z) |
| SqlRoundTrip.StopsAtEnd | src/sql/parser.cpp:613-655 | the parser takes the longest condition: neither AND nor OR follows |
| SqlParser.Parser.ParseOr | src/sql/parser.cpp:613-633 | the loop over the token stream computes the specified parse, errors included |
| SqlParser.Parser.ParseAnd | src/sql/parser.cpp:635-655 | the same for conjunctions |
| SqlParser.Parser.ParseOperand | src/sql/parser.cpp:686-736 | the same for comparisons and NULL tests |
| SqlGrammar.OrDerived | src/sql/parser.cpp:613-736 | what the parser accepts is a derivation of the grammar: the tokens it takes and the condition it answers are those of a tree, parentheses closed |
| SqlGrammar.OrAccepted | src/sql/parser.cpp:613-736 | every derivation in front of neither AND nor OR is accepted, with its meaning |
| SqlGrammar.AcceptedIff | src/sql/parser.cpp:613-736 | a token list is accepted as a whole exactly when the grammar derives it |
| SqlParser.QuoteRoundTrip | src/sql/parser.cpp:292-312 | a quote-doubled literal is read back exactly if and only if no quote follows it |
| SqlParser.Lexer.LexString | src/sql/parser.cpp:292-312 | reads the literal or reports that it does not end |
| SqlFilter.CheckedNeverFails | src/sql/exec.cpp:241-303 | known columns and coercible literals suffice for evaluation never to fail |
| SqlMeaning.TextCompare | src/sql/exec.cpp:205-208 | text comparison is the order by the first difference |
| SqlMeaning.MeetsMeans | src/sql/exec.cpp:292-301 | the six comparisons are the relations of integers and of texts |
| SqlMeaning.CoerceMeans | src/sql/exec.cpp:87-187 | a literal is accepted exactly when it stands for a value of the column |
| SqlMeaning.IndexMeans | src/sql/exec.cpp:228-233 | a name is resolved to the column that has it, or to none |
| SqlMeaning.EvalMeans | src/sql/exec.cpp:241-303 | for every row and condition: OR is true exactly when some part is, AND exactly when every part is, NOT exactly when its part is not, a comparison exactly when neither side is NULL and they are related; it fails exactly when some part does not fit |
| SqlMeaning.MatchesMeans | src/sql/exec.cpp:368-411 | what a filter leaves of a table are exactly the rows that satisfy it, by ascending key |
| SqlFilter.NotNullExample | src/sql/exec.cpp:241-303 | NOT (x = NULL) accepts every row |
| SqlFilter.BoundsSound | src/sql/exec.cpp:305-361 | a row that satisfies the condition has its key inside the extracted bounds |
| SqlFilter.PushdownExact | src/sql/exec.cpp:332-361 | pushing the bounds down loses and adds no row |
| SqlFilter.WindowRest | src/sql/exec.cpp:368-411 | going on behind the last key of a page sees exactly the rest of the range |
| SqlExec.Bounds.MergeBound | src/sql/exec.cpp:313-330 | narrows in place as specified |
| SqlExec.Bounds.ExtractKeyBounds | src/sql/exec.cpp:332-361 | walks the AND tree as specified |
| SqlExec.ScanRows | src/sql/exec.cpp:368-411 | for any condition, the answer of one pass over the rows in its bounds, with the first row that does not fit or the limit error where they come first; for a checked condition, that of filtering the whole key-ordered table |
| SqlExec.CheckedScan | src/sql/exec.cpp:368-411 | where the condition has been checked, the pass over the bounds answers what a filter of the whole table would |
| SqlExec.EarlyStopExact | src/sql/exec.cpp:445-452 | exactly when the early stop gives the slice of all rows |
| SqlExec.LimitWithinBudget | src/sql/exec.cpp:445-452 | a limit and offset below the budget are answered exactly, whatever the table's size |
| SqlExec.EarlyStopCutsExample | src/sql/exec.cpp:445-452 | LIMIT 5 OFFSET 8 over 20 rows with a budget of 10 answers two rows |
| SqlExec.LimitZeroExample | src/sql/exec.cpp:445-452 | LIMIT 0 OFFSET 0 fails on a table over the budget |
| SqlExec.SliceMeans | src/sql/exec.cpp:455-465 | row i of a slice is row i + offset, and the slice has as many rows as the limit and the table leave |
| SqlSort.RowOrder | src/sql/exec.cpp:190-210 | comparing rows by the ORDER BY columns is a total preorder, NULL first, ascending or descending |
| SqlMeaning.OrderMeans | src/sql/exec.cpp:190-210 | the first ORDER BY column in which two rows differ decides: the smaller cell first, NULL smallest, and the reverse in a descending column |
| SqlSort.SortsStably | src/sql/exec.cpp:413-437 | the result is sorted, and rows that compare equal are all there in their old order |
| SqlSort.StableSortUnique | src/sql/exec.cpp:428-436 | there is only one stable sorting, so the library's is this one |
| SqlExec.ExecSelect | src/sql/exec.cpp:441-491 | scan, stable sort, slice and projection together, with their errors |
| GroupCommit.StepKeeps | src/storage/group_commit.cpp:29-120 | every interleaved step keeps the invariant |
| GroupCommit.FlushThroughSafe | src/storage/group_commit.cpp:52-82 | a wait returns Ok only if a successful flush began with the number committed, or it was below the first watermark |
| GroupCommit.WatermarkSafe | src/storage/group_commit.cpp:29-50 | the watermark only rises and never passes a snapshot taken before a successful flush |
| GroupCommit.OneFlusher | src/storage/group_commit.cpp:52-120 | leaders and the background flusher exclude each other, and every failed leader's error reaches exactly one waiter or is still pending |
| GroupCommit.AnswersExact | src/storage/group_commit.cpp:52-82 | a look under the mutex answers Ok exactly when the number is flushed, an error exactly when it is not and one is pending, which is then cleared; only a timeout answers Timeout |
| GroupCommit.CheckLeads | src/storage/group_commit.cpp:64-79 | a wait without an answer flushes itself when nobody does and sleeps only while somebody does |
| GroupCommit.RelockReports | src/storage/group_commit.cpp:69-76 | a flush that is over gives the flag back; success raises the watermark to its target, a leader's failure leaves an error |
| GroupCommit.LeaderAnswered | src/storage/group_commit.cpp:52-82 | a leader whose flush ended well is answered Ok at its next look, whatever the other threads did meanwhile |
| GroupCommit.OnlyFlushFails | src/storage/group_commit.cpp:29-50 | a flush counts as failed only if the flush itself failed |
| GroupCommit.FlagRun | src/storage/group_commit.cpp:52-120 | over every run the flushing flag is up only while some thread is in a flush that will take it down |
| WireFormat.TableDefReads | src/net/value_codec.cpp:169-321 | a definition within the limits is read back, up to default fields that are not sent, and exactly its bytes are consumed whatever follows |
| WireFormat.AcceptedTableDef | src/net/value_codec.cpp:204-321 | whatever bytes are accepted spell a definition within the limits |
| WireFormat.RowReads | src/net/value_codec.cpp:90-118 | the same round trip for rows |
| WireFormat.BlockReads | src/net/value_codec.cpp:325-440 | the same round trip for column blocks |
| WireFormat.HeaderReads | src/net/value_codec.cpp:120-160 | the same round trip for result headers |
| Wire.Reader.Number | src/net/codec.hpp:84-117 | takes the number, or fails for good and returns 0 |
| Wire.Reader.Bytes | src/net/codec.hpp:139-163 | takes a length-prefixed run, or fails for good |
| Wire.Writer.U64 | src/net/codec.hpp:27-39 | halves of halves add up to the little-endian bytes |
| Wire.Writer.Str | src/net/codec.hpp:53-57 | the 16-bit length prefix and the bytes |
| WireCodec.ReadTableDef | src/net/value_codec.cpp:204-321 | reads exactly the layout from any bytes, or reports a protocol error |
| WireCodec.WriteTableDef | src/net/value_codec.cpp:169-202 | appends exactly the layout |
| WireCodec.TableDefRoundTrip | src/net/value_codec.cpp:169-321 | writer and reader together: the definition comes back, and the reader is finished exactly if nothing follows it |
| WireBlocks.ReadBlock | src/net/value_codec.cpp:354-440 | reads exactly the layout from any bytes; the room checks before an allocation refuse nothing readable |
| WireBlocks.WriteBlock | src/net/value_codec.cpp:325-352 | appends exactly the layout |
| WireBlocks.BlockRoundTrip | src/net/value_codec.cpp:325-440 | the same for column blocks |
| WireBlocks.ReadRow | src/net/value_codec.cpp:109-118 | reads exactly the layout; a tag that does not fit the column poisons the reader |
| WireBlocks.WriteRow | src/net/value_codec.cpp:90-92 | appends exactly the layout |
| WireBlocks.ReadResultHeader | src/net/value_codec.cpp:132-160 | reads exactly the layout from any bytes |
| WireBlocks.WriteResultHeader | src/net/value_codec.cpp:120-130 | appends exactly the layout |

## Left out

- WalRing.Ring.Append: sequence numbers below 2^64 are a precondition; the CRC is any function of the record bytes, and the clock is a parameter.
- WalRing.Ring.RewindHeadAfterReplay: rewinding to an empty ring with another position is modelled, but the result is not claimed to be a sound ring; recovery never does it.
- WalEngine.Engine.ExecuteBatch: crashes fall between making room and the records and between records, not between the single stores of an append or a reclaim (src/storage/wal_ring.cpp:194-196; `WalProtocol.StepKeeps` has a crash behind every record dropped); after an overlapping append nothing is claimed; whether a flush or the row store succeeds is a parameter.
- WalEngine.Engine.ReplayWal: hands the rows to the stores as a sequence; stores found through the catalog, skipped tables and statistics are not modelled. DDL records are lone records. A crash between the single stores of src/storage/table_store.cpp:898-936 while the rows are replayed, and the recovery after it, are not modelled.
- BTree.SharedBTree.Insert: nodes are sequences in a map by page offset rather than bytes of a page; the allocator is a sequence of granted or refused pages. Keys are numbers, which `OrderedKey` justifies; the payload is any type. Destroy, Reset and the structure check are not modelled.
- BTree.SharedBTree.SeekRange: both bounds are given, as in the source; the cursor is moved only while the tree stays unchanged.
- VarPool.Pool.Allocate: sizes and links are counted in 8-byte words, so the region is a multiple of 8 bytes.
- VarPool.Pool.Deallocate: requires that a word which reads as the header of a live block is one; user data that imitates a header is outside the model.
- Slab.Allocator.Deallocate: the same for slab headers.
- VarPool.Pool.ValidateWalk: the links of the free list stay inside the region; the source follows a link that leads out of it. Those of a valid pool stay inside (`VarPool.Pool.ChainInside`).
- Slab.Allocator.Create: only a fresh mapping is attached; checks of an existing superblock are not modelled. The map size rounded up to a page has to lie inside the mapping; src/infra/slab_allocator.cpp:56 rounds up without checking, so a mapping that is not a multiple of a page is outside the model.
- RecoveredTable.RecoveryConverges: histories consist of operations that were applied, so a batch that inserts or deletes one key twice, which stops half applied and poisons the engine, is one only up to that operation (`Recovery.SucceedsIff` and `Recovery.ReplayEntry` hold of its log too); replayed records fit the table; variable-length columns and the rebuilt row count are not part of the image.
- RowImage.After: the withdrawal writes of a refused index insertion (src/storage/table_store.cpp:747-753, 838-871) are no crash image of a history; `RecoveryExamples.RefusedInsert` has what they lead to.
- TableStore.Store.InsertRow: rows are integers and NULL with an integer key; pool blocks, extension columns, rows of old handles, fixed-width byte columns and the range check of narrow integers are not modelled. The trees are the maps that `BTree` proves them to be; whether their pages are granted is a parameter.
- TableStore.Store.ReleaseStaged: the branch that blanks a released row is unreachable here, because what is published is never released.
- TableStore.Store.ExecuteBatch: one table; after a failure the counts are claimed only without secondary indexes, and the indexes not at all, because a refused secondary insertion leaves its row published, uncounted and half indexed; the engine is poisoned then and rebuilds them when it is opened.
- TableStore.Store.PopulateSecondaryIndex: the walk over the primary index is given as the rows it shows.
- SecIndex.FloatOrder: works on 64-bit patterns; NaN and the narrowing to 32 bits are not modelled.
- Subscription.Pump.Run: what the server sees of the log in a round is a prefix of the later log, which `WalProtocol.RunLogs` proves of the write-ahead log; the tables that resolve and the payloads that decode stay the same over a run; events still fetched before a reset may reach the callback afterwards, as in the source, and do not move the position.
- Subscription.Session.DoFetchDelta: timeouts are the number of looks at the log; acknowledgements, which only set metrics, and authorisation are not modelled.
- SqlParser.Parser.ParseOr: works on tokens; number and keyword lexing and float literals are not modelled. The statement grammar around WHERE is not modelled.
- SqlFilter.BoundsSound: integer, boolean, timestamp, text and NULL cells; text to integer conversion is a parameter; the key is not a text column.
- GroupCommit.FlushThroughSafe: a state machine over the mutex's sections; how long a wait lasts is not modelled, a timeout may happen at any wait.
- WireFormat.BlockReads: a block column's type is one of the three wire types; doubles are bit patterns. Strings longer than 16 bits are cut by the writer and are outside the round trip.
- Untyped values (src/net/value_codec.cpp:94-107), 16-bit signed and view reads of the codec add only easy members.
- Root-lock recovery, platform layers, authentication, permissions, configuration, metrics, snapshots, catalog DDL and the C interface are not part of this model.
