# A verified model of the shared-memory table

The repository keeps a table of serialized records in POSIX shared memory: a slot allocator whose free list
lives inside the slots, a chained hash index whose nodes live in a second allocator of the same kind, and
System V semaphores around both. Many processes attach to one table. This project models the three layers as
classes over flat arrays, gives each an abstract value, and proves what the layers promise together. A second
half models many processes at once, on the semaphores alone and then with the memory that they share.

Check everything with `dafny verify dfyconfig.toml`.

## How the project is laid out

| files | what they hold |
|---|---|
| `Bytes`, `Results` | words in memory and their encoding; options, errors and results |
| `SlotModel`, `Slots` | the allocator as a value (`Arena`) and as bytes in one flat array, with its iterator |
| `IndexModel`, `IndexLinks`, `IndexWalk`, `Index` | the index as a value (`Ix`), its linked nodes, the way back from nodes to the value, and the class |
| `Semaphores` | which semaphore guards which record, the kernel's `semop` with SEM_UNDO, and the lock guards |
| `TableModel`, `TableRefinement`, `TableProperties`, `Table` | the table as a pair of allocators, its refinement of a bounded map, what callers can rely on, and the class |
| `LockProtocol` | insert, remove, update, update_many and find as steps of any number of processes on the semaphores |
| `ConcurrentModel`, `ConcurrentTable`, `ConcurrentProperties` | inserts and updates of many processes, step by step on shared memory, with a history of all calls |
| `ConcurrentCalls`, `ConcurrentAnswers`, `ConcurrentKeys`, `ConcurrentHistory`, `ConcurrentReplay` | the history has every program's calls, these return what their entries say, keys stay unique, and concurrent runs refine the bounded map |
| `ConcurrentCounting`, `ConcurrentExample`, `ConcurrentRace` | concurrent increments add up, a run that meets every premise, and the race on one new key |

Each class method is tied to a function of the old abstract value (`TInsert`, `IxRemove`, `SlotModel.Insert`, ...)
and the properties are proved of these functions. The abstract value of an object is a ghost field, but it hides
nothing: `ArenaIsDetermined` and `IndexIsDetermined` compute it from the bytes.

## Main results

- **One table, one map.** From a fresh table, every run of insert, remove, update, update_many and find answers
  exactly as a map bounded by the capacity and the record size (`RunRefines`). Failing calls change nothing, except
  the prefix of update_many, which is exactly the fold of the keys before the failing one (`UpdateManyIsFold`).
- **Lockstep.** The record allocator and the index allocator always have the same free list in the same order, so
  every index node lies at the slot number of its record, and `keys()` and `iter()` go through the same slots
  (`TableValid` in every refinement lemma, `EnumerationsAgree`, `KeysMatchRecords`).
- **What each call answers.** Written out over the stored records and nothing else: which record a find returns, which
  of its errors a failing call returns and with which numbers, and what is stored afterwards (`StepAnswers`, `FindAfter`,
  and the contracts of `Table`).
- **Heap shape of the index.** Chains and free list partition the slots, chain `b` holds exactly the keys whose hash
  leaves the remainder `b` (`ChainsFollowHash`), walks end, insertion appends at the tail, and removal unlinks exactly
  one node, at the head or inside a chain.
- **Concurrent runs refine the same map.** Any number of processes insert records and update keys, their steps
  interleaved in any way, no two of them inserting the same new key. The history then has exactly the calls of every
  program, each in its program's order; made one after the other on the bounded map, these calls give the same answers
  (the record that each closure met, the counts, duplicates, absent keys, full tables and too big records) and the
  contents of the table at the end (`ConcurrentRunRefinesMap`).
- **Exactly when keys stay unique.** The duplicate check comes before the table lock. Where the table lock exists and
  there is room, every interleaving leaves the keys of the index unique if and only if no two processes insert the same
  new key, whatever else the programs do (`UniqueExactlyWithoutRace`).
- **No lost updates.** At every moment of every interleaving each record is its first value with the completed closures
  applied once each, in the order of lock acquisition, and the history has exactly the calls made so far
  (`NoLostUpdates`). If closures add one as far as the counter can count, then at every moment the counter is up by the
  number of its updates that were applied (`AppliedIncrementsAddUp`), and at the end by the number of all calls, provided
  that closures turn records that fit their slot into records that fit (`IncrementsAddUp`). The two free lists agree at
  every moment except for one slot of the process that holds the table lock (`CouplingHolds`).
- **What a call returns beside others.** A program is its calls one after the other (`ProgramSplits`); each update makes
  one call for each key, from the first on, and returns the number of those that were applied or the error of its last
  one, and an insertion returns the answer of its entry (`UpdateTakesKeysInOrder`, `UpdateReturnsCount`,
  `InsertReturnsAnswer`).
- **Which locks a call takes.** From its first step to its last, whatever it finds: the list of the semaphores that it
  takes and drops, in order, with their numbers (`CallTakesLocks`, `RemovalLocksRecord`, `UpdateLocksRecord`,
  `InsertionLocksTable`, `LookupLocksIndex`), and every finding is met by some call (`EveryFindingIsMet`).
- **No deadlock, no livelock.** With all five calls interleaved and processes exiting anywhere, some process can
  always go on, whatever positions lookups return, runs are bounded, and a run that cannot go on has finished everybody
  and left every semaphore free.

## Where the code and its documentation differ

The model follows the code.

- **Large tables cannot be filled.** `lock_table` names semaphore `num_records` (src/internal/semaphore.rs:173-175), cut
  to sixteen bits, but from 1024 records on the set has only one semaphore per 1024 records and one more. For 1024 to
  65535 records the semaphore never exists, every insert fails, and the table stays empty
  (`TableOfMediumCapacityStaysEmpty`); the documented capacity of 100_000 (README.md:347) is no better. From 65536 on the
  number wraps: it exists exactly if `n % 65536 <= ceil(n / 1024)`, and is no record's semaphore exactly if the two are
  equal (`LargeTableLock`, `TableSemaphoreIsItsOwn`). Below 1024 records and where the semaphore exists, a fresh table
  accepts any storable records under different keys up to its capacity; any other table refuses every one of them
  (`TableFillsExactlyIfLockable`). A table of 65536 records shares its table semaphore with the
  records of the first stripe.
- **Removal takes a record lock.** The documentation of `remove` speaks of a table-wide lock (src/table.rs:609); the code
  locks the record only (src/table.rs:639), as `RemovalLocksRecord` says.
- **A check that never fires for a record.** For every record of every capacity, the range check in `lock`
  (src/internal/semaphore.rs:163) passes and the semaphore exists (`RecordLockWorks`). It can only reject a position past
  the capacity.
- **An unchecked lock that holds.** The index ignores the result of its own lock (src/internal/index.rs:155); with
  `create(name, 0)` the set has one semaphore and number 0 names it, so it works (`LockTable` with no records).

## Model

| member | source | states |
|---|---|---|
| `Bytes.UsizeRoundTrip` | src/internal/slot.rs:11-16 | Every word stored in eight bytes is read back unchanged: links, lengths and positions survive memory. |
| `Bytes.EncodeDigit` | src/internal/slot.rs:11-16 | Byte k of a stored word is its digit k to the base 256: words lie in memory least significant byte first. |
| `SlotModel.TakeFirst` | src/internal/slot.rs:101-106 | Taking the head of the free list keeps every slot either free, once, or in use, and never hands out a slot in use. |
| `SlotModel.FreeAndLiveCount` | src/internal/slot.rs:18-27 | Slots in use and free slots add up to the capacity. |
| `SlotModel.WalkVisitsFreeSlots` | src/internal/slot.rs:71-79 | Following the overloaded `size` field from `first_free` visits exactly the free slots, each once, and is at the sentinel after `capacity - count` steps. |
| `SlotModel.HeaderCountsLiveSlots` | src/internal/slot.rs:85-91 | `count` is the number of slots in use, and `count >= capacity` holds exactly when `first_free` is the sentinel. |
| `SlotModel.ReadsContents` | src/internal/slot.rs:125-135 | A slot reads as the data last written to it, and as nothing when it is free; its state byte tells which. |
| `SlotModel.ArenaIsDetermined` | src/internal/slot.rs:11-27 | Header fields and slots determine the free list, its order, and all contents. |
| `SlotModel.PopRepresents` | src/internal/slot.rs:101-110 | The field updates of `insert` pop the first free slot and store the data in it; links and contents of all others stay right. |
| `SlotModel.WriteRepresents` | src/internal/slot.rs:113-123 | Overwriting a slot in use changes its contents and no free-list link. |
| `SlotModel.PushRepresents` | src/internal/slot.rs:137-147 | The field updates of `remove` put the slot in front of the free list and leave the other contents. |
| `SlotModel.FreshRepresents` | src/internal/slot.rs:53-79 | Slots linked in ascending order are the empty allocator. |
| `SlotModel.InsertThenRemove` | src/internal/slot.rs:85-147 | Allocating a slot and releasing it restores free list, order included, and contents. |
| `SlotModel.RemoveThenInsert` | src/internal/slot.rs:85-147 | After a release the next allocation hands out the same slot. |
| `SlotModel.BalancedUseRestores` | src/internal/slot.rs:85-147 | Any balanced nesting of allocations and releases, failing ones included, restores the allocator. |
| `SlotModel.EnumerationExact` | src/internal/slot.rs:190-214 | Enumeration has each slot in use once, in ascending order, and nothing else. |
| `SlotModel.SameSlotsSameEnumeration` | src/internal/slot.rs:190-214 | Two allocators with the same slots in use are enumerated alike. |
| `SlotMemory.SlotStartIsProduct` | src/internal/slot.rs:149-152 | The address `index * slot_size` is where the slots laid end to end put the slot. |
| `SlotMemory.SlotsApart` | src/internal/slot.rs:149-157 | Different slots share no byte. |
| `SlotMemory.MetadataWritten` | src/internal/slot.rs:161-164 | Writing state and size sets the two metadata fields and leaves the buffer. |
| `SlotMemory.DataCopied` | src/internal/slot.rs:165-167 | Copying data overwrites the front of the buffer and leaves the rest and the metadata. |
| `SlotMemory.OneSlotChanges` | src/internal/slot.rs:149-168 | A write inside one slot leaves the metadata and the bytes of every other slot. |
| `SlotMemory.RecordStored` | src/internal/slot.rs:159-168 | Metadata and then data leave the state byte 1, the length in the word eight bytes on, the data sixteen bytes on, and every other byte as it was. |
| `SlotMemory.Slots.constructor` | src/internal/slot.rs:53-64 | A new allocator is empty, with its slots free in ascending order; slot 0 begins 32 bytes behind the base, and each slot is 16 bytes longer than its data. |
| `SlotMemory.Slots.InitializeFreeList` | src/internal/slot.rs:71-79 | Every slot is free and linked to its successor, the last one to the sentinel. |
| `SlotMemory.Slots.WriteMetadata` | src/internal/slot.rs:154-164 | In bytes: one slot gets its state at offset 0 and its size at offset 8; no other byte changes. |
| `SlotMemory.Slots.CopyData` | src/internal/slot.rs:165-167 | In bytes: the data lies from offset 16 of the slot on; no other byte changes. |
| `SlotMemory.Slots.SetRecordData` | src/internal/slot.rs:159-168 | The slot is occupied and holds exactly the data, even where longer data was before; all other slots stay. |
| `SlotMemory.Slots.ReadMetadata` | src/internal/slot.rs:149-152 | State and size as the bytes of the slot encode them. |
| `SlotMemory.Slots.Count` | src/internal/slot.rs:81-83 | The number of slots in use. |
| `SlotMemory.Slots.Insert` | src/internal/slot.rs:85-111 | Pops the first free slot and stores the data; on a full table or too long data it fails, in this order, without a change. |
| `SlotMemory.Slots.Update` | src/internal/slot.rs:113-123 | Replaces the data of a slot in use, or fails on too long data without a change. |
| `SlotMemory.Slots.Get` | src/internal/slot.rs:125-135 | Exactly the data last written; nothing for a free slot. |
| `SlotMemory.Slots.Remove` | src/internal/slot.rs:137-147 | Releases the slot to the front of the free list. |
| `SlotMemory.Slots.IsFree` | src/internal/slot.rs:170-173 | Whether the slot is not in use. |
| `SlotMemory.SlotsIterator.constructor` | src/internal/slot.rs:181-187 | All slots in use remain. |
| `SlotMemory.SlotsIterator.SkipFree` | src/internal/slot.rs:204-206 | The unguarded loop stops below the capacity, at the first remaining slot in use. |
| `SlotMemory.SlotsIterator.Next` | src/internal/slot.rs:196-214 | Yields the contents of the remaining slots one by one and nothing for ever after. |
| `IndexModel.NodeRoundTrip` | src/internal/index.rs:102-126 | A node read from its slot is the node that was stored, links by the convention that 0 is none and `i + 1` is slot `i`. |
| `IndexModel.OffsetsAre` | src/internal/offset.rs:5-28 | A link of value 0 leads nowhere, and one of value v + 1 leads to slot v. |
| `IndexModel.NodeLayout` | src/internal/index.rs:102-126 | A stored node is the key, then the position in eight bytes, then the link in eight bytes. |
| `IndexModel.WordKeysLawful` | src/internal/index.rs:24-31 | Integer keys, under any hash, meet what the model asks of keys. |
| `IndexModel.ChainsFollowHash` | src/internal/index.rs:148-152 | Every place of chain b holds a key whose hash leaves the remainder b by the number of buckets, and every entry lies in the chain that its hash names. |
| `IndexModel.SearchFindsKey` | src/internal/index.rs:195-215 | Search finds an entry with the key whenever the index has one, and only then. |
| `IndexModel.SearchIsFirst` | src/internal/index.rs:195-215 | Search ends at the first place with the key in the chain that the remainder of the hash names, or tells that no entry has the key. |
| `IndexModel.ChainsPartitionUsedSlots` | src/internal/index.rs:19-41 | Each slot is on the free list or in exactly one chain. |
| `IndexModel.CreateIxValid` | src/internal/index.rs:46-73 | An empty index has that shape. |
| `IndexModel.InsertIxValid` | src/internal/index.rs:154-193 | Insertion keeps it: chains without repetition, disjoint, each key in its bucket, and with the free list a partition of all slots. |
| `IndexModel.RemoveIxValid` | src/internal/index.rs:225-259 | Removal keeps it, so freed nodes can be used again by any chain. |
| `IndexModel.WithoutExact` | src/internal/index.rs:233-256 | The chain after removal is the old one without exactly that node, in the same order. |
| `IndexModel.InsertIs` | src/internal/index.rs:154-193 | The new entry takes the head of the free list and the end of the chain that its hash names; every other chain stays, and a full index fails without a change. |
| `IndexModel.RemoveIs` | src/internal/index.rs:225-259 | The first place with the key leaves the chain that its hash names, its slot heads the free list, and every other chain stays; an absent key changes nothing. |
| `IndexModel.LookupAfterInsert` | src/internal/index.rs:154-223 | Insertion changes the lookup of its own key only, and only if the key was absent. |
| `IndexModel.LookupAfterRemove` | src/internal/index.rs:195-259 | Removal makes its own key absent, if keys are unique, and changes no other lookup. |
| `IndexLinks.ReadNodeAt` | src/internal/index.rs:102-105 | The node read at any place of a chain has the key and position of its entry and the link to the next place. |
| `IndexLinks.CreateLinks` | src/internal/index.rs:46-73 | Empty buckets and an empty allocator are the empty index. |
| `IndexLinks.InsertLinks` | src/internal/index.rs:154-193 | The two writes of `insert`, new node and relinked tail copy, give the linked form of the index with the entry appended; the copy is still accurate because the popped slot is in no chain. |
| `IndexLinks.BothWritesSucceed` | src/internal/index.rs:167-177 | With a free slot neither write of an insertion can fail: nodes fit and the tail is in use. |
| `IndexLinks.InsertWhenFull` | src/internal/index.rs:167-173 | Without a free slot nothing is stored and nothing changes. |
| `IndexLinks.RemoveHead` | src/internal/index.rs:233-240 | Setting the bucket to the successor and freeing the node is removal of a head. |
| `IndexLinks.RemoveInterior` | src/internal/index.rs:241-256 | Relinking the predecessor and freeing the node is removal inside a chain; the relinking write cannot fail. |
| `IndexLinks.LinkHits` | src/internal/index.rs:242-256 | Only the predecessor links to the removed slot, and every link before it leads on: the `None` arm is dead. |
| `IndexWalk.FollowsChain` | src/internal/index.rs:161-165 | Following `next` from any place visits the rest of the chain and then stops. |
| `IndexWalk.ChainFits` | src/internal/index.rs:161-165 | No chain is longer than the capacity: every walk ends within that many nodes. |
| `IndexWalk.IndexIsDetermined` | src/internal/index.rs:19-41 | Bucket heads and nodes determine entries, chains and their order. |
| `HashIndex.TotalBuckets` | src/internal/index.rs:47 | The least number of buckets not below three quarters of the capacity; never 0. |
| `HashIndex.Index.constructor` | src/internal/index.rs:46-73 | A new index is empty and valid, with one free semaphore. |
| `HashIndex.Index.Hash` | src/internal/index.rs:148-152 | The remainder of the hash by the number of buckets. |
| `HashIndex.Index.ReadNode` | src/internal/index.rs:102-105 | The node at a place of a chain. |
| `HashIndex.Index.WalkToTail` | src/internal/index.rs:158-165 | Ends at the last node of the chain. |
| `HashIndex.Index.Insert` | src/internal/index.rs:154-193 | Takes the head of the free list and appends it to the chain of the hash, with key and position, or fails with the numbers of a full table and no change; the lock is held in between and released. |
| `HashIndex.Index.Search` | src/internal/index.rs:195-215 | The first node with the key in the chain of the hash, with its slot, or nothing if no entry has the key; called under the index lock. |
| `HashIndex.Index.Get` | src/internal/index.rs:217-223 | The position stored in the first node with the key, nothing if there is none; the lock is released and nothing else changes. |
| `HashIndex.Index.WalkToPredecessor` | src/internal/index.rs:241-256 | Ends at the node in front of the one to be removed and never runs off the chain. |
| `HashIndex.Index.Remove` | src/internal/index.rs:225-259 | Unlinks the node that search finds, and only it; on an absent key it does nothing; the lock is released. |
| `HashIndex.IndexIterator.constructor` | src/internal/index.rs:139-144 | All slots in use remain to be yielded. |
| `HashIndex.IndexIterator.Next` | src/internal/index.rs:267-276 | Yields the keys of the remaining slots one by one and nothing for ever after. |
| `Semaphores.StripesAre` | src/internal/semaphore.rs:91-97 | Below 1024 records one semaphore for each and one more; from there on one for each 1024, the last of them perhaps not full, and one more. |
| `Semaphores.RecordSemIs` | src/internal/semaphore.rs:156-171 | Record p has semaphore p below 1024 records, and semaphore p / 1024 from there on, cut to sixteen bits. |
| `Semaphores.RecordsShareStripes` | src/internal/semaphore.rs:156-171 | In larger tables, up to 65536 stripes, two records share a semaphore exactly if their positions divided by 1024 agree. |
| `Semaphores.RecordLockWorks` | src/internal/semaphore.rs:91-97 | For every capacity, every record has a semaphore in the set, below the last one. |
| `Semaphores.SmallTablesLockApart` | src/internal/semaphore.rs:156-181 | Below 1024 records, records have different semaphores and the table lock has one more. |
| `Semaphores.LargeTableLock` | src/internal/semaphore.rs:173-175 | From 1024 records on, the table lock exists exactly if the capacity, cut to sixteen bits, is at most the number of stripes. |
| `Semaphores.TableSemaphoreIsItsOwn` | src/internal/semaphore.rs:156-181 | The exact capacities for which the table lock exists and is no record's lock. |
| `Semaphores.SemaphoreSet.constructor` | src/internal/semaphore.rs:91-125 | A created set has one semaphore for each record below 1024, else one for each 1024, and one more; every one is free, and no undo is owed. |
| `Semaphores.SemaphoreSet.SemReset` | src/internal/semaphore.rs:3-21 | Raises every semaphore from 0 to 1 and records no undo. |
| `Semaphores.SemaphoreSet.TryLock` | src/internal/semaphore.rs:28-44 | What `semop` does with -1 and SEM_UNDO; a number outside the set fails without a change. |
| `Semaphores.SemaphoreSet.Drop` | src/internal/semaphore.rs:46-65 | Releases the semaphore and withdraws its undo. |
| `Semaphores.SemaphoreSet.LockRecord` | src/internal/semaphore.rs:161-181 | Takes semaphore p of a set for fewer than 1024 records, else p / 1024, cut to sixteen bits, and no other; fails without a change past the range check or the set, which no record of the table is. |
| `Semaphores.SemaphoreSet.LockTable` | src/internal/semaphore.rs:173-175 | Holds the table semaphore if it exists, else fails without a change. |
| `Semaphores.CreatedConserved` | src/internal/semaphore.rs:91-125 | Conservation holds of a created set. |
| `Semaphores.StepConserves` | src/internal/semaphore.rs:28-65 | Acquiring, dropping and process exit each keep: value plus live guards is 1, and the undo of each process is the guards it holds. |
| `Semaphores.RunConserves` | src/internal/semaphore.rs:3-65 | Over every run of acquiring, dropping and process exit by any number of processes. |
| `Semaphores.LockIsExclusive` | src/internal/semaphore.rs:28-44 | At most one guard of a semaphore is alive, and acquiring completes exactly when none is. |
| `Semaphores.ExitFreesSemaphores` | src/internal/semaphore.rs:28-33 | A process that exits holding semaphores leaves them free. |
| `Semaphores.DropUndoesLock` | src/internal/semaphore.rs:28-65 | Lock and drop cancel out, undo included. |
| `TableModel.LookupPresent` | src/table.rs:597-605 | A key that is present leads to the one slot, in use, whose entry has it. |
| `TableModel.CountIsSize` | src/table.rs:359-361 | Records in use, index entries and map entries are equally many. |
| `TableRefinement.CreateRefines` | src/table.rs:223-262 | A fresh table stands for the empty map, its allocators in lockstep. |
| `TableRefinement.InsertIsAtomic` | src/table.rs:540-548 | An insertion takes the same slot in both allocators or changes nothing: once a record slot was found, the index cannot fail. |
| `TableRefinement.BothTakeFirstFree` | src/table.rs:543-546 | Both allocators take the same slot and are in lockstep again. |
| `TableRefinement.InsertRefines` | src/table.rs:531-549 | A successful insert adds the record under its key; duplicate, missing lock, failed serialization, full table and too big record are the only failures, in this order, and change nothing. |
| `TableRefinement.FindRefines` | src/table.rs:597-605 | Find returns the record stored under the key, nothing if there is none, and never an error. |
| `TableRefinement.UpdateRefines` | src/table.rs:467-492 | A successful update replaces the key's record by what the closure made of it, an absent key is no error, a failed update changes nothing. |
| `TableRefinement.UpdateManyRefines` | src/table.rs:764-782 | The keys are updated from left to right until the first error; no slot is taken or freed. |
| `TableRefinement.RemoveRefines` | src/table.rs:634-645 | Removal deletes the key, does nothing if it is absent, and the freed slot is the next one used, in both allocators. |
| `TableRefinement.StepRefines` | src/table.rs:467-782 | Each operation answers as the bounded map and keeps the lockstep. |
| `TableRefinement.RunRefines` | src/table.rs:467-782 | Every run of operations answers as the bounded map, reply by reply, and ends in a table that stands for the map's last value. |
| `TableProperties.EnumerationsAgree` | src/table.rs:676-714 | `keys()` and `iter()` are equally long, the nth record is the one stored under the nth key, and every key of the map comes once. |
| `TableProperties.RunFaithful` | src/table.rs:467-485 | Closures that leave keys alone keep every record under the key that it reports. |
| `TableProperties.KeysMatchRecords` | src/table.rs:676-714 | After any run from a fresh table with such closures, the nth key is the key of the nth record. |
| `TableProperties.UnlockableTableStaysEmpty` | src/table.rs:531-538 | Where the table lock does not exist, no run ever inserts anything. |
| `TableProperties.TableOfMediumCapacityStaysEmpty` | src/internal/semaphore.rs:91-97 | So it is for 1024 to 65535 records, and for 100000. |
| `TableProperties.InsertsFill` | src/table.rs:531-549 | Storable records under different new keys that there is room for are all accepted and kept, or, without the table lock, all refused. |
| `TableProperties.TableFillsExactlyIfLockable` | src/table.rs:531-549 | A fresh table can be filled to its capacity exactly if that is below 1024 or, cut to sixteen bits, at most the number of stripes. |
| `TableProperties.UpdateManyIsFold` | src/table.rs:764-782 | The result is the fold of the updater over the keys, the count is that of the occurrences of present keys, and an error at position n leaves the fold of the first n and is that of the record which could not be stored. |
| `TableProperties.FoldIs` | src/table.rs:764-782 | The fold applies the updater once for each occurrence of a present key, in order, and skips absent keys. |
| `TableProperties.PresentIs` | src/table.rs:764-782 | The count is the number of places in the list of keys whose key is present. |
| `TableProperties.InsertAnswered` | src/table.rs:531-549 | The answer of an insertion and what it leaves, written out: duplicate, missing lock with its numbers, failed serialization, full table, too big record, or stored. |
| `TableProperties.UpdateAnswered` | src/table.rs:467-492 | The answer of an update and what it leaves, written out, closure result included. |
| `TableProperties.UpdateManyAnswered` | src/table.rs:764-782 | The answer of update_many and what it leaves, written out: the count, or the error of the first record that cannot be stored, with its numbers. |
| `TableProperties.StepAnswers` | src/table.rs:467-782 | The answer of every operation, and what it leaves, in terms of the records that the table stands for. |
| `TableProperties.FindAfter` | src/table.rs:531-645 | An accepted record is found under its key, a removed key is not found, and finding any other key answers as before. |
| `SharedTable.Table.CreateWithSize` | src/table.rs:223-262 | A valid table that stands for the empty map; slot 0 lies behind both headers, and the index has three quarters as many buckets, rounded up. |
| `SharedTable.Table.Count` | src/table.rs:359-361 | The size of the map. |
| `SharedTable.Table.GetAt` | src/table.rs:551-566 | The record of a slot, an error for an index out of range or bytes that do not decode. |
| `SharedTable.Table.Find` | src/table.rs:597-605 | The record under the key, nothing if there is none, without any change. |
| `SharedTable.Table.Insert` | src/table.rs:531-549 | Stores the record under its key at the head of the free list, under the table lock, or fails with the first error that applies, its numbers included, and no change; all locks are released whatever happens. |
| `SharedTable.Table.UpdateAt` | src/table.rs:487-492 | Stores the record in its slot or fails without a change. |
| `SharedTable.Table.UpdateWithLock` | src/table.rs:467-485 | Replaces the record of the key by what the closure makes of it, under the lock of the record, with the closure result or the error of storing it; all locks are released whatever happens. |
| `SharedTable.Table.UpdateMany` | src/table.rs:764-782 | The fold over the keys, with the count of present keys, or with the error of the first record that cannot be stored and the fold up to there. |
| `SharedTable.Table.Remove` | src/table.rs:634-645 | The map without the key, changed under the lock of the record; never an error. |
| `SharedTable.Table.Iter` | src/table.rs:676-681 | All slots in use remain to be yielded. |
| `SharedTable.Table.Keys` | src/table.rs:712-714 | The same slots in the same order as `iter()`, as many as the map has keys. |
| `SharedTable.TableIterator.Next` | src/table.rs:790-800 | Yields the records of the remaining slots one by one, none undecodable, and nothing for ever after. |
| `LockProtocol.CallTakesLocks` | src/table.rs:467-782 | The semaphores that each call takes and drops, in order, and what is left of its calls, for everything that it may find. |
| `LockProtocol.RemovalLocksRecord` | src/table.rs:634-645 | Removing a record takes and drops the index lock, then holds the semaphore of the record, by its number, while it takes and drops the index lock again. |
| `LockProtocol.UpdateLocksRecord` | src/table.rs:476-483 | Each key of an update takes and drops the index lock, then the semaphore of the record, and goes on with the next key unless it failed. |
| `LockProtocol.InsertionLocksTable` | src/table.rs:535-548 | An insertion takes and drops the index lock, then, if the table semaphore exists, holds it while it takes and drops the index lock again, or drops it where storing fails. |
| `LockProtocol.LookupLocksIndex` | src/table.rs:597-605 | A find, a duplicate and an absent key take the index lock only. |
| `LockProtocol.EveryFindingIsMet` | src/table.rs:467-782 | Whatever a lookup finds, and with or without a failure of storing, a call on its own comes to its end. |
| `LockProtocol.StepKeepsInv` | src/table.rs:467-645 | Every step keeps: a process holds exactly the semaphores that its place in the code says, at most one of the table's set. |
| `LockProtocol.ExitKeepsInv` | src/internal/semaphore.rs:28-33 | So does a process exit at any point. |
| `LockProtocol.MutualExclusion` | src/internal/semaphore.rs:28-44 | No two processes hold one semaphore or the index lock together. |
| `LockProtocol.LocksInOrder` | src/table.rs:531-549 | No process holds two semaphores of the table's set, the index lock is always taken last, and whoever holds it is not blocked. |
| `LockProtocol.SomeoneRuns` | src/table.rs:467-645 | While a process is unfinished, some unfinished process is not blocked. |
| `LockProtocol.NoDeadlock` | src/table.rs:467-645 | While a process is unfinished, some process can step, whatever it finds in memory. |
| `LockProtocol.RunsAreBounded` | src/table.rs:467-782 | Every run is at most as long as its programs are large, under any scheduling. |
| `LockProtocol.MaximalRunsFinish` | src/table.rs:467-782 | A run that cannot go on has finished every process and left every semaphore free. |
| `ConcurrentTable.OthersQuiet` | src/table.rs:538 | While a process holds the table lock, no other is between the two allocators. |
| `ConcurrentTable.TouchesApart` | src/table.rs:476-483 | While a process updates a record under its lock, no step of another is at that record: its cell and its history stay. |
| `ConcurrentTable.WriteStep` | src/table.rs:543 | The record is written to a slot that no one else can see, and reads back as that record. |
| `ConcurrentTable.IndexStep` | src/table.rs:546 | The index takes the same slot from its own list, the allocators agree again, and the record is visible. |
| `ConcurrentTable.ReadStep` | src/table.rs:478 | Under its record lock an update reads exactly what the history says. |
| `ConcurrentTable.ApplyStep` | src/table.rs:480 | Writing back applies the closure once to what the history said. |
| `ConcurrentTable.StepKeepsInv` | src/table.rs:467-549 | Every step of every process keeps allocators, index and all records right. |
| `ConcurrentProperties.StartInv` | src/table.rs:223-262 | The invariant holds of any processes about to start on a table. |
| `ConcurrentProperties.RunKeepsInv` | src/table.rs:467-549 | It holds at every moment of every interleaving. |
| `ConcurrentProperties.CouplingHolds` | src/table.rs:538-546 | At every moment the free lists agree and occupied slots are the indexed ones, except for one slot of the holder of the table lock. |
| `ConcurrentProperties.FinishedRunHoldsTable` | src/table.rs:467-549 | Finished processes leave sound allocators in lockstep and the records of the history. |
| `ConcurrentProperties.JobsCanGoOn` | src/table.rs:467-549 | As long as a job is left, some process can take its next step on the memory. |
| `ConcurrentProperties.InterleavingIsBounded` | src/table.rs:467-549 | Interleavings are bounded by their jobs, and where one cannot go on, all jobs are done. |
| `ConcurrentProperties.SomeRunFinishes` | src/table.rs:467-549 | From every reachable state some interleaving brings all jobs to an end. |
| `ConcurrentCalls.StepKeepsCalls` | src/table.rs:467-782 | Each step keeps, for every process, that its entries in the history are the calls of its program so far, in order, an update that fails dropping its remaining keys, and that it has returned the answers and counts of these entries. |
| `ConcurrentCalls.NoLostUpdates` | src/table.rs:467-485 | At every moment the history has exactly the calls each program has got to, and each indexed record is its first value with every completed closure applied once, in the order of lock acquisition. |
| `ConcurrentCalls.HistoryExtends` | src/table.rs:467-549 | Entries never move: a call that ends before another begins stays before it in the history. |
| `ConcurrentAnswers.UpdateTakesKeysInOrder` | src/table.rs:764-782 | The entries of an update, once it holds no lock, are one call for each key, with the updater, from the first key on. |
| `ConcurrentAnswers.AppliedByIs` | src/table.rs:764-782 | The count of applied entries is the number of the places in the history where the process has one. |
| `ConcurrentAnswers.UpdateReturnsCount` | src/table.rs:764-782 | An update over several keys returns the number of its entries that were applied, or the error of its last entry. |
| `ConcurrentAnswers.InsertReturnsAnswer` | src/table.rs:531-549 | An insertion returns that it inserted, exactly if its entry stores the record, or the refusal of its entry. |
| `ConcurrentAnswers.ProgramSplits` | src/table.rs:467-782 | A program is its calls one after the other: the first one takes its entries and answers as if it were alone, and the rest goes on from there as a program of its own. |
| `ConcurrentCounting.FoldCounts` | tests/test_table.rs:264-281 | With closures that count up below a limit, the value is the first one plus the number of applied updates. |
| `ConcurrentCounting.FoldFits` | tests/test_table.rs:264-281 | With closures that keep fitting records fitting, every record of the history fits its slot. |
| `ConcurrentCounting.StepKeepsCount` | tests/test_table.rs:264-281 | Each step moves one call on the key from those to come to those applied, or none; it drops calls only where closures may make records too big. |
| `ConcurrentCounting.AppliedIncrementsAddUp` | tests/test_table.rs:246-319 | At every moment of every interleaving, also with inserts and rejected updates, the record is at its first value plus the number of its updates applied so far, if the counter can count the calls asked for. |
| `ConcurrentCounting.IncrementsAddUp` | tests/test_table.rs:246-319 | Once all have finished, the record is at its first value plus the number of all calls on its key, if the counter can count that far, the records fit at the start and closures keep fitting records fitting. |
| `ConcurrentExample.TwoProcessesCount` | tests/test_table.rs:246-319 | A table of products with names of any length, two processes and a run that meet all premises: the stock ends up two higher. |
| `ConcurrentKeys.StepKeepsKeys` | src/table.rs:531-549 | As long as no two processes insert the same new key, the keys of the index stay unique at every step. |
| `ConcurrentKeys.FinishedRunIsTable` | src/table.rs:467-549 | Such a run leaves a valid table, in which each key has the record of the history. |
| `ConcurrentHistory.PendingIsLast` | src/table.rs:477-481 | An update that holds its lock is the last of its slot in the history. |
| `ConcurrentHistory.StepKeepsHistory` | src/table.rs:467-549 | Every entry of the history, also of a call that ended early, is one the sequential map would make with the same answer. |
| `ConcurrentReplay.MapAnswersInsert` | src/table.rs:531-549 | The answer of an insertion depends only on the keys present; it changes the map only when it is accepted. |
| `ConcurrentReplay.HistoryReplays` | src/table.rs:467-549 | Replaying a settled history on the map gives its records and its answers. |
| `ConcurrentReplay.ConcurrentRunRefinesMap` | src/table.rs:467-549 | Every finished interleaving of inserts and updates without a race on a new key has made exactly the calls of its programs, with the answers, counts and contents of the same calls made one after the other. |
| `ConcurrentRace.RunsUpTo` | src/table.rs:467-549 | A process can do its jobs up to any that inserts the key, and leaves the key absent and the room that it does not need. |
| `ConcurrentRace.RepeatStays` | src/table.rs:531-549 | Without removals, a key that is in the index twice stays there twice. |
| `ConcurrentRace.RacingInsertsRepeatKey` | src/table.rs:535-538 | Wherever in their programs two processes insert the same new key, with room, some interleaving of all programs ends with two entries of that key. |
| `ConcurrentRace.UniqueExactlyWithoutRace` | src/table.rs:535-538 | With table lock and room, all interleavings keep keys unique exactly if no two processes insert the same new key. |

## Left out

- Operating system: `shm_open`, `mmap`, `ftruncate`, file descriptors, `open` and `destroy`, alignment errors, and generation of semaphore keys. Memory is given, zero-filled and as long as the layout needs.
- Memory size: the source reserves `slot_size * capacity` bytes and forgets the header in front of slot 0 (src/internal/slot.rs:48-51); the model assumes room for the header too.
- Bucket array: an array of its own with one entry per bucket. The source lays it out in front of the nodes and passes its length in bytes (src/internal/index.rs:48-56).
- Allocator header: the four header words are object fields and not bytes of the memory. Handles opened twice on one memory are modelled only in the concurrent half.
- SharedTable.Table.CreateWithSize: requires a capacity of at least 1; with capacity 0 the source would take a remainder by zero in `hash` (src/internal/index.rs:151).
- Serialization and hash: any partial serialization with a matching deserialization, any hash function. Bytes of a record that do not decode are an error as in the source. Keys are plain data of one fixed size.
- Closures: total functions on records. In the concurrent half the result of an `update_with_lock` closure stands as the record that it met, of which it is a function. Panics in closures, and closures that call the table again, are not modelled.
- Errors: only the outcomes that decide control flow. Interrupted or failing system calls (EINTR, EIDRM) are not modelled.
- Semaphores.SemaphoreSet.TryLock: as a method of one process it is not called where it would block. Blocking and many processes are the subject of the transition systems.
- Guard scopes: what runs while a lock guard is alive is a method of its own (`InsertLocked`, `UpdateLocked`, `RemoveLocked`), and the guard is dropped behind it.
- Concurrent `remove`, `find` and iteration on data: the code changes the shared free list under a record lock and reads records without one, so nothing is claimed of their data. Their locks are in the protocol half.
- SlotMemory.Slots.Update: requires a slot in use. On a free slot the source would mark it occupied and leave it on the free list; the table and the index never do that, which is proved at their calls.
- SlotMemory.Slots.Remove: requires a slot in use, for the same reason; on a free slot the source would put it on the list twice.
- HashIndex.Index.constructor: requires at least one slot, like the table.
- Concurrent inserts of one new key: the duplicate check comes before the table lock (src/table.rs:535-538), and `UniqueExactlyWithoutRace` shows what follows. Runs without such a race are required where unique keys or the map are claimed; lockstep and lost updates need no such condition.
- Protocol half: a lookup may return any position and a step on memory may fail, but every step ends. Accesses to slots past the memory, to which positions left behind by concurrent removals could lead, are not modelled.
- Step size: a step writes at most one header field, one slot or one chain, and reads one slot or one chain; the first step of an insertion under the table lock reads `count`, `first_free` and the link of the first free slot together. Each such read and write is inside a lock that excludes every other process from the same data. Bytes of one slot are not torn.
- Process exit in the middle of a change to data: covered for the semaphores, not for the memory.
- `update_many` as a lazy iterator over keys: the keys are a sequence.
- `Offset::set`, which does not match the other conversions and is not used; `is_occupied`, `capacity`, debug output and examples: simple or unused.
