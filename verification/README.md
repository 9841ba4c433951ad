# CCANN in Dafny

A model of the data structures and protocols of CCANN, a crash-consistent graph index for
approximate nearest neighbour search, with proofs of what they guarantee. `dafny verify
dfyconfig.toml` checks the whole project.

The modules follow the system:

- **Soft Insert** (`SoftInsert`): the write ordering of concurrent inserts into persistent memory, as
  a state machine with stores, flushes, fences and crash images.
- **Disk layout** (`PageLayout`, `SlotOrder`, `Allocator`, `Commit`, `Recovery`, `Relocation`,
  `CrashRecovery`): locations and pages, the order in which free slots are given out, the slot
  allocator with its maps, moving ids to new slots, node records as
  bytes, rewriting a node's neighbours out of place, rebuilding the allocator from the persistent
  location array, and recovery after a crash of Soft Insert.
- **Search** (`Pool`, `Search`, `GraphSearch`): the bounded candidate pool, best-first search and beam
  search.
- **In-memory updates** (`Prune`, `Consolidation`, `Compaction`, `DynamicIndex`, `Insertion`):
  alpha-pruning, rewiring around deleted points, in-place compaction, the tag bookkeeping, and an
  insertion from the reserved slot to the back links.
- **Compression** (`ProductQuantisation`): tables, lookup, coding and distances between codes.
- **Concurrency** (`FreeList`, `DequeueTickets`, `LockTable`): the lock-free free list and ticket
  protocol of the queue, and ordered locking through a table of short-lived locks, each as a state
  machine over single atomic steps.
- **Hash tables** (`RobinHash`, `CuckooBuckets`, `CuckooMap`, `CuckooTable`, `CuckooPath`,
  `CuckooInsert`): robin-hood hashing, and the cuckoo map with lazy doubling, path search and
  insertion by displacement.
- `Arith`, `Basics` and `Bits` hold what the others share.

## Reading the model

Code that updates an object is a class whose methods are proved against functions of the old
state; code that only computes is functions and lemmas; a protocol between threads is a state
machine whose theorems hold in every state that any interleaving reaches. Atomic operations are
sequentially consistent. Distances are real numbers. Hash functions, metrics, the distances of a
query, and the way an over-long adjacency is pruned on disk are parameters.

## What does not hold, and when it does

Ten properties that the code or its documentation suggests are not true of the code. The model
keeps the code's behaviour, gives an input that shows the failure, and proves the exact condition.

1. *A crash at any moment of Soft Insert leaves a consistent index.* A neighbour's old slot is
   freed in DRAM while its persistent location entry may still lead there. When a later insert is
   given that slot, a crash right after its first store leaves the neighbour with a torn record
   (`OldSlotReused`). Every crash of a run, also one right after a commit store, leaves a
   consistent index if and only if every step meets `Guard` (`SurvivesExactly`): no record is
   stored where recovery may follow an entry to, no entry is stored or queued for a record that its
   flush does not cover, no new entry is stored while an id between the checkpoint and its own may
   still be absent, and only id 0 is put at location 0.
2. *Recovery finds every id that it looks up.* It looks up all ids from the checkpoint to the largest
   one it loaded, and traps on an absent one. If an insert with a larger id finishes before one with a
   smaller id has stored its entry, a crash leaves such a gap (`LaterIdFirst`, `SkippedIdMissing`),
   and from any array with a gap the repair loop stops there (`MissingIdStops`). The third guard
   above excludes gaps, and is necessary (`EarlyEntryStops`).
3. *A second crash during recovery is harmless.* Repairs move ids in DRAM and do not write the location
   array, but reuse the slots they leave. With one node a page and two ids that name each other,
   the repairs of both put the vector of id 0 where the array leads id 1 (`SecondCrashMisreads`,
   and `TwoRepairs` for all such records and all hints). Which slots a repair writes is a function
   of the allocator before it, `Answer`; it leaves everything that the array leads to as it was if
   and only if no copy for a location of the array differs from what is there, above all if the
   answer has no location of the array (`RepairSeen`). For the whole loop it is enough that the array
   leads only to pages that are left alone, as with `NO_POLLUTE_ORIGINAL` (`RepairAll`, `Restart`).
4. *Flushing a record reaches all its cache lines.* The flushed length leaves out the count word; it
   covers the record exactly under the condition in `FlushCoversRecord`, and never for 128 floats
   with 32 neighbours (`FlushMissesLastLine`).
5. *Recovery restores the id map.* An id other than 0 at location 0 is taken for absent
   (`LocationZeroIsLost`); `LoadRestores` gives the exact condition.
6. *Recovery restores the allocator.* Pages are rebuilt for as many locations as there are ids, not up
   to the largest location (`SparseIsNotRebuilt`); the constructor `Recovered` states when the
   allocator's invariant holds afterwards. Pages that are missing do no harm to the records: a
   weaker invariant, `Guarded`, holds whenever no two ids share a location, and allocation, commit
   and repair keep it.
7. *A request for no slots changes nothing.* It reserves and returns every queued page that is not
   left alone, and holes of hinted pages, and then moves the frontier back by as many whole pages,
   over live ones (`ZeroAllocationBreaks`). `AllocLoc` gives their number in terms of the state before,
   `Surplus`; the allocator's invariant survives exactly if it is less than a page has slots. The
   repair of a node without neighbours makes such a request, and fails exactly if the number is not
   zero (`RelocateNeighbours`).
8. *The static check on cuckoo path codes is sufficient.* It bounds the number of slot sequences but
   not the starting bucket's bit (`StaticCheckTooWeak`); `RoundTrip` gives the exact bound.
9. *A full in-memory index grows.* With at most one slot, growth by half adds nothing and the insert
   crashes (`OneSlotFails`); `InsertPoint` states exactly when it succeeds.
10. *A writer holds a vector alone.* An insert appends its target to the neighbours and then unlocks the
   target twice. If another thread locks it in between, the second unlock takes that lock away, and
   a third thread gets it, too (`TwoWriters`). The second unlock does nothing if and only if nobody
   holds the lock by then (`UnlockByStranger`); runs in which no lock is given back twice keep
   writers alone (`RunInv`).

## Model

| member | source | states |
|---|---|---|
| `SoftInsert.StepInv` | src/update/direct_insert.cpp:402-787 | every atomic step of every insert and of the commit thread keeps the protocol invariant, and a guarded one keeps every entry leading to a persistent record of its id |
| `SoftInsert.SafeExactly` | src/update/direct_insert.cpp:402-787 | a step from a safe state leads to a safe one, and to one that no crash harms, if and only if its guard holds |
| `SoftInsert.SurvivesExactly` | src/update/direct_insert.cpp:402-787 | over every run and interleaving, with stored and with queued entries: every crash image of every state, and of every state right after a commit store, is consistent if and only if every step is guarded |
| `SoftInsert.SurvivesCrashes` | src/update/direct_insert.cpp:402-787 | a crash at the end of a guarded run leaves an index in which every entry leads to a whole record of its id, every named neighbour has an entry, no finished insert is lost, and no id from the checkpoint to a loaded one is missing |
| `SoftInsert.FinishesAlone` | src/update/direct_insert.cpp:402-787 | from every state of every run an insert that can begin has a run to its end without other threads; after it the id is published, its record and the copies are in their slots as written, and the ids lead to them |
| `SoftInsert.ReuseTears` | src/update/direct_insert.cpp:402-449 | a record stored where recovery may follow an entry to makes a crash image inconsistent at once |
| `SoftInsert.UncoveredEntryTears` | src/update/direct_insert.cpp:463-466 | an entry stored for a record that its flush does not cover does so, too |
| `SoftInsert.EarlyEntryStops` | src/ssd_index.cpp:575-581 | an entry stored while a smaller id that recovery looks up may be absent leaves, by a crash, an image on which recovery stops |
| `SoftInsert.LocationZeroLoses` | src/update/direct_insert.cpp:719-733 | a new node at location 0 is lost by a crash after its second fence |
| `SoftInsert.BadPublish` | src/update/direct_insert.cpp:736-780 | a neighbour published at location 0, or with a version that its flush does not cover, is lost or torn by a crash now or after the next commit store |
| `SoftInsert.OldSlotReused` | src/update/direct_insert.cpp:736-780 | a reachable state, for both ways of publishing, in which the allocator regards a moved neighbour's old slot as free and giving it to the next insert breaks crash consistency at its first store there |
| `SoftInsert.LaterIdFirst` | src/update/direct_insert.cpp:402-787 | a run, for both ways of publishing, in which id 2 is finished and a crash leaves an array that holds id 2 and not id 1 |
| `SoftInsert.SafeImages` | src/update/direct_insert.cpp:463-466 | no crash image of a safe state shows a missing, torn or foreign record, a dangling neighbour, a lost finished insert or a missing id below a loaded one, when read as recovery reads it |
| `SoftInsert.FenceKeeps` | src/update/direct_insert.cpp:719-733 | the second fence publishes the new id only once its entry and all neighbour copies are persistent |
| `SoftInsert.CommitStoreKeeps` | src/update/direct_insert.cpp:1687-1713 | storing queued entries in any order keeps the invariant and all references good |
| `SoftInsert.InitInv` | src/ssd_index.cpp:504-570 | an index at rest whose entries lead to whole records and have no gaps is a safe starting point |
| `SoftInsert.FlushCoversRecord` | src/utils/linux_aligned_file_reader.cpp:499-504 | the flush of a record's vector and adjacency bytes writes back every line of the record, count word included, if and only if the alignment condition holds |
| `SoftInsert.FlushMissesLastLine` | src/utils/linux_aligned_file_reader.cpp:499-504 | a record of 128 floats and 32 neighbours is not covered, wherever it is |
| `CrashRecovery.Recover` | src/ssd_index.cpp:504-570 | from any crash image of any guarded run, recovery finds every finished insert with a sound record and every id from the checkpoint to the largest one, and rebuilds an allocator that overwrites no record; its full invariant holds if and only if the pages for the number of ids reach the largest location |
| `CrashRecovery.Restart` | src/ssd_index.cpp:504-753 | loading and repairing together, from any crash image of any guarded run, with all pages rebuilt or not: with a neighbour in every record and pruning that keeps some, the repair loop completes; it leaves an allocator that overwrites no record, the same ids and vectors, and records that name only ids that exist; if the array leads only to pages that are left alone, its records are as before and inserts can safely start from there |
| `CrashRecovery.ResumeExactly` | src/ssd_index.cpp:504-570 | the entries and records of a crash image are a safe starting point for further inserts if and only if the image is consistent |
| `CrashRecovery.MissingIdStops` | src/ssd_index.cpp:504-581 | recovery from any array in which an id between the checkpoint and the largest one is missing: the repair loop fails, at that id or before |
| `CrashRecovery.SkippedIdMissing` | src/ssd_index.cpp:512-536 | the array left by inserting id 2 before id 1 is such an array |
| `CrashRecovery.RepairSeen` | src/ssd_index.cpp:623-753 | one repair, in any state of the allocator and for any location array: it writes exactly the locations that the allocator has first, and what the array leads to is unchanged if and only if no copy for one of its locations differs from what is there |
| `CrashRecovery.TwoRepairs` | src/ssd_index.cpp:504-753 | the array [0, 1] with one node a page, both ids naming each other: after both repairs the array leads id 1 to the vector of id 0, for all records and hints |
| `CrashRecovery.SecondCrashMisreads` | src/ssd_index.cpp:504-753 | one such disk, written record by record, before and after |
| `PageLayout.SectorsSound` | include/ssd_index.h:197-203 | page and slot numbers are a bijective numbering of locations |
| `PageLayout.MapsByLoc` | include/ssd_index.h:645-652 | ids and live slots point at each other if and only if the same holds location by location |
| `PageLayout.TookMaps` | include/ssd_index.h:698-798 | allocating slots disturbs no live slot |
| `SlotOrder.FillRow` | include/ssd_index.h:766-775 | the slots taken from a page are its first free ones, in order, as many as are asked for |
| `SlotOrder.FreeSlotsAre` | include/ssd_index.h:766-775 | the free slots of a page in ascending order: exactly the free ones, each once, as many as there are holes |
| `SlotOrder.QueueSlotsAre` | include/ssd_index.h:711-738 | what rule 1 offers is exactly the free slots of the queued pages that may be used, page after page in the order of the queue and ascending within a page |
| `SlotOrder.HintSlotsAre` | include/ssd_index.h:740-781 | what rule 2 offers is exactly the free slots of hinted pages that may be used, were not used before, and have the threshold of holes, or any hole when compacting |
| `SlotOrder.GivesSame` | include/ssd_index.h:749-760 | whether a hinted page still gives slots can be told from the layout before the request and the pages used so far |
| `SlotOrder.AnswerAbove` | include/ssd_index.h:810-870 | every location of an answer is on a page that may be used, or from the frontier on |
| `Allocator.PageAllocator.Equal` | src/search/page_search.cpp:106-142 | the equal mapping establishes the invariant: id i at location i, the rest of the last page free, the frontier page-aligned |
| `Allocator.PageAllocator.Recovered` | src/ssd_index.cpp:504-566 | rebuilding from the location array establishes the invariant if and only if no two ids share a location and the pages for the number of ids reach the page of the largest location, and the weaker invariant that protects all records if and only if no two ids share a location |
| `Allocator.PageAllocator.TakeEmpty` | include/ssd_index.h:711-738 | rule 1: a queued page is wholly free, so the page-not-empty crash is not reached; the slots taken are the free ones of the usable queued pages in the order of the queue, cut off at the number asked for |
| `Allocator.PageAllocator.TakeHints` | include/ssd_index.h:740-781 | rule 2: then the free slots of the hinted pages with enough holes, each page once, in the order of the hints; the pages to read are those that had an occupant |
| `Allocator.PageAllocator.TakeNew` | include/ssd_index.h:783-797 | rule 3: the slots that are still missing are the next ones from the old frontier on, in order, and the frontier ends page-aligned behind them |
| `Allocator.PageAllocator.AllocLoc` | include/ssd_index.h:698-798 | for n > 0 exactly the first n locations in order of the queue, the hints and the frontier, as a function of the state before; they are distinct, every other slot is unchanged, and the read set is exactly the pages that already had an occupant; for n = 0 the number of slots returned is that of the holes of the usable queued and hinted pages before, and the invariant survives if and only if it is less than a page has slots |
| `Allocator.OldSlotReturned` | include/ssd_index.h:711-738 | once an id has moved, the slot it left is the first one that the next request returns |
| `Allocator.ZeroAllocationBreaks` | include/ssd_index.h:698-798 | with one page queued, a request for no slots breaks the invariant |
| `Allocator.PageAllocator.SetLoc2Id` | include/ssd_index.h:653-664 | opens a missing page with free slots and sets one slot |
| `Allocator.PageAllocator.EraseLoc2Id` | include/ssd_index.h:666-682 | frees one slot, and queues its page exactly when nothing is left on it, never twice; a page that is not in the table is entered first, with id 0 in its other slots |
| `Allocator.PageAllocator.PointOne` | src/ssd_index.cpp:739-746 | one step of the unlocked id map loop of a commit, between any sections of other threads: the invariant covers the commit that has got this far next to any others in flight |
| `Allocator.PageAllocator.PointAt` | src/ssd_index.cpp:736-746 | the id map after all moves, and the locations they replaced, also when ids repeat |
| `Allocator.PageAllocator.EraseAndSet` | include/ssd_index.h:686-695 | the second half of any commit in flight, with other commits before, between and after, also where pages are missing: no id's slot is free; with all pages in place the maps agree again for its ids; exactly its new slots stop being reserved, and every page that became empty is queued |
| `Allocator.PageAllocator.SetAll` | include/ssd_index.h:689-691 | all new slots become live for their ids and nothing else changes |
| `Allocator.PageAllocator.CommitMoves` | include/ssd_index.h:686-695 | both halves together: no id's slot is free, and if the two maps were mutually inverse they stay so; exactly the new slots stop being reserved, and every page that became empty is queued |
| `Commit.FlightGrows` | src/ssd_index.cpp:739-746 | a commit that moves one more id, which no other commit in flight moves, to a reserved slot stays in order next to the others |
| `Commit.FlightEnds` | include/ssd_index.h:686-695 | finishing one commit in flight, in any order, leaves the others as they are |
| `Commit.CommitAccounted` | src/ssd_index.cpp:736-746 | after any sequence of moves every old and new location is current for exactly one id or stale exactly once |
| `Commit.SetPhase` | include/ssd_index.h:686-691 | between setting and erasing, the maps agree up to the stale slots |
| `Commit.EraseStale` | include/ssd_index.h:692-694 | erasing a stale slot brings the maps one step closer to agreement |
| `Commit.SetGuards` | include/ssd_index.h:686-691 | between setting and erasing, also where pages are missing, every id has a slot of its own that is not free, and so have the stale ones |
| `Commit.EraseGuards` | include/ssd_index.h:666-682 | erasing a stale slot frees no id's slot, even if its page was missing and appears with zeros |
| `Recovery.LoadIds` | src/ssd_index.cpp:512-536 | the load loop: exactly the accepted entries, an inverse map, their number, the largest location and the largest id |
| `Recovery.LoadRestores` | src/ssd_index.cpp:517-532 | loading gives back the persisted id map if and only if the array is empty, or id 0 exists and no other id is at location 0 |
| `Recovery.LocationZeroIsLost` | src/ssd_index.cpp:518-531 | a map whose id 1 is at location 0 is not restored |
| `Recovery.SparseIsNotRebuilt` | src/ssd_index.cpp:543-566 | two ids with a hole between them: the later one's page is not rebuilt |
| `Recovery.RestorePages` | src/ssd_index.cpp:546-561 | the rebuilt pages mirror the inverse map |
| `Recovery.RestoredMaps` | src/ssd_index.cpp:543-561 | if every location is on a rebuilt page, the maps agree if and only if no two ids share a location |
| `Recovery.PagesEnough` | src/ssd_index.cpp:543-546 | if no two ids share a location, never more pages are rebuilt than lie before the frontier |
| `Relocation.RecordsApart` | include/ssd_index.h:181-199 | the byte ranges of distinct locations are disjoint, with several nodes per sector and with several sectors per node |
| `Relocation.RecordInPage` | include/ssd_index.h:181-199 | with several nodes a sector, the record of a location lies wholly in the sector of its page, at the slot of its offset, as the allocator numbers them |
| `Relocation.WriteNode` | src/ssd_index.cpp:722-731 | reading back a written record gives the same node, and no other byte changes |
| `Relocation.ReadAgree` | include/ssd_index.h:157-164 | a record with an admissible degree depends on its own bytes only |
| `Relocation.Link` | src/ssd_index.cpp:633-734 | an adjacency that names the id stays, unless it is too long; one with room gets the id at the end; any other is pruned with it at the end |
| `Relocation.RewriteNeighbours` | src/ssd_index.cpp:623-734 | every neighbour has a copy at its new location, with the same vector and linked: its adjacency as it was if it named the id, followed by the id if there was room, and otherwise pruned with the id as last entry; every record in use is as before |
| `Relocation.ContentKept` | src/ssd_index.cpp:623-753 | read through the id map, every vector and every non-neighbour's adjacency is unchanged, and each neighbour's adjacency is the linked one |
| `Relocation.RelocateNeighbours` | src/ssd_index.cpp:576-753 | fails if and only if the id or a neighbour does not exist, or it has no neighbours and the allocator returns slots all the same; otherwise every neighbour that did not name the id has its old adjacency followed by the id, pruned if there was no room, one that did is unchanged if not too long, and all other content stays; keeps the allocator's invariant, all ids and degrees within bounds, and writes exactly the locations that the allocator has first, none of them in use |
| `Relocation.RepairAll` | src/ssd_index.cpp:576-753 | the repair loop stops at the first missing id or at a node without neighbours, and if all nodes have some completes if and only if no id is missing; contents go through the single repairs, after each of which the repaired id is named by every neighbour that had room; vectors stay, locations that were not written keep their records, and if the old id map leads only to pages that are left alone no repair writes there |
| `Relocation.NamedAtEnd` | src/ssd_index.cpp:576-753 | a neighbour that had room in every repair names the repaired id at the end of the loop, too |
| `Pool.Bisect` | include/neighbor.h:144-150 | the two probes enclose the insertion point, and every equally distant entry is at or before the right one |
| `Pool.ScanEqual` | include/neighbor.h:153-161 | finds the id if and only if it is anywhere in the pool, given that equal ids have equal distances |
| `Pool.InsertIntoPool` | include/neighbor.h:132-165 | rejects exactly the ids already present and otherwise inserts at the returned place, keeping all entries and the order |
| `Pool.SortOrdered` | src/index.cpp:607-608 | the sorted list is in order of distance and then id |
| `Pool.SortKeeps` | src/index.cpp:607-608 | sorting permutes the entries, and ids stay distinct |
| `Search.InsertBest` | src/index.cpp:651-659 | after an insertion the pool is again the L closest of all nodes seen |
| `Search.Offer` | src/index.cpp:650-659 | offering a new node, kept or not, leaves the pool the L closest of all nodes seen |
| `Search.OfferAll` | src/index.cpp:638-661 | offering all neighbours of a node; everything before the smallest touched position is still expanded |
| `GraphSearch.Starts` | src/index.cpp:582-608 | the distinct initial ids, at most L, as a sorted pool |
| `GraphSearch.Expand` | src/index.cpp:616-668 | expanding one entry and moving the cursor never skips an unexpanded entry |
| `GraphSearch.IterateToFixedPoint` | src/index.cpp:577-671 | the search ends, every pool entry was expanded, the pool is the L closest of all nodes seen, and each expanded node is reported once |
| `GraphSearch.Frontier` | src/search/beam_search.cpp:215-230 | the frontier is, in pool order, the flagged entries from the cursor up to some position: W of them, or all there are; exactly their flags go off |
| `GraphSearch.FlaggedOrder` | src/search/beam_search.cpp:215-230 | two ids of a frontier stand in the order of their pool entries |
| `GraphSearch.ExpandFrontier` | src/search/beam_search.cpp:303-410 | reading a frontier keeps the pool the L closest seen, and records each node read with its exact distance |
| `GraphSearch.Round` | src/search/beam_search.cpp:198-452 | a round expands something new or only moves the cursor, and skips nothing |
| `GraphSearch.BeamSearch` | src/search/beam_search.cpp:44-519 | for every width of at least one the beam search ends like the best-first search; its answer is the prefix of the nodes read, in order of exact distance; with width zero it reads nothing |
| `Search.Exact` | src/index.cpp:613-669 | with a pool as large as the reachable set, a finished search has seen, kept and expanded exactly the reachable nodes |
| `GraphSearch.PoolIsExact` | src/index.cpp:613-669 | then the first K entries are K nearest among all reachable nodes |
| `GraphSearch.AnswerIsExact` | src/search/beam_search.cpp:469-519 | the same for the beam search's answer under the exact distance, for every width of at least one |
| `Prune.Occlude` | src/index.cpp:729-737 | choosing a candidate raises each later factor to that of its worst chosen occluder, up to alpha |
| `Prune.Pass` | src/index.cpp:721-739 | one pass at its threshold: whatever it picks is picked while every nearer candidate was picked or is occluded beyond the threshold, and when it leaves room every candidate is |
| `Prune.OccludeList` | src/index.cpp:711-742 | at most R candidates, each once; each is picked in a pass whose threshold is at most alpha, at a moment when every candidate was picked or is occluded beyond the threshold of the pass before, and every nearer one beyond its own, which it is not itself; with room left, every candidate not picked is occluded beyond the last threshold, the highest power of 1.2 up to alpha |
| `Prune.Saturate` | src/index.cpp:777-783 | what was left out is added nearest first until the list is full or holds every candidate |
| `Prune.PruneNeighbors` | src/index.cpp:745-783 | crashes exactly on an empty pool; without saturation the list holds an id if and only if pruning selects it and it is not the node itself, in the order of selection, one less if the node was selected; with saturation the nearest others follow |
| `Prune.OthersMean` | src/index.cpp:771-774 | a list of the selected ids without the node itself: membership, length and order |
| `Consolidation.Gather` | src/index.cpp:1410-1426 | exactly the remaining neighbours and the remaining neighbours of deleted neighbours, and whether there is a deleted one |
| `Consolidation.RewireNode` | src/index.cpp:1409-1445 | a node without deleted neighbours is unchanged; otherwise its new adjacency is, in order, all ids but its own that pruning selects from all its candidates at their distances |
| `Consolidation.RewireAll` | src/index.cpp:1401-1447 | rewired in place and in any order, every remaining node comes out as if it had been rewired first |
| `Consolidation.NoDeadEdges` | src/index.cpp:1401-1447 | after rewiring no edge of a remaining node reaches a deleted or empty slot |
| `Compaction.NewLocations` | src/index.cpp:1511-1520 | the new numbers are the ranks of the tagged slots |
| `Compaction.RankMono` | src/index.cpp:1513-1520 | the renumbering preserves the order of the tagged slots |
| `Compaction.RankOnto` | src/index.cpp:1513-1520 | every new number below the number of tags is used |
| `Compaction.Renumber` | src/index.cpp:1549-1567 | renumbering stops if and only if an edge goes to a slot that does not survive |
| `Compaction.CompactSlots` | src/index.cpp:1545-1582 | the in-place move crashes if and only if a surviving slot has an edge to an untagged one; otherwise every surviving slot is at its new place, renumbered, with its vector |
| `DynamicIndex.Index.Load` | src/index.cpp:345-353 | a loaded index satisfies the invariant after the frozen point moved to the end; each adjacency keeps its length, each position its target, up to the moved frozen point, and so two points are joined if and only if they were |
| `DynamicIndex.Retarget` | src/index.cpp:1649-1652 | the loop over one adjacency: exactly the positions with the old number get the new one |
| `DynamicIndex.RedirectedEdges` | src/index.cpp:1647-1652 | between points other than the moved one, the edges before and after are the same |
| `DynamicIndex.Index.LazyDelete` | src/index.cpp:1812-1844 | exactly the given tag goes, its slot becomes deleted, and the invariant holds |
| `DynamicIndex.Index.ReserveLocation` | src/index.cpp:1621-1644 | the first empty slot; the branch for slots that are not compacted is not reached |
| `DynamicIndex.Index.Resize` | src/index.cpp:1679-1705 | there are no empty slots, as the code asserts; vectors stay, each position of each adjacency keeps its target or follows the frozen point to the new end, and two points are joined if and only if they were |
| `DynamicIndex.Index.InsertPoint` | src/index.cpp:1708-1763 | succeeds if and only if there is a slot or the index has more than one; then the tag has the vector at a slot that nothing points at, every other point has its vector and, position by position, its edges, up to the moved entry point, and a replaced point is deleted |
| `DynamicIndex.OneSlotFails` | src/index.cpp:1734-1752 | inserting a second point into a full index with one slot fails |
| `DynamicIndex.Index.ConsolidateDeletes` | src/index.cpp:1380-1459 | the counts match the asserts, the graph is rewired, and all is ready for compaction |
| `DynamicIndex.Index.CompactData` | src/index.cpp:1496-1610 | no crash; every tag and its slot content are at the new place and nothing deleted is left |
| `DynamicIndex.Index.Consolidate` | src/index.cpp:1464-1467 | consolidation keeps the invariant, leaves no deleted point, and yields the rewired graph under the renumbering |
| `DynamicIndex.ConsolidatedIsomorphic` | src/index.cpp:1545-1597 | through the tags, vectors, edges position by position, and slot order are those of the rewired graph |
| `DynamicIndex.Counts` | src/index.cpp:1389-1390 | tagged plus deleted is the number of points, and empty slots make up the rest |
| `DynamicIndex.RebuildTags` | src/index.cpp:1590-1598 | the rebuilt tag maps are mutually inverse and follow the moved slots |
| `Insertion.Expanded` | src/index.cpp:690-702 | the search for the new point expands at least one node, and only points in use other than itself |
| `Insertion.Neighbours` | src/index.cpp:1769-1788 | the search runs on the graph as it is and by the distances to the new point; the neighbours are, in order, what pruning selects from the nodes that it expanded, other than the point itself; the crash on an empty pool is not reached |
| `Insertion.HasNeighbours` | src/index.cpp:1792-1798 | a new point has at least one neighbour, as asserted, whenever R, C and alpha are at least one |
| `Insertion.BackLink` | src/index.cpp:804-842 | a neighbour that points at the new node is unchanged, one with room gets the edge, and a full one is pruned with the new node as a candidate |
| `Insertion.InterInsert` | src/index.cpp:790-846 | exactly the neighbours of the new node are linked back, each from its old adjacency, and nothing else changes |
| `Insertion.Insert` | src/index.cpp:1708-1808 | a whole insertion: it fails if and only if the index is full and cannot grow; otherwise the invariant holds, the tag has the vector, all other vectors stay, and the graph changes exactly by the links found by a search with the given distance on the vectors of the index, and their back links |
| `ProductQuantisation.Transpose` | include/pq_table.h:98-106 | the transposed table holds every centre coordinate at its place |
| `ProductQuantisation.PopulateChunkDistances` | include/pq_table.h:137-154 | each entry is the squared distance of the query to one centre over the chunk's dimensions |
| `ProductQuantisation.PqDistLookup` | include/ssd_index.h:55-92 | the looked-up sum of each stored code is its distance, chunk by chunk |
| `ProductQuantisation.DecodedExists` | include/pq_table.h:137-154 | every code stands for exactly one vector |
| `ProductQuantisation.CodeDistIsDistance` | include/pq_table.h:137-154 | that sum is the squared distance, in the original order of dimensions, to the vector that the code stands for |
| `ProductQuantisation.PermutedSum` | include/pq_table.h:146-151 | summing over the dimensions in permuted order is summing over all of them |
| `ProductQuantisation.ClosestCentre` | include/pq_table.h:213-226 | the centre with the least distance in the chunk |
| `ProductQuantisation.DeflateVec` | include/pq_table.h:213-229 | no code of any kind has a smaller summed distance |
| `ProductQuantisation.DeflateIsOptimal` | include/pq_table.h:213-229 | the coded vector is the closest of all vectors that have a code |
| `ProductQuantisation.AllToAll` | include/pq_table.h:108-123 | every cell of the flat table is the squared distance of two centres over one chunk |
| `ProductQuantisation.DistancesAllToAll` | include/pq_table.h:189-207 | the summed cells for each stored code |
| `ProductQuantisation.PairSumIsDistance` | include/pq_table.h:189-207 | that sum is the squared distance of the two coded vectors |
| `LockTable.SparseLockTable.TryLock` | include/v2/lock_table.h:24-52 | granted if and only if no writer holds the key nor, for a writer, any reader, however often the lock object was destroyed and made anew; a granted call adds one holder and a refused one changes nothing |
| `LockTable.SparseLockTable.Unlock` | include/v2/lock_table.h:79-94 | takes away one holder of the key; the lock object goes exactly with the last one, and the trap is never reached, also for keys that nobody holds |
| `LockTable.ToLockOk` | include/ssd_index.h:491-502 | the keys to lock are strictly ascending and exactly the given ones |
| `LockTable.HoldsWhatItAsked` | include/ssd_index.h:467-477 | reader or writer, in every run: a thread that got through its keys holds exactly those it was given |
| `LockTable.GetsAll` | include/ssd_index.h:467-477 | a thread whose remaining keys are all free for it gets them, one try each |
| `LockTable.StepInv` | include/v2/lock_table.h:24-94 | an entry exists if and only if somebody holds the key, it counts the holders, and a writer is alone; unlocking may go in any order, as long as no lock is given back twice |
| `LockTable.RunInv` | include/v2/lock_table.h:24-94 | in every state of every run in which no lock is given back twice |
| `LockTable.WriterExcludes` | include/v2/lock_table.h:24-94 | two threads that hold the same key are both readers, although lock objects come and go |
| `LockTable.UnlockIsSafe` | include/v2/lock_table.h:79-94 | whatever a thread unlocks has an entry with a positive count |
| `LockTable.UnlockByStranger` | include/ssd_index.h:479-486 | an unlock by a thread that no longer holds the key changes nothing if and only if nobody holds it; a single holder loses its lock, and a writer is let in beside it |
| `LockTable.TwoWriters` | src/update/direct_insert.cpp:753-817 | a run in which an insert unlocks its target twice and two other threads end up with its write lock |
| `LockTable.NoDeadlock` | include/ssd_index.h:506-525 | whenever some thread is not finished, some thread can advance |
| `FreeList.StepInv` | include/mpmc.h:1565-1644 | every atomic step keeps reference counts, list links and ownership consistent |
| `FreeList.NoNodeTwice` | include/mpmc.h:1565-1644 | in every reachable state the list has no repeated node and no node is both linked and held |
| `FreeList.SwingInstallsSuccessor` | include/mpmc.h:1595-1596 | a head exchange that succeeds installs the removed node's true current successor |
| `FreeList.TakeIsExclusive` | include/mpmc.h:1596-1603 | a node being returned is held, linked or returned by nobody else, and its should-be-on-list bit is clear as asserted |
| `FreeList.QuiescentNothingLost` | include/mpmc.h:1565-1644 | when no call is in progress every node is either held or on the list |
| `FreeList.GetsFirst` | include/mpmc.h:1578-1615 | in every reachable state, whatever the other threads are in the middle of, a thread that then runs alone gets the first node of the list, or nothing if it is empty, and leaves the rest as it is |
| `FreeList.NothingOnlyIfEmpty` | include/mpmc.h:1578-1615 | in every run, among any other threads: a call that ends without a node was in progress at a moment when the list was empty |
| `FreeList.PutsFirst` | include/mpmc.h:1565-1644 | with no other call in progress, a returned node becomes the first one |
| `DequeueTickets.StepInv` | include/mpmc.h:2065-2165 | every load and fetch-add keeps tickets, grants and claims consistent with the counters |
| `DequeueTickets.HeadNeverPassesTail` | include/mpmc.h:2374-2472 | in every run the head, with all claims still to come, stays at or below the tail |
| `DequeueTickets.EachIndexOnce` | include/mpmc.h:2682-2747 | every index below the head was handed to exactly one dequeue, and no other index to any |
| `DequeueTickets.QuiescentCounters` | include/mpmc.h:2065-2165 | with no dequeue in flight, the optimistic count less the overcommit is the head |
| `DequeueTickets.QuiescentNonEmptySucceeds` | include/mpmc.h:2065-2165 | a dequeue beside which only enqueues run, on a non-empty queue, gets no fewer elements than were there or than it asked for, whichever is smaller, none beyond what it asked for, and all from the head on |
| `DequeueTickets.NeverMoreThanAsked` | include/mpmc.h:2380-2385 | in every run a finished call has at most as many indices as it asked for |
| `DequeueTickets.AloneGetsWhatItAsks` | include/mpmc.h:2065-2165 | a dequeue that runs alone after any run ends, with exactly the smaller of what it asked for and what was there, from the head on |
| `RobinHash.Stretch` | include/tsl/robin_hash.h:1055-1071 | an entry far from home implies that the whole stretch from home is occupied at matching distances |
| `RobinHash.AbsentFrom` | include/tsl/robin_hash.h:1055-1071 | a bucket closer to its home than the probe ends the search soundly |
| `RobinHash.HasHole` | include/tsl/robin_hash.h:1055-1071 | a table with fewer entries than buckets has an empty bucket, so probes end |
| `RobinHash.ShiftKeeps` | include/tsl/robin_hash.h:1073-1097 | one backward shift keeps distances, order and contents up to the moving hole |
| `RobinHash.RobinTable.Find` | include/tsl/robin_hash.h:1055-1071 | finds exactly the entry that was inserted and not erased |
| `RobinHash.RobinTable.InsertValue` | include/tsl/robin_hash.h:1154-1181 | displacing along the probe stores exactly one more entry, and asks for growth if and only if the table is loaded enough and an entry beyond the first gave way to one 128 or more buckets from home |
| `RobinHash.RobinTable.InsertValueOnRehash` | include/tsl/robin_hash.h:1205-1222 | the same when entries are moved to a new table |
| `RobinHash.RobinTable.RehashImpl` | include/tsl/robin_hash.h:1184-1203 | rebuilding changes nothing stored and clears the request to grow |
| `RobinHash.RobinTable.Rehash` | include/tsl/robin_hash.h:986-989 | changes nothing stored, whatever count is asked for, and leaves buckets enough for the load factor |
| `RobinHash.RobinTable.GrowOnHighLoad` | include/tsl/robin_hash.h:1229-1238 | grows exactly if asked to or at the load threshold, then to at least twice the buckets; leaves room for the next insertion and changes nothing stored |
| `RobinHash.RobinTable.Insert` | include/tsl/robin_hash.h:1100-1144 | the stored map gains the entry exactly when the key was absent |
| `RobinHash.RobinTable.ShiftBack` | include/tsl/robin_hash.h:1084-1096 | closing the hole restores the table's order and keeps the rest |
| `RobinHash.RobinTable.Erase` | include/tsl/robin_hash.h:1073-1097 | removes exactly the key |
| `RobinHash.RoundUpLeast` | include/tsl/robin_growth_policy.h:143-158 | the bucket count is the least power of two that is large enough |
| `CuckooBuckets.AltInvolution` | include/libcuckoo/cuckoohash_map.hh:794-800 | the alternate bucket of the alternate bucket is the bucket itself |
| `CuckooBuckets.AltDiffers` | include/libcuckoo/cuckoohash_map.hh:794-800 | from 512 buckets on, the two buckets of every key differ |
| `CuckooBuckets.BucketsGrow` | include/libcuckoo/cuckoohash_map.hh:769-800 | doubling adds at most one bit on top of either bucket |
| `CuckooBuckets.LibcuckooSound` | include/libcuckoo/cuckoohash_map.hh:773-800 | libcuckoo's hashing meets what the map proofs ask of a bucket scheme |
| `CuckooBuckets.DestMine` | include/libcuckoo/cuckoohash_map.hh:1758-1802 | the bucket that a moved pair goes to is one of its two buckets in the doubled table |
| `CuckooMap.SplitRow` | include/libcuckoo/cuckoohash_map.hh:1758-1802 | every pair of a bucket goes to a free slot of the new bucket that is its own, and none is lost |
| `CuckooMap.DisplaceOk` | include/libcuckoo/cuckoohash_map.hh:1480-1545 | moving a pair to a free slot of its other bucket keeps every key in exactly one slot |
| `CuckooMap.NotPending` | include/libcuckoo/cuckoohash_map.hh:1004-1020 | a key whose two stripes were migrated is not waiting in an old bucket |
| `CuckooMap.InTwoBuckets` | include/libcuckoo/cuckoohash_map.hh:1149-1160 | a stored key is in one of its two buckets |
| `CuckooTable.CuckooHash.Size` | include/libcuckoo/cuckoohash_map.hh:334-344 | the sum of the stripe counters is the number of stored pairs, although single counters drift |
| `CuckooTable.CuckooHash.RehashLock` | include/libcuckoo/cuckoohash_map.hh:956-976 | migrating one stripe, in any order, keeps every stored pair |
| `CuckooTable.CuckooHash.LockTwo` | include/libcuckoo/cuckoohash_map.hh:1004-1020 | afterwards both stripes are migrated and the contents are the same |
| `CuckooTable.CuckooHash.Find` | include/libcuckoo/cuckoohash_map.hh:465-475 | answers as the abstract map does, whatever is still to be migrated |
| `CuckooTable.CuckooHash.TryInsert` | include/libcuckoo/cuckoohash_map.hh:1239-1256 | reports a duplicate if and only if the key is stored; otherwise adds exactly the pair, or reports that both buckets are full, and they are |
| `CuckooTable.CuckooHash.Erase` | include/libcuckoo/cuckoohash_map.hh:512-524 | removes the key's pair and nothing else |
| `CuckooTable.CuckooHash.Displace` | include/libcuckoo/cuckoohash_map.hh:1480-1545 | once its locks are taken, it moves if and only if the source slot holds a key of the given hash and the target slot is free; then the target holds exactly that pair, the source is free and nothing else changed; otherwise nothing changed; the stored pairs are kept |
| `CuckooTable.CuckooHash.FastDouble` | include/libcuckoo/cuckoohash_map.hh:1678-1756 | doubling, at once or lazily, keeps the stored pairs; it gives up if another thread was first |
| `CuckooPath.EncodeInjective` | include/libcuckoo/cuckoohash_map.hh:1554-1580 | paths of one length have different codes |
| `CuckooPath.Decode` | include/libcuckoo/cuckoohash_map.hh:1419-1440 | repeated remainders give back the slots and the starting bucket |
| `CuckooPath.RoundTrip` | include/libcuckoo/cuckoohash_map.hh:1554-1580 | sixteen bits carry all paths of a length if and only if twice the number of slot sequences fits |
| `CuckooPath.StaticCheckTooWeak` | include/libcuckoo/cuckoohash_map.hh:1554-1580 | nine slots and length five pass the static check but do not fit |
| `CuckooPath.CapacityIsTwoTrees` | include/libcuckoo/cuckoohash_map.hh:1582-1600 | the queue capacity is exactly two full search trees |
| `CuckooPath.SlotSearch` | include/libcuckoo/cuckoohash_map.hh:1635-1671 | the queue never exceeds its capacity; a result is a free slot at the end of its trail, and all shorter trails led to full buckets; without one the queue held both full search trees, and every slot of every bucket in them was occupied when looked at |
| `CuckooPath.AllFollowed` | include/libcuckoo/cuckoohash_map.hh:1635-1671 | a search without a result followed every path of fewer than the maximal number of slots from both buckets, to a full bucket |
| `CuckooPath.NoDetour` | include/libcuckoo/cuckoohash_map.hh:1635-1671 | if the table does not change, the path of a result visits no bucket twice |
| `CuckooPath.SearchAndDecode` | include/libcuckoo/cuckoohash_map.hh:1419-1440 | decoding a search result gives back the trail of the search; if the table does not change, a path is found if and only if some bucket within reach has a free slot, and it leads over used slots and different buckets to a free one |
| `CuckooInsert.StartInsert` | include/libcuckoo/cuckoohash_map.hh:1239-1256 | the first section adds the pair or reports a duplicate, or both buckets of the key are full |
| `CuckooInsert.SearchPath` | include/libcuckoo/cuckoohash_map.hh:1419-1440 | a search of a table that does not change reports it full if and only if every bucket within reach is full |
| `CuckooInsert.ReadNext` | include/libcuckoo/cuckoohash_map.hh:1442-1468 | reading one more slot of a path: each bucket is the other bucket of the key seen before it, and the path ends at the first free slot |
| `CuckooInsert.MoveNext` | include/libcuckoo/cuckoohash_map.hh:1480-1545 | one displacement along the path: it happens if and only if it still can, and otherwise the search starts again |
| `CuckooInsert.Finish` | include/libcuckoo/cuckoohash_map.hh:1258-1285 | the last section, in whatever state the table is by then: it goes back to searching if and only if the first slot could not be freed; otherwise, with both buckets locked, the pair is added if and only if the key is not there |
| `CuckooInsert.Step` | include/libcuckoo/cuckoohash_map.hh:1239-1545 | every section of an insertion, in any state of the table: only the one that ends with success changes the contents, by exactly the pair of a key that was absent; a duplicate is reported only of a key that is there; a changed table size ends the attempt; the table is called full only by a search that saw every bucket within reach full |
| `CuckooInsert.Insert` | include/libcuckoo/cuckoohash_map.hh:1239-1545 | over all sections of other threads before each of its own: if the insertion ends, its last section is the moment at which it took effect; if it ends with a full table, a search saw every bucket within reach full |
| `CuckooInsert.InsertAlone` | include/libcuckoo/cuckoohash_map.hh:1239-1545 | without other threads the insertion ends: a duplicate if and only if the key was there; a full table if and only if it was not and no bucket within reach had a free slot; in every other case the pair is stored, by displacement where both buckets were full |

## Left out

- PageAllocator: the sixteen-slot capacity of a page array and the 32-bit width of ids and locations are not modelled; locations are unbounded.
- CommitMoves: `PointAt` directly followed by `EraseAndSet`; these two are stated for any commits in flight.
- AllocLoc: for the compacting variant the read set may also hold hinted pages that yielded no slot, as in the code, and the caller's hint list, which it shortens, is not modelled.
- InsertPoint: growth is computed with whole numbers, not with the rounding of a single-precision product.
- Insertion.Insert: inserts and searches run one at a time, and the candidate list of a search has room for at least one entry; the locks on single adjacencies are not modelled.
- LazyDelete: the variant for a set of tags repeats it and is not modelled; nor are the locks of the index class, whose methods run one at a time.
- IterateToFixedPoint: the graph does not change during a search, and the pool has room for at least one entry.
- BeamSearch: starts at the medoid, with a fixed list size and without time limit; the small in-memory index and the variable list size for deleted nodes are not modelled, nor is translating ids to tags.
- OccludeList: real arithmetic; the factor 1.2 is exact.
- PruneNeighbors: for distinct candidates, as all callers build them.
- PointOne: no other commit in flight moves the id, which the vector locks are for; `TwoWriters` is a run in which they do not keep others out, and what two commits of one id do then is not modelled.
- Restart: that a repair loop leaves the records of the array alone is stated for arrays that lead only to pages that are left alone; otherwise it is exact for each single repair, in `RepairSeen`.
- RepairAll: a node without neighbours stops it only if the allocator returns slots for it, which depends on the hints so far; the hints of each repair are a parameter.
- RelocateNeighbours: the repair of one inserted id while no commit is in flight; the pruning of over-long adjacencies is a parameter that respects the degree bound.
- DeflateVec: real arithmetic; the largest float is above every distance.
- SoftInsert: tags and compressed vectors are part of a record, entries are stored atomically, and deletes, the vector locks and the in-place variant are not modelled; the checkpoint from which recovery looks ids up is fixed, the index starts with id 0, as recovery requires, and which records a flush covers is a parameter, given by `FlushCovers` for a graph file.
- Recovered: does not model the repair of neighbours after loading, which is `RepairAll`.
- FreeList: memory orders weaker than sequential consistency and the 31-bit bound of the reference count are not modelled.
- DequeueTickets: indices and counters are unbounded, so their wrap-around is not modelled; nor are the blocks that hold the elements.
- PutsFirst: an add during another call may leave the node to that call, so it is stated for no other call in progress.
- LockTable: the keys to lock are distinct, so a target among its own neighbours is not modelled; waiting threads try again and again; fairness and the timeout message are not modelled.
- InsertAlone: for a table whose stripes are all migrated and path codes that fit; in the code the locks of the search migrate stripes on the way.
- CuckooInsert.Insert: the outer loop of the cuckoo map, which doubles a full table and tries again, is `FastDouble` and `Insert` in turn and need not end; it is not composed.
- FastDouble: copies of the table, iteration under the global lock and exceptions are not modelled.
- RobinTable: stored hashes, the shrinking and erasing of ranges, and the bound on the bucket count are not modelled.
- RoundUp: found by doubling instead of by smearing bits.
- The page cache, the journal, asynchronous I/O, the builders and partitioners, file formats other than node records and the location array, and the SIMD kernels would add mostly input and output, or restate the scalar code.
