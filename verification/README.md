# A verified model of three operating-system components

This project models three stateful components written in C and proves their central properties:

1. **Best-fit SLOB allocator** (`Project 3/patch_3`, the `BEST_FIT` build). A page keeps its free list inside the
   free memory: a block of several units stores its size and its link in its first two units, a block of one unit
   the negated link. `slob_alloc` looks for the block that leaves the least remainder over all pages of a size-class
   list, `slob_page_alloc` finds it again on the page that was chosen and carves the aligned request out of it.
2. **Deduplicating block store** (`Project 4/filesystem/our_lib.c`, driven by `bb_write` and `bb_unlink` in
   `bbfs.c`). A hashes file of 45-byte records counts the pointers to every block file; a user file is a list of
   3-digit ids. It has to look like a plain file system.
3. **Goodness scheduler** (`Project 2/schedule.c`). A circular doubly linked run queue with a head, running extremes
   found by traversals, an exponential burst average that is committed or taken back, and a choice by goodness.

Each component has a part on values (`slob_blocks`, `slob_memory`, `slob_heap`; `dedup_text`, `dedup_table`,
`dedup_model`; `sched_model`, `sched_ring`), classes whose methods work in place as the C code does and are proved
against it (`slob_page`, `slob_allocator`; `dedup_store`; `sched_queue`), and theorems about choices and whole runs
(`slob_effects`, `slob_runs`, `slob_accounting`; `dedup_properties`, `dedup_sharing`, `dedup_runs`, `dedup_leaks`,
`dedup_remount`; `sched_selection`, `sched_runs`, `sched_accounting`, `sched_waiting`, `sched_bursts`, `sched_examples`).

## Main results

- **Best fit.** Over all blocks of all pages of the class list, those skipped by the unit-count test and those never
  looked at after an exact fit included, the extent handed out leaves the fewest units of its block behind it, with
  ties going to the first page and the lowest address (`SlobAllocator.Allocator.ScanPages`,
  `SlobHeap.RunningPagesIsBest`, `SlobHeap.GlobalBestIsUnique`, `SlobEffects.AllocationIsBestFit`). A block fits exactly
  if it holds an aligned extent of the length, and the lowest one is taken (`SlobBlocks.FitsExactly`). The second scan
  finds the same block (`SlobAllocator.SamePageBest`).
- **Exact carving.** Exactly the extent handed out, which holds the bytes asked for with less than one unit to spare,
  leaves the free units; the in-band list stays sorted, disjoint and inside the page through head split, unlink and
  fragment; memory that was not free is not written, and no other page changes (`SlobPages.SlobPageAlloc`,
  `SlobPages.AllocationTakesExactly`, `SlobEffects.OnlyTheExtentIsTaken`).
- **Conservation.** In every run of allocations and frees, live extents are disjoint, a page is on a list exactly if
  it has free units, and the free-space counter plus all live units is the memory of all pages
  (`SlobRuns.RunsKeepHeapInv`, `SlobRuns.LiveAllocationsDisjoint`).
- **The store is a file system.** Over every run of permitted creations, block writes and unlinks, every path reads
  back byte by byte as in a plain map from paths to bytes (`DedupRuns.RunsRefine`), and the bytes of the hashes file
  and the pointer files are at every moment the encoding of that state. `DedupStore.BbState.PerformAndRead` says it of
  the callbacks themselves: after any run, `read_file` gives what the plain map holds under the path.
- **Sharing.** No two block files hold the same content, no id is ever given to a second content, no reachable block is
  ever removed (`DedupSharing.BlocksDistinct`, `DedupRuns.IdsNeverReused`, `DedupProperties.ReachableBlocksExist`). Over
  every run each counter is the number of pointers plus the number of pointers that overwrites replaced
  (`DedupLeaks.RunsExcess`); without overwrites there is one block per distinct visible content
  (`DedupRuns.AppendRunsAreMinimal`).
- **No starvation.** A task that stays queued while the scheduler chooses more often than it has competitors cannot
  have waited longer, at the first of these choices, than the largest prediction and the time they took allow
  (`SchedWaiting.WaitIsBounded`). The one condition is that no goodness wraps around at these choices. It is met
  whenever (1 + largest prediction) * (1 + longest real wait) is below 2^64 (`SchedWaiting.RoomNeverWraps`), and so as
  long as (1 + largest prediction) * (1 + clock reading) is (`SchedWaiting.EarlyNeverWraps`).
- **Burst predictions.** Let each burst of a task in a run last equally long and end with the task off the queue and
  others on it. Then after `n` bursts its prediction differs from that length by exactly the first difference divided
  by 3^(2n), rounded down, whatever else runs in between; so it is at most 1 off once 3^(2n) reaches the first error
  (`SchedBursts.ConstantBurstsConverge`).
- **Time accounting.** Over every run, the execution times, what is still to be charged, and what was lost add up to
  exactly the time that tasks held the CPU, task by task (`SchedAccounting.TaskTimeAccounted`) and in all
  (`SchedAccounting.CpuTimeAccounted`); no 64-bit addition or subtraction wraps; waiting times are the time since the
  last queueing or loss of the CPU (`SchedRuns.RunsKeepInv`, `SchedWaiting.WaitingIsExact`).

## What the code does not meet, and exactly when it does

- `bbfs.c` divides the offset by 4069 where blocks are 4096 bytes. The slot of block `k` is right if and only if
  `k <= 150` (`DedupRuns.SlotOfBlock`). Appending to a file of `k` blocks leaves a list of ids in its pointer file if
  and only if `k <= 150` (`DedupRuns.AppendKeepsIds`); the slot skipped beyond that holds zero bytes
  (`DedupRuns.GapIsNoId`, `DedupStore.BbState.BbWrite`).
- `bb_write` does not take back the pointer that it replaces. From exact counters a write ends with exact counters if
  and only if it appends (`DedupSharing.WriteExactIffAppend`), and a run if and only if it only appends and unlinks
  (`DedupLeaks.RunsExactIffAppends`). A block counted too often stays for the rest of the mount, even if no file names
  it (`DedupLeaks.LeakedBlocksStay`). Rewriting one block `n` times with the data it holds adds `n` to its counter and no
  pointer, and is possible if and only if the counter stays within 99 (`DedupLeaks.RewritesLeak`).
- Data is handled as a C string: what is stored is what was written if and only if it has no NUL byte
  (`DedupText.CStrWhole`).
- A record keeps its 45 bytes if and only if its id is at most 999 and its counter at most 99
  (`DedupTable.LineOverflows`); the line buffer in `write_hash` and the id buffer in `write_blocks` have room for no
  more, so a write requires it (`DedupProperties.Room`).
- A mount takes the number of block files for the last id. That is the last id, and the mount is in order, if and only
  if no record has counter 0 (`DedupRemount.RemountRecoversLastId`, `DedupRemount.Remount`). The first block stored then
  leaves the hashes file a table if and only if no counter was 0 or the content has a live record with an id up to the
  number of blocks (`DedupRemount.StoreAfterRemount`); otherwise the record has an id that is not its position, and the
  block of that id is written over, which shows in exactly the files that name it, unless it held the same
  (`DedupRemount.WrittenOverShows`).
- A task that has left the queue hands over the CPU. It is charged for its last round, its burst is averaged, and its
  burst counter starts again if and only if a task besides the head is queued, or there is nothing to charge, average
  or reset (`SchedBursts.LeavingCommitsExactly`). With the head alone, `schedule` changes no task at all, and a later
  burst is averaged with what the counter still holds (`SchedBursts.EndedBurstAverages`). A lone task that runs from 0 to
  1000 and goes to sleep is charged nothing (`SchedExamples.LoneTaskIsNotCharged`); no time is lost exactly if no
  rescheduling finds the head alone with time to charge (`SchedAccounting.LostExactly`).
- The goodness product is computed in 64 bits. For predictions up to `P` and waits up to `W`, both below 2^64 - 1, no
  goodness of any queue wraps, and the starvation bound holds for every queue, if and only if
  `(1 + P) * (1 + W) < 2^64` (`SchedSelection.BoundHoldsExactly`). With `P` and `W` both 2^32 - 1 the product wraps to
  0 and the task that just ran is preferred to one that has waited for long (`SchedSelection.WrapBreaksBound`); a run
  reaches such a choice at clock reading 6442450943 (`SchedExamples.WrapIsReached`).

## Assumptions

- SLOB: a unit is 2 bytes and a page 4096 bytes; a request has a positive size, an alignment that is 0 or a power of
  two, and an offset that is a whole number of units, as the kernel's callers pass. `slob_new_pages` is a parameter.
- Store: a single mount. Hashes have 40 characters and no NUL, and a new content has the hash of a stored block only
  if it is that content (`Project 4/README.md:22`). Writes are whole blocks at multiples of the block size, not beyond
  the end of the file (`Project 4/README.md:20`).
- Scheduler: `sched_clock` is monotone and is read once per call; the switch to the chosen task sets `current`; the
  queue is the one given to `initschedule`, empty before. The virtual machine (`cpu.c`) is not part of this model: it
  hands over a seed task, whose fields are 0 in every run, and makes it the current one, neither of which
  `initschedule` does itself. The average is rounded down.

## Model

| member | source | states |
|---|---|---|
| SlobBlocks.AlignUpIsLeastMultiple | Project 3/patch_3:317-321 | rounding up gives the least multiple of the alignment that is not below the address |
| SlobBlocks.DeltaAligns | Project 3/patch_3:311-321 | the head skipped makes block plus offset aligned, no shorter head does, and nothing is skipped without an alignment |
| SlobBlocks.AlignedBytes | Project 3/patch_3:311-321 | aligned means that the byte address of the extent plus the offset is a multiple of the alignment |
| SlobBlocks.UnitsHoldBytes | Project 3/patch_3:270-270 | the units of a request hold its bytes with less than one unit to spare |
| SlobBlocks.SumBoundsEach | Project 3/patch_3:484-485 | no block is larger than the page's unit count |
| SlobBlocks.UnitCount | Project 3/patch_3:391-391 | disjoint blocks cover as many units as their sizes add up to |
| SlobBlocks.ExactFitIsFinal | Project 3/patch_3:332-335 | stopping the block scan at an exact fit gives what the full scan would give |
| SlobBlocks.RunningIsBest | Project 3/patch_3:322-342 | the running minimum keeps the earlier candidate or becomes the page's best fit with the lowest address among equals |
| SlobBlocks.FitsExactly | Project 3/patch_3:322-326 | a block fits iff some aligned extent of the length lies in it, and the one after the head is the lowest |
| SlobBlocks.BestLeavesLeast | Project 3/patch_3:326-333 | the best block leaves the fewest units behind the extent taken from it, strictly fewer than any lower block |
| SlobBlocks.BestIsUnique | Project 3/patch_3:326-330 | a page has at most one best-fit block |
| SlobBlocks.CarveWellFormed | Project 3/patch_3:368-389 | the list stays sorted, disjoint, inside the page and free of empty blocks |
| SlobBlocks.CarveSeparated | Project 3/patch_3:368-389 | blocks that did not touch still do not touch |
| SlobBlocks.CarveCovers | Project 3/patch_3:368-389 | a unit is free afterwards exactly if it was free and is not in the extent taken |
| SlobBlocks.CarveUnitSet | Project 3/patch_3:368-389 | the free units lose exactly the extent, which was free |
| SlobBlocks.CarveSum | Project 3/patch_3:391-391 | the sum of the block sizes goes down by the units taken |
| SlobMemory.ChainAt | Project 3/patch_3:300-301 | every block of the list is found in memory with its size and its link |
| SlobMemory.ChainConcat | Project 3/patch_3:300-300 | a list in memory is its parts, the last block of one linking to the first of the next |
| SlobMemory.ChainKept | Project 3/patch_3:231-233 | storing a block elsewhere does not disturb the list |
| SlobMemory.SplitChain | Project 3/patch_3:368-372 | after the two stores of the head split, memory holds the list with the block cut in two |
| SlobMemory.SplitThenCarve | Project 3/patch_3:368-375 | splitting off the head and then taking the block is carving the extent out of the middle |
| SlobMemory.RelinkLast | Project 3/patch_3:379-385 | storing the predecessor again with another link redirects the list |
| SlobMemory.UnlinkChain | Project 3/patch_3:377-389 | after unlinking or fragmenting, memory holds the carved list |
| SlobMemory.UnlinkOutside | Project 3/patch_3:377-389 | only units that were free are written |
| SlobMemory.SplitOutside | Project 3/patch_3:368-372 | the head split writes only free units and frees none |
| SlobPages.Page.constructor | Project 3/patch_3:545-548 | a fresh page holds one block of the whole page that links to the page end |
| SlobPages.Page.SetSlob | Project 3/patch_3:231-233 | a block of several units stores its size and then its link, a single unit the negated link, and nothing else is written |
| SlobPages.Page.BlockAt | Project 3/patch_3:300-301 | reading a stored block back gives its size, its link and whether it is the last |
| SlobPages.Page.FindBest | Project 3/patch_3:299-342 | finds the best-fit block and its predecessor, or shows that no block fits |
| SlobPages.Page.SplitHead | Project 3/patch_3:368-375 | the stored list is the old one with the block cut in two |
| SlobPages.Page.Unlink | Project 3/patch_3:377-389 | the stored list is the old one without the units taken |
| SlobPages.AllocationTakesExactly | Project 3/patch_3:361-397 | carving the best block keeps the list well formed and separated, and removes exactly the extent from the free units and the count |
| SlobPages.SlobPageAlloc | Project 3/patch_3:266-398 | null if nothing fits, else the aligned best-fit extent, which holds the bytes asked for; list, count and flag follow and memory that was not free keeps its content |
| SlobHeap.GlobalBestIsPageBest | Project 3/patch_3:299-342 | the best block of the list is the best block of its page |
| SlobHeap.GlobalBestIsUnique | Project 3/patch_3:505-509 | the best block of the list is unique |
| SlobHeap.GlobalBestLeavesLeast | Project 3/patch_3:505-512 | the best block of the list leaves the fewest units behind its extent, strictly fewer than any that comes before it |
| SlobHeap.SkipIsSound | Project 3/patch_3:484-485 | a page with fewer free units than requested holds no block that fits |
| SlobHeap.ExactFitEndsScan | Project 3/patch_3:521-527 | leaving the page loop at an exact fit gives what the full scan would give |
| SlobHeap.RunningPagesIsBest | Project 3/patch_3:475-528 | the running minimum over the pages is the least remainder of all, first page and lowest address first, or nothing fits |
| SlobHeap.PageConserves | Project 3/patch_3:391-395 | free units and live units of a page add up to the page |
| SlobHeap.TakeKeepsPageInv | Project 3/patch_3:361-397 | the extent handed out was free and overlaps no live extent |
| SlobHeap.TakeKeepsHeapInv | Project 3/patch_3:391-395 | a page without free units leaves its list, any other stays |
| SlobHeap.AddPageKeepsHeapInv | Project 3/patch_3:545-549 | a new page joins exactly one list |
| SlobHeap.AllocKeepsHeapInv | Project 3/patch_3:450-554 | every slob_alloc, however it was served, keeps the heap consistent |
| SlobHeap.AllocatedExtent | Project 3/patch_3:457-457 | what is handed out is a live extent that starts at the result and holds the bytes asked for |
| SlobEffects.AllocationIsBestFit | Project 3/patch_3:475-532 | the extent handed out leaves the fewest units behind it of all that could be taken on the list, earlier ones winning ties |
| SlobEffects.OldPageKeepsLists | Project 3/patch_3:391-395 | a request is served from the list of its size, which keeps its order and only loses a page that is full now |
| SlobEffects.NewPageIsListedFirst | Project 3/patch_3:545-549 | a page requested goes to the front of the list of its size, unless the request fills it |
| SlobEffects.OnlyTheExtentIsTaken | Project 3/patch_3:361-397 | other pages stay, and the page loses exactly the extent from its free units, which becomes live |
| SlobAccounting.UnitsOnIsSum | Project 3/patch_3:431-434 | the traversal of a list adds up the free units of its pages once each |
| SlobAccounting.HeapConserves | Project 3/patch_3:425-447 | calcFreeSpace plus all live units is the memory of all pages |
| SlobAllocator.Allocator.CalcFree | Project 3/patch_3:425-447 | adds up the units of all pages on the three lists |
| SlobAllocator.Allocator.ScanPage | Project 3/patch_3:491-519 | the block loop carries the running minimum over one page |
| SlobAllocator.Allocator.ScanPages | Project 3/patch_3:475-528 | gives the page of the global best block, null exactly if no block of the list fits |
| SlobAllocator.SamePageBest | Project 3/patch_3:530-532 | slob_page_alloc finds a block on the page chosen, and it is the one slob_alloc recorded |
| SlobAllocator.Allocator.AllocFrom | Project 3/patch_3:530-532 | allocating from a listed page is taking its best block, and the page leaves its list when full |
| SlobAllocator.Allocator.NewSlabPage | Project 3/patch_3:545-549 | the new page is put at the front of the class list |
| SlobAllocator.Allocator.AllocFromNewPage | Project 3/patch_3:536-553 | the request is served from the new page, or the BUG_ON is reached |
| SlobAllocator.Allocator.SlobAlloc | Project 3/patch_3:450-591 | performs one allocation step of the heap, keeps live memory, and leaves the counter at the memory that is not live |
| SlobRuns.LiveAllocationsDisjoint | Project 3/patch_3:391-397 | no unit of memory belongs to two live allocations |
| SlobRuns.AllocationIsFresh | Project 3/patch_3:530-553 | the byte address of the result is aligned; its extent holds the bytes asked for with less than a unit to spare, becomes live and shares no unit with what was live, which stays live |
| SlobRuns.NewPageIffNothingFits | Project 3/patch_3:536-551 | a page is requested iff no block of the class fits; the BUG_ON is reached iff head and units exceed a page |
| SlobRuns.RunsKeepHeapInv | Project 3/patch_3:586-589 | in every state of every run the heap is consistent and its memory conserved |
| DedupText.AtoiPadded | Project 4/filesystem/our_lib.c:107-110 | atoi reads back what the zero-padded format wrote |
| DedupText.PaddedWidth | Project 4/filesystem/our_lib.c:96-96 | a number keeps its field width iff it has no more digits |
| DedupText.PaddedDigitAt | Project 4/filesystem/our_lib.c:96-96 | digit i from the right is the digit for 10 to the i |
| DedupText.OverwriteAt | Project 4/filesystem/our_lib.c:114-114 | after a write every byte is what was written, what was there, or zero in a gap |
| DedupText.CStrWhole | Project 4/filesystem/our_lib.c:273-274 | the stored string is the data written iff the data has no NUL |
| DedupTable.LineFields | Project 4/filesystem/our_lib.c:54-58 | id, counter and hash are at offsets 0, 3 and 5 of a 45-byte record |
| DedupTable.LineOverflows | Project 4/filesystem/our_lib.c:85-87 | a record has 45 bytes iff id and counter fit their fields |
| DedupTable.EncodeAt | Project 4/filesystem/our_lib.c:100-102 | record k occupies the 45 bytes from 45 * k on |
| DedupTable.EncodeAppend | Project 4/filesystem/our_lib.c:93-98 | writing a line at the end appends one record |
| DedupTable.EncodeUpdate | Project 4/filesystem/our_lib.c:99-114 | writing a line at a record boundary replaces one record and no other byte |
| DedupTable.DecodeEncode | Project 4/filesystem/our_lib.c:54-58 | decoding the bytes gives the table back |
| DedupTable.IdsSet | Project 4/filesystem/bbfs.c:276-280 | writing three digits at 3 * k sets slot k or appends it, and nothing else |
| DedupModel.FirstLiveIsFirst | Project 4/filesystem/our_lib.c:60-81 | the lookup gives the first live record with the hash, or the next id if there is none |
| DedupModel.OccurrencesUpdate | Project 4/filesystem/bbfs.c:280-280 | changing a pointer file changes the number of pointers to a block by exactly its own |
| DedupProperties.AddRefKeepsTable | Project 4/filesystem/our_lib.c:93-111 | counting a pointer keeps ids, widths and the uniqueness of live hashes |
| DedupProperties.GenerateKeeps | Project 4/filesystem/our_lib.c:119-145 | the content is stored under the id given, every other block stays, and blocks match live records |
| DedupProperties.WriteKeepsInv | Project 4/filesystem/bbfs.c:264-284 | a block write keeps the invariant, every counter still covering the pointers to its block |
| DedupProperties.DropAllDrops | Project 4/filesystem/our_lib.c:325-355 | every counter goes down by the number of times its id is listed, and blocks survive exactly with their counter |
| DedupProperties.UnlinkKeepsInv | Project 4/filesystem/bbfs.c:106-115 | an unlink keeps the invariant, even if the file lists a block several times |
| DedupProperties.ReachableBlocksExist | Project 4/filesystem/our_lib.c:342-347 | every block that a file names exists |
| DedupProperties.WriteIsPut | Project 4/filesystem/bbfs.c:264-284 | users see one block of one path put in place and every other path unchanged |
| DedupProperties.UnlinkIsRemove | Project 4/filesystem/bbfs.c:106-115 | users see one path removed and every other path unchanged |
| DedupSharing.BlocksDistinct | Project 4/filesystem/our_lib.c:124-130 | no two block files hold the same content |
| DedupSharing.WriteSharesOrAdds | Project 4/filesystem/our_lib.c:124-144 | a stored content adds no block, a new one exactly one under an id never used |
| DedupSharing.WriteExcess | Project 4/filesystem/bbfs.c:264-284 | a write leaves one count too many on exactly the block whose pointer it replaces |
| DedupSharing.WriteExactIffAppend | Project 4/filesystem/bbfs.c:276-280 | a write keeps exact counters iff it appends |
| DedupSharing.AppendKeepsExact | Project 4/filesystem/our_lib.c:93-111 | appending keeps every counter equal to the number of pointers |
| DedupSharing.UnlinkExcess | Project 4/filesystem/our_lib.c:325-355 | an unlink changes no counter by more or less than the pointers it removes |
| DedupSharing.UnlinkKeepsExact | Project 4/filesystem/our_lib.c:325-355 | unlinking keeps every counter equal to the number of pointers |
| DedupSharing.VisibleExactly | Project 4/filesystem/our_lib.c:212-261 | a content is visible iff some path reads back with it as one of its blocks |
| DedupSharing.ExactStoreIsMinimal | Project 4/filesystem/our_lib.c:342-347 | with exact counters there is one block per distinct visible content and no other |
| DedupSharing.UnlinkGrows | Project 4/filesystem/our_lib.c:335-341 | records stay in place, and one with counter 0 stays at 0 |
| DedupSharing.BlockFilesCountIds | Project 4/filesystem/our_lib.c:291-299 | the number of block files is the last id iff no counter is 0 |
| DedupRuns.SlotOfBlock | Project 4/filesystem/bbfs.c:23-23 | the slot computed for block k is k iff k is at most 150 |
| DedupRuns.SlotOfOffset | Project 4/filesystem/bbfs.c:23-23 | slot k is written for exactly the 4069 bytes from 4069 * k on |
| DedupRuns.SlotSkipped | Project 4/filesystem/bbfs.c:280-280 | block 151 is written to slot 152 |
| DedupRuns.GapIsNoId | Project 4/filesystem/bbfs.c:276-280 | an id written beyond the next slot leaves NUL bytes, and the pointer file is no list of ids |
| DedupRuns.AppendKeepsIds | Project 4/filesystem/bbfs.c:276-280 | appending leaves a list of ids iff the file has at most 150 blocks before |
| DedupRuns.FlattenPut | Project 4/filesystem/our_lib.c:245-258 | putting block k in place is overwriting the bytes from 4096 * k on |
| DedupRuns.StepRefines | Project 4/filesystem/bbfs.c:106-115 | one permitted operation keeps the invariant and reads back as in the plain file system |
| DedupRuns.RunsRefine | Project 4/filesystem/bbfs.c:264-284 | after any permitted run every path reads back as in the plain file system |
| DedupRuns.AppendRunsAreMinimal | Project 4/filesystem/our_lib.c:342-347 | runs without overwrites keep counters exact and one block per distinct content |
| DedupRuns.FreshStoreRefines | Project 4/filesystem/bbfs.c:264-284 | from the empty store every run reads back as in the plain file system |
| DedupRuns.IdsNeverReused | Project 4/filesystem/our_lib.c:132-144 | over a run records keep their hashes, dead ones stay dead, and a block that is still there holds what it held |
| DedupLeaks.RunsExcess | Project 4/filesystem/bbfs.c:264-284 | over a run each counter gains on the pointers to its block once for every pointer replaced |
| DedupLeaks.RunsExactIffAppends | Project 4/filesystem/bbfs.c:276-280 | a run from exact counters ends with exact counters iff it replaces no block |
| DedupLeaks.LeakedBlocksStay | Project 4/filesystem/our_lib.c:335-347 | a block counted too often survives every run with its content |
| DedupLeaks.RewritesLeak | Project 4/filesystem/our_lib.c:99-114 | n rewrites of one block with its own data add n to its counter and change nothing else, and fit iff the counter stays within 99 |
| DedupStore.ReadRecord | Project 4/filesystem/our_lib.c:60-76 | reads at the record boundary give id, counter and hash of that record |
| DedupStore.BbState.CompareHashes | Project 4/filesystem/our_lib.c:36-82 | gives the id of the first live record with the hash, or the id after the last |
| DedupStore.BbState.WriteHash | Project 4/filesystem/our_lib.c:84-117 | the bytes encode the table with one record appended or its counter one up; with a last id that is too small a record is appended under an id that is not its position |
| DedupStore.BbState.GenerateBlock | Project 4/filesystem/our_lib.c:119-145 | stores the content once and gives its id; hashes file and block files follow, also with a last id that is too small |
| DedupStore.BbState.WriteBlocks | Project 4/filesystem/our_lib.c:263-278 | stores the copied block and gives its id in three digits |
| DedupStore.BbState.BbWrite | Project 4/filesystem/bbfs.c:264-284 | writes the id at the computed slot; the block write of the model if the slot exists or is the next, else a pointer file with NUL bytes that is no list of ids |
| DedupStore.BbState.BbMknod | Project 4/filesystem/bbfs.c:74-93 | an absent path becomes an empty file, an existing one stays |
| DedupStore.BbState.GetRealSize | Project 4/filesystem/our_lib.c:185-210 | the length of what read_file returns |
| DedupStore.BbState.ReadFile | Project 4/filesystem/our_lib.c:212-261 | the contents of the file's blocks in order, within the buffer; null for a missing file |
| DedupStore.BbState.DropPointer | Project 4/filesystem/our_lib.c:325-355 | one pointer is taken off its record in place, and the block file goes with the last |
| DedupStore.BbState.DeleteBlocks | Project 4/filesystem/our_lib.c:302-360 | takes every listed pointer off the hashes file and removes the blocks that reach zero; the pointer file is emptied iff one was |
| DedupStore.BbState.BbUnlink | Project 4/filesystem/bbfs.c:106-115 | removes the path and its pointers, and nothing else |
| DedupStore.BbState.Perform | Project 4/filesystem/bbfs.c:106-115 | one callback does what the operation does in the model and in the plain file system |
| DedupStore.BbState.PerformAll | Project 4/filesystem/bbfs.c:264-284 | after a run of callbacks the store holds what the plain file system holds |
| DedupStore.BbState.PerformAndRead | Project 4/filesystem/our_lib.c:212-261 | after a run of callbacks reading a path gives the bytes of the plain file system, and null for a missing path |
| DedupRemount.GetInitialIdNumber | Project 4/filesystem/our_lib.c:280-300 | one less than the number of positions that are regular files, 0 without any or without a directory |
| DedupRemount.HiddenDirCount | Project 4/filesystem/our_lib.c:291-299 | a directory whose regular files are the hashes file and the block files by name has one more of them than there are blocks |
| DedupRemount.RemountRecoversLastId | Project 4/filesystem/our_lib.c:280-300 | recovers the last id iff no record has counter 0 |
| DedupRemount.Remount | Project 4/filesystem/bbfs.c:632-632 | a mount over the files of an earlier one is in order iff no counter is 0 |
| DedupRemount.AppendedIdIsPosition | Project 4/filesystem/our_lib.c:93-98 | a record appended under an id leaves a table iff the id is its position |
| DedupRemount.WrittenOverShows | Project 4/filesystem/our_lib.c:133-142 | a file reads back as before iff it does not name the block written over or that held the same |
| DedupRemount.StoreAfterRemount | Project 4/filesystem/our_lib.c:119-145 | the first block stored after a remount leaves a table iff no counter was 0 or its live record has an id up to the number of blocks; else record and block go to an id given before |
| SchedRing.LinkIn | Project 2/schedule.c:270-273 | linking in after the head keeps one ring with inverse links |
| SchedRing.LinkOut | Project 2/schedule.c:308-311 | linking out closes the ring and leaves the task without links |
| SchedRing.LinksInverse | Project 2/schedule.c:270-273 | next and prev are inverse on the ring |
| SchedQueue.Scheduler.Init | Project 2/schedule.c:49-56 | the seed task, its fields kept, is the head of a ring of its own and the count is one |
| SchedQueue.Scheduler.SchedFork | Project 2/schedule.c:240-252 | a new task with cleared fields, off the queue |
| SchedQueue.Scheduler.ActivateTask | Project 2/schedule.c:287-300 | the task is linked between the head and what followed it, second on the ring, stamped with the time, and the count goes up |
| SchedQueue.Scheduler.DeactivateTask | Project 2/schedule.c:306-314 | the two neighbours are linked to each other, the task is off the ring with null links, and the count goes down |
| SchedQueue.Scheduler.GetMinExpBurst | Project 2/schedule.c:196-215 | the first queued task with the least prediction |
| SchedQueue.Scheduler.GetMaxWaitingInRQ | Project 2/schedule.c:217-235 | the last queued task with the greatest waiting time |
| SchedQueue.Scheduler.GetMinGoodness | Project 2/schedule.c:166-194 | the goodness stored is the product of the two whole quotients modulo 2^64; the last queued task with the least is returned, null iff only the head is queued |
| SchedQueue.Scheduler.UpdateWaitingInRQ | Project 2/schedule.c:148-164 | every queued task but the head gets its waiting time, the running one 0, and no other field changes |
| SchedQueue.Scheduler.ChargeCurrent | Project 2/schedule.c:104-116 | the running task is charged once; its prediction keeps a third of its distance to the burst, a ninth if it left the queue, rounded down |
| SchedQueue.Scheduler.SwitchTo | Project 2/schedule.c:129-143 | the chosen task starts its round; the old one is stamped, or gets its prediction back |
| SchedQueue.Scheduler.Schedule | Project 2/schedule.c:89-146 | performs one rescheduling step of the model and keeps the time accounting |
| SchedSelection.MinPredIsLeast | Project 2/schedule.c:203-212 | the traversal's minimum is a lower bound that is reached |
| SchedSelection.MaxWaitIsGreatest | Project 2/schedule.c:224-232 | the traversal's maximum is an upper bound that is reached |
| SchedSelection.WrapsAround | Project 2/schedule.c:106-107 | 64-bit sums are right up to 2^64, and subtraction undoes addition |
| SchedSelection.GoodnessIsProduct | Project 2/schedule.c:182-182 | the goodness is the product of two quotients, each rounded down before, modulo 2^64 |
| SchedSelection.GoodnessIsUnique | Project 2/schedule.c:182-182 | and no other number is |
| SchedSelection.GoodnessPositive | Project 2/schedule.c:182-182 | goodness is at least 1 |
| SchedSelection.WithinNeverWraps | Project 2/schedule.c:182-182 | no goodness wraps while the product of the largest prediction and the longest wait, each plus 1, fits 64 bits |
| SchedSelection.SmallNeverWraps | Project 2/schedule.c:182-182 | in particular none wraps while predictions and waits are below 2^32 - 1 |
| SchedSelection.PickIsUnique | Project 2/schedule.c:185-188 | the choice is unique |
| SchedSelection.PickExists | Project 2/schedule.c:177-193 | a task is chosen whenever one besides the head is queued |
| SchedSelection.StarvationBound | Project 2/schedule.c:148-194 | the longest wait over the wait of the task picked is at most the longest waiter's prediction over the least |
| SchedSelection.RepickBound | Project 2/schedule.c:155-157 | the running task is picked again only while the longest wait is at most the longest waiter's prediction |
| SchedSelection.PickBoundsWait | Project 2/schedule.c:166-194 | if nothing wraps, every wait is below the wait of the task picked times the largest prediction plus 2 |
| SchedSelection.WrapBreaksBound | Project 2/schedule.c:182-182 | with 2^32 - 1 for prediction and wait the product wraps to 0, the task that just ran is picked, and the bound fails |
| SchedSelection.BoundHoldsExactly | Project 2/schedule.c:166-194 | for all queues within a largest prediction and wait: nothing wraps, and the starvation bound holds, iff the product of the two, each plus 1, fits 64 bits |
| SchedSelection.AverageRounds | Project 2/schedule.c:109-109 | two thirds of the burst plus one third of the old prediction, rounded down, bounded on both sides |
| SchedSelection.AverageBetween | Project 2/schedule.c:109-109 | the new prediction lies between the old one and the burst |
| SchedSelection.AverageContracts | Project 2/schedule.c:109-109 | one average divides the error by three up to rounding, and no faster |
| SchedSelection.AveragedExactly | Project 2/schedule.c:109-114 | n averages with one burst value leave exactly the first difference divided by 3 to the n, rounded down |
| SchedSelection.AveragesConverge | Project 2/schedule.c:109-114 | averaging with one burst value contracts the error by three each time and ends at most 1 from it |
| SchedRuns.BootInv | Project 2/schedule.c:49-56 | the invariant holds at the boot |
| SchedRuns.ForkKeepsInv | Project 2/schedule.c:240-252 | a new task starts with no execution time, adds none to the total, and keeps the invariant |
| SchedRuns.EnqueueKeepsInv | Project 2/schedule.c:268-281 | queueing keeps the accounting and stamps no later than now |
| SchedRuns.AfterBurstCharges | Project 2/schedule.c:106-107 | the running task is charged exactly what it ran, without wrapping |
| SchedRuns.SwitchKeepsInv | Project 2/schedule.c:104-143 | what is charged to the old task was not charged before, and the new one starts at zero |
| SchedRuns.RescheduleKeepsInv | Project 2/schedule.c:89-146 | rescheduling keeps the invariant |
| SchedRuns.RunsKeepInv | Project 2/schedule.c:97-144 | in every state of every run the ring is in order, times are past, and charged time is at most elapsed time |
| SchedAccounting.StepCharges | Project 2/schedule.c:97-143 | one event moves what a task is to be charged to its execution time, unless it finds the head alone |
| SchedAccounting.TaskTimeAccounted | Project 2/schedule.c:97-143 | over a run, the CPU time of every task but the head is its execution time, what it is to be charged, and what was lost |
| SchedAccounting.CpuTimeAccounted | Project 2/schedule.c:97-143 | over a run, execution times, what is to be charged, and what was lost add up to the time tasks held the CPU |
| SchedAccounting.LostExactly | Project 2/schedule.c:98-102 | no time is lost iff no rescheduling finds the head alone with time to charge |
| SchedAccounting.ExecutionTimeConserved | Project 2/schedule.c:106-107 | execution times are exactly the CPU time less what is to be charged and what was lost, so at most the time since the boot, and bursts are part of them |
| SchedExamples.LoneTaskIsNotCharged | Project 2/schedule.c:98-102 | a run in which a task holds the CPU for 1000 and is charged 0 |
| SchedExamples.WrapIsReached | Project 2/schedule.c:182-182 | a run that reaches a choice where the goodness wraps and the starved task is passed over |
| SchedWaiting.StampIsIdleSince | Project 2/schedule.c:134-138 | a queued task off the CPU is stamped with its last queueing or loss of the CPU |
| SchedWaiting.WaitingIsExact | Project 2/schedule.c:155-160 | at each choice waiting times are exact, 0 for the running task, and the subtraction does not wrap |
| SchedWaiting.ChosenIsStamped | Project 2/schedule.c:129-138 | after being chosen a task is on the CPU, off the queue, or stamped no earlier |
| SchedWaiting.RoomNeverWraps | Project 2/schedule.c:182-182 | at a choice of a run nothing wraps while the largest prediction and the longest real wait leave room for their product |
| SchedWaiting.EarlyNeverWraps | Project 2/schedule.c:182-182 | the same with the clock reading in place of the longest wait |
| SchedWaiting.ChoiceBoundsWait | Project 2/schedule.c:124-131 | each choice of a run at which no goodness wraps bounds every real waiting time by that of the task chosen |
| SchedWaiting.TwiceChosen | Project 2/schedule.c:124-138 | if one task is chosen twice, the second time without a goodness wrapping, no other can have waited long compared with the time between |
| SchedWaiting.WaitIsBounded | Project 2/schedule.c:89-146 | no task is passed over by more choices than it has competitors, at which no goodness wraps, unless its wait is below the bound |
| SchedBursts.RepickKeepsPrediction | Project 2/schedule.c:139-142 | picking the running task again leaves its prediction unchanged |
| SchedBursts.SwitchCommitsBurst | Project 2/schedule.c:98-116 | losing the CPU to a choice charges the round; the prediction keeps a third of its distance to the burst, a ninth if the task left the queue, rounded down; losing it to the head alone changes nothing |
| SchedBursts.LeavingCommitsExactly | Project 2/schedule.c:98-116 | a task off the queue is charged, averaged twice and its counter reset iff another task than the head is queued, or there is nothing to do |
| SchedBursts.PredictionKeptOnCpu | Project 2/schedule.c:139-142 | over any stretch of a run on the CPU the prediction stays |
| SchedBursts.PredictionKeptOffCpu | Project 2/schedule.c:104-143 | over any stretch of a run off the CPU, queued or not, prediction and burst counter stay |
| SchedBursts.BurstKeptOnCpu | Project 2/schedule.c:104-127 | over any stretch on the CPU the burst counter grows exactly by the time run, however often the task is picked again |
| SchedBursts.EndedBurstAverages | Project 2/schedule.c:98-116 | a burst from being chosen to leaving the queue is averaged twice with what the counter held before, and the counter reset, if others are queued; with the head alone the prediction stays and the counter keeps all rounds but the last |
| SchedBursts.ConstantBurstsConverge | Project 2/schedule.c:104-116 | after n bursts of one length, each ending with others queued, the prediction is off by exactly the first difference divided by 3^(2n), rounded down, and at most 1 once that power reaches the first error |

## Left out

- First fit, `slob_free` and the page-list helpers of the kernel: not part of the patch; freeing (`FreeStep`) is an
  abstract step that merges a live extent into the free list in any well-formed way.
- `totalAllocatedSpace`, the debug prints, locks, node filtering, zero fill and the system calls of the patch.
- 64-bit address arithmetic: addresses are unbounded; offsets and sizes within a page fit the 16-bit index type.
- SHA-1: the hash is a function that has no collision among the contents in play.
- I/O failures (`fopen`, `malloc`, a missing hashes file), logging and stdio buffering; `delete_blocks` reads the ids its
  pointer file held when it was opened, as the buffer of a file of at most 151 ids does.
- All other file system callbacks: links, rename, truncate, attributes, and `bb_read`, whose temporary file and ignored
  offset add nothing to `read_file`.
- Runs that go on across a remount after a block was freed: stated are the remount and the first block stored after it.
- DedupRuns.RunsRefine: writes of data with NUL bytes, of partial blocks, beyond the end or from block 151 on are not
  permitted operations, because the code does not support them.
- SchedQueue.Scheduler.Schedule: `need_reschedule`, `time_slice` and the reporting totals other than the execution time
  are not modelled, because nothing in `schedule.c` reads them.
- SchedQueue.Scheduler.ActivateTask: stands for `wake_up_new_task` too, whose body is the same.
- The alternative selection by least prediction alone, the virtual machine around the scheduler, and exiting tasks,
  which stay known but off the queue.
- Rounding of the average in floating point: it is the exact quotient rounded down.
