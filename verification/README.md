# Memory and storage of the JSD/OS kernel, modelled and proved

JSD/OS is a 32-bit x86 kernel. This project models the state machines its memory and storage stacks are made of, and
proves what each of them is for. `dafny verify dfyconfig.toml` verifies everything.

- **Block cache** (`Chunks.dfy`, `BlockCache.dfy`): an 8-slot write-back cache in front of a disk agrees with a plain
  array of bytes over every run of reads and writes, up to the first hazard: whole blocks
  written past the cache while a line that passes the overlap test is dirty. A partial head always makes such a line, so
  an unaligned write of two or more whole blocks on a drive without its own buffers always is one. Which hazards leave
  the cache incoherent is stated exactly.
- **Heap** (`Heap.dfy`): a doubly linked list of page runs, each with a doubly linked, address-ordered list of
  allocations, keeps payloads separate, sums right and searches complete.
- **Locks and task hand-off** (`Locks.dfy`, `Tasks.dfy`): interleavings of any number of tasks and CPUs, one load, store
  or compare-and-swap at a time. A writer is alone, an upgrade sees the data it read, a task is on one CPU at a time.
- **Physical and virtual memory** (`PhysicalMemory.dfy`, `VirtualMemory.dfy`): a sorted, coalesced free list edited in
  place is the canonical form of a set; demand paging over it conserves frames.
- **FAT and ext2** (`FileBytes.dfy`, `FatTable.dfy`, `Clusters.dfy`, `FatClaims.dfy`, `FatOutcomes.dfy`,
  `FatVolume.dfy`, `Ext2.dfy`): packed tables are arrays, a claim extends a chain and changes nothing else, or spoils it,
  exactly when is stated, files are flat byte sequences, a three-level block tree is one flat array.
- **Hash map and Unicode** (`HashMap.dfy`, `Unicode.dfy`): chained buckets refine a finite map; transcoding keeps meaning.

Most components come as two modules: one says on values what the data stands for and proves what the steps of the code
do to that, the other is the code's own objects, changed in place, each method equal to such a step. `Bytes.dfy` holds
buffers and arithmetic that several share.

## How the source is read

- A mask with `m - 1` and a shift by `log2 m` are remainder and quotient by `m`; the source has only powers of two there.
- `size_t` and `uintptr_t` are 32 bits. Where the source lets a sum wrap, the model wraps (`Trunc32`), and a result that
  needs the sum not to wrap says exactly when it holds.
- Pointers to heap headers and hash nodes are addresses in a map; 0 is null.
- The page provider, the address a new hash node gets, and the disk's contents are parameters.
- A failed kernel assertion halts the call; nothing is promised after it.

## Found in the code

- A direct multi-block write can lose cached bytes (`CacheModel.DirectWriteKeepsIff`, `CacheModel.LostByteExample`).
- `memmanager_create_new_page_table` and the eager path of `memmanager_virtual_alloc` do not notice that no page is
  free and use frame 0: exactly when there are fewer free pages than tables to be made and eager pages to be mapped
  (`Paging.WithTableKeeps`, `Paging.EagerExact`, `VirtualMemory.AddressSpace.VirtualAlloc`).
- `memmanager_virtual_alloc` takes a null search result for "no pages", but the search never returns null for that. It
  does when the run it found begins at page 0, and the call then fails although there was room (`Paging.HitZero`,
  `VirtualMemory.AddressSpace.VirtualAlloc`).
- The eager path does not advance its address, so it never succeeds for two pages or more (`Paging.EagerTwice`).
- `realloc_bytes` frees the old allocation when no memory is left, after copying it to address 0; when it shrinks, the
  alignment asked for is ignored (`Heap.HeapAllocator.ReallocBytes`, `HeapModel.MisalignedExample`). A comment allows an
  alignment of 0, which makes every payload address 0 (`HeapModel.AlignZeroIsNull`).
- Wrapping ranges and alignments break the physical allocator (`FreeList.ReserveExactIff`, `FreeList.AllocateExactIff`,
  `FreeList.AllocateInRangeExactIff`).
- 12-bit tables are read and written at different places when a sector is several blocks (`FatTable.Fat12BasesAgreeIff`).
- `num_clusters` counts the data clusters, and the first is number 2, but the search for free ones ends at `num_clusters`: it
  overlooks the last two of the volume unless a run reaches them (`FatOutcomes.OverlookedExample`). Such a run is followed
  past the end of the volume as well (`FatOutcomes.PastTheEndExample`). Exactly when: `FatOutcomes.SearchRightIff`.
- When the list of freed clusters runs out during a claim, the entry of the cluster taken last still reads as free. The
  search that follows can take it again: then clusters are lost, or the chain is one short, and success is returned all
  the same (`FatOutcomes.LostClustersExample`; exactly when: `FatOutcomes.RunsOutRightIff`).
- `fat_write` does not look whether the chain reaches its head, and past the end writes it at the address of the
  end-of-file mark (`FatVolume.FatDrive.HeadInFileIff`).
- `allocate_block` of ext2 returns a number that does not count `first_data_block`, and 0 both for no block and for bit 0
  of group 0 (`Bitmaps.Groups.AllocateBlock`). The physical allocator returns 0 both for no fit and for a fit at address 0
  (`FreeList.ZeroMeansNone`).
- Two simultaneous upgrades wait for each other for ever (`Locks.StuckReached`), and so do the upgrade of a reader and a
  `lock` that waits for that reader (`Locks.LockStuckReached`), and a downgrade and a reader or writer that waits for it
  (`Locks.DowngradeStuckReached`). An upgrade and a downgrade finish exactly when nobody is in the way like that
  (`Locks.UpgradeFinishesIff`, `Locks.DowngradeFinishesIff`), and the lock has no other deadlock (`Locks.DrainsIff`).

## Model

| member | source | states |
|---|---|---|
| Chunks.ChunkifyTiles | kernel/filesystem/util.h:39-58 | head, whole chunks and tail tile `[offset, offset + length)` exactly if and only if the chunk number fits in `size_t` |
| Chunks.LastDiffers | kernel/filesystem/util.h:43-52 | truncating the chunk numbers cannot make the first and last chunk of a range look like one |
| Chunks.OneChunkIsHead | kernel/filesystem/util.h:46-50 | a range that does not reach the next chunk is all head |
| Bytes.Word16Digits | drivers/formats/fat.cpp:580-595 | a 16-bit word is two bytes of the disk, the lowest first |
| Bytes.Word32Digits | drivers/formats/ext2.cpp:133-138 | a 32-bit word is four bytes of the disk, the lowest first |
| CacheModel.CoherentReads | kernel/filesystem/drives.cpp:508-516 | on a coherent cache every byte reads as what a plain byte-array disk holds |
| CacheModel.UncachedIsOnDisk | kernel/filesystem/drives.cpp:432-469 | a byte no valid line covers is on the device already |
| CacheModel.WriteBackKeeps | kernel/filesystem/drives.cpp:393-397 | writing a dirty line back and clearing its flag changes no byte the client can see |
| CacheModel.FillKeeps | kernel/filesystem/drives.cpp:434-469 | giving an evicted slot to another aligned line keeps coherence, all of it or all but the line about to be overwritten |
| CacheModel.EvictionIsElsewhere | kernel/filesystem/drives.cpp:454-464 | the write-back of an evicted line does not touch the line the slot is refilled from |
| CacheModel.StoreKeeps | kernel/filesystem/drives.cpp:498-506 | bytes stored into a line that is then marked dirty are bytes written to the flat disk |
| CacheModel.FlushedIsOnDisk | kernel/filesystem/drives.cpp:383-401 | after a flush the device holds the flat disk on the whole range asked for |
| CacheModel.NoCacheNoDifference | kernel/filesystem/drives.cpp:526-530 | a device with byte access always equals the flat disk |
| CacheModel.DirectWriteKeepsIff | kernel/filesystem/drives.cpp:543-550 | invalidate-then-write-directly keeps the cache coherent if and only if no dirty line passes the overlap test |
| CacheModel.DirectWriteForgets | kernel/filesystem/drives.cpp:403-417 | a byte of an invalidated line outside the range written survives if and only if the line was not ahead of the device there |
| CacheModel.BypassReadsIff | kernel/filesystem/drives.cpp:543-550 | after such a write every byte reads right if and only if no line it invalidated was ahead of the device outside the range |
| CacheModel.TailMendsIff | kernel/filesystem/drives.cpp:541-565 | a partial write after whole blocks sent past dirty lines makes the cache coherent again if and only if the slot it evicts held the only such line and that line differs from what was written nowhere |
| CacheModel.TailReadsIff | kernel/filesystem/drives.cpp:541-565 | after its tail every byte reads right if and only if the line of the slot the tail evicts differs from what was written nowhere and no other invalidated line is ahead of the device outside what was written |
| CacheModel.LostByteExample | kernel/filesystem/drives.cpp:403-417 | a concrete cache in which a direct write of two blocks loses a byte of their neighbour |
| CacheModel.OverlapTouches | kernel/filesystem/drives.cpp:389-390 | every valid line that shares a byte with a range passes the overlap test |
| CacheModel.LongerRunTouches | kernel/filesystem/drives.cpp:409-410 | a line that passes the test for a range passes it for every longer range |
| CacheModel.Geometry.TouchesIff | kernel/filesystem/drives.cpp:389-390 | a line passes the overlap test if and only if it shares a block with the range or adjoins it |
| CacheModel.BypassLeaves | kernel/filesystem/drives.cpp:403-417 | a direct write leaves a line valid and as it was if and only if it neither shares a block with the range nor adjoins it, and takes nothing but the valid flag from the others |
| BlockCache.BlockRatioFillsLine | kernel/filesystem/drives.cpp:12-18 | a line is exactly the cache size when whole blocks divide it, and one block otherwise |
| BlockCache.FilesystemDrive.constructor | kernel/filesystem/drives.cpp:59-75 | a new drive is coherent, all slots clean |
| BlockCache.FilesystemDrive.WriteBack | kernel/filesystem/drives.cpp:392-397 | one slot is written back, the flat disk unchanged |
| BlockCache.FilesystemDrive.BlockFlush | kernel/filesystem/drives.cpp:383-401 | coherence kept; exactly the lines passing the overlap test are clean afterwards, nothing else about any line changes |
| BlockCache.FilesystemDrive.BlockInvalidate | kernel/filesystem/drives.cpp:403-417 | exactly the lines passing the test become invalid, still dirty if they were |
| BlockCache.FilesystemDrive.FindLine | kernel/filesystem/drives.cpp:427-430 | the valid slot of an aligned index, or none if there is none |
| BlockCache.FilesystemDrive.BlockRw | kernel/filesystem/drives.cpp:420-480 | the slot returned holds the aligned line of the block, and coherence is kept through hit, miss, eviction and write-back |
| BlockCache.FilesystemDrive.RefreshOldest | kernel/filesystem/drives.cpp:434-469 | the oldest slot is written back, then refilled or left for a whole overwrite |
| BlockCache.FilesystemDrive.WriteToBlock | kernel/filesystem/drives.cpp:498-506 | the flat disk becomes the old one with the bytes spliced in, coherence kept; for a partial write the slot found or evicted and the whole new state |
| BlockCache.FilesystemDrive.ReadFromBlock | kernel/filesystem/drives.cpp:508-516 | returns the bytes of the flat disk |
| BlockCache.FilesystemDrive.DirectWrite | kernel/filesystem/drives.cpp:543-550 | the whole new state; the drive stays coherent if and only if no dirty line was touched |
| BlockCache.FilesystemDrive.WriteBlocks | kernel/filesystem/drives.cpp:551-559 | whole blocks through the cache, one splice in all |
| BlockCache.FilesystemDrive.WriteWhole | kernel/filesystem/drives.cpp:541-560 | direct or cached, with the exact condition under which coherence is kept |
| BlockCache.FilesystemDrive.DirtyHeadTouches | kernel/filesystem/drives.cpp:535-545 | the line a partial head has just made dirty always passes the overlap test of the whole blocks after it |
| BlockCache.FilesystemDrive.PiecesOnDisk | kernel/filesystem/drives.cpp:532-565 | where head, whole blocks and tail of a request lie on the device |
| BlockCache.FilesystemDrive.WriteToDisk | kernel/filesystem/drives.cpp:518-566 | the flat disk is the old one with the buffer spliced in; coherence is kept outside the stated hazard, and inside it if and only if the tail mends it; inside it every byte reads right afterwards if and only if no line invalidated is ahead of the device, all told from the cache before the call |
| BlockCache.FilesystemDrive.ReadWhole | kernel/filesystem/drives.cpp:590-609 | whole blocks: flushed and read from the device, or through the cache, the same bytes |
| BlockCache.FilesystemDrive.ReadFromDisk | kernel/filesystem/drives.cpp:568-615 | returns exactly the bytes of the flat disk for every offset and length |
| BlockCache.FilesystemDrive.Run | kernel/filesystem/drives.cpp:518-615 | any sequence of reads and writes up to the first hazard returns what a plain byte array returns; a drive with its own buffers completes every sequence |
| HeapModel.AlignOffsetFits | clib/liballoc.cpp:24-35 | the payload is at the least aligned address past the offset word, less than `align` bytes on |
| HeapModel.AlignZeroIsNull | clib/liballoc.cpp:24-35 | an alignment of 0 makes the payload address 0 |
| HeapModel.PagesHoldIff | clib/liballoc.cpp:136-149 | the pages asked for hold the request and both headers if and only if none of the sizes wraps |
| HeapModel.PagesForLeast | clib/liballoc.cpp:136-149 | no more pages are asked for than hold the size and both headers, beyond the least of 16 |
| HeapModel.NoGapIff | clib/liballoc.cpp:337-346 | a run has no gap that is long enough if and only if no stretch of it of that length, past its header, is clear of all allocations and their headers |
| HeapModel.LiveHeader | clib/liballoc.cpp:37-42 | `UNALIGN` inverts `ALIGN`: stepping back from a live payload finds its header and its run |
| HeapModel.PayloadsSeparate | clib/liballoc.cpp:55-78 | live payloads are inside their run, disjoint from each other, from both kinds of headers and from all stored offsets |
| HeapModel.PayloadUnique | clib/liballoc.cpp:525-529 | an address is the payload of one allocation at most |
| HeapModel.GapAtMostFree | clib/liballoc.cpp:261-275 | no gap of a run is longer than `size - usage`, so skipping a run on that test loses nothing |
| HeapModel.LinkedInserts | clib/liballoc.cpp:309-459 | writing the header and the neighbours' links is insertion in address order, with `usage` and `l_inuse` still the sums they stand for |
| HeapModel.UnlinkedRemoves | clib/liballoc.cpp:584-596 | unlinking a header is removal from the address-ordered list, sums included |
| HeapModel.DroppedRemoves | clib/liballoc.cpp:601-610 | unlinking an empty run removes it from the list of runs, with root, best bet and `l_allocated` right |
| HeapModel.AppendedAdds | clib/liballoc.cpp:163-170 | new pages are a run of their own at the end of the list |
| HeapModel.CellFits | clib/liballoc.cpp:320-327 | an allocation placed at the front of a long enough gap stays inside it, its payload aligned |
| HeapModel.FreeUndoesMalloc | clib/liballoc.cpp:512-630 | freeing what was just allocated restores the runs, also when pages had to be added for it |
| HeapModel.ShrinkKeeps | clib/liballoc.cpp:710-717 | shrinking in place changes the size asked for and nothing else |
| HeapModel.MisalignedExample | clib/liballoc.cpp:710-717 | a heap and a live payload that is shrunk in place although it is not aligned as asked |
| HeapModel.RoomHoldsIff | clib/liballoc.cpp:182-187 | the size set aside for a request holds it at every address if and only if computing that size did not wrap |
| HeapModel.PayloadKept | clib/liballoc.cpp:722 | an allocation that is there before an insertion is live after it |
| HeapModel.MoveKeepsOthers | clib/liballoc.cpp:722-724 | copying a payload to a new allocation puts its bytes first there and leaves every other payload as it was |
| Heap.HeapAllocator.AllocateNewPage | clib/liballoc.cpp:136-180 | a new empty run at the end of the list, or a warning and no change |
| Heap.HeapAllocator.LinkAt | clib/liballoc.cpp:349-369 | the allocation goes into the given gap, aligned, with all list and sum invariants kept |
| Heap.HeapAllocator.TryRun | clib/liballoc.cpp:307-462 | takes the first gap of the run that is long enough, or shows that there is none |
| Heap.HeapAllocator.StartRun | clib/liballoc.cpp:243-257 | the search starts at the best bet if and only if there is one with more than enough free bytes |
| Heap.HeapAllocator.Advance | clib/liballoc.cpp:283-302 | next run, back to the root once, or new pages |
| Heap.HeapAllocator.MallocBytes | clib/liballoc.cpp:182-510 | asks for pages if and only if no run has a contiguous gap that fits; null if and only if the provider then has none; otherwise exactly one allocation is added, aligned, in the first gap of its run; the restarted search terminates |
| Heap.HeapAllocator.FreeBytes | clib/liballoc.cpp:512-630 | exactly the allocation is removed, its run with it if it was the last; null and dead headers change only the counters |
| Heap.HeapAllocator.ReallocBytes | clib/liballoc.cpp:643-727 | shrink in place; or move, with memory exactly the old one plus the copy, then free the old allocation, also when no memory was left; null if and only if no gap fits and no pages are given; the result is aligned if and only if it moved or was aligned before |
| Locks.InitInv | kernel/locks.h:298-340 | the invariant holds when every task is outside the lock |
| Locks.CallKeeps | kernel/locks.h:298-340 | starting a call, or writing as the writer, keeps it |
| Locks.MetaKeeps | kernel/locks.h:301-335 | taking and releasing `meta_mutex` keeps it |
| Locks.ExclusiveKeeps | kernel/locks.h:266-274 | taking the exclusive mutex as a writer and releasing it keeps it |
| Locks.EnterKeeps | kernel/locks.h:276-282 | each load, store and compare-and-swap of `lock_shared` keeps it |
| Locks.LeaveKeeps | kernel/locks.h:284-290 | each one of `unlock_shared` keeps it, whichever reader took the exclusive mutex |
| Locks.StepKeeps | kernel/locks.cpp:78-105 | every step of every task keeps the invariant |
| Locks.Alone | kernel/locks.h:323-328 | a task that has, or can take, the exclusive mutex as a writer is the only one that holds the lock in any way |
| Locks.WriterIsAlone | kernel/locks.h:298-340 | in every state of every run a writer excludes readers, other writers and tasks half-way through an upgrade or downgrade |
| Locks.HeldDataIsStable | kernel/locks.h:301-335 | from getting the lock to giving it up, through upgrades and downgrades, the protected data changes only by the task's own writes |
| Locks.QuietIsFree | kernel/locks.h:263-296 | when no task is using the lock all three words are free and the count is zero |
| Locks.StuckReached | kernel/locks.h:301-328 | a run from any start with two tasks or more in which two readers upgrade and are stuck |
| Locks.LockStuckReached | kernel/locks.h:301-328 | a run from any start with two tasks or more in which the only reader upgrades while a writer waits for it, and both are stuck |
| Locks.UpgradersStuck | kernel/locks.h:323-328 | once a reader waits to upgrade while a task with the meta mutex waits for the exclusive one, to upgrade or to lock, neither ever moves again, in any run |
| Locks.UpgradeFinishesIff | kernel/locks.h:323-328 | in every reachable state an upgrade, wherever it is, can still become a writer if and only if no other task upgrades and none waits for the exclusive mutex in `lock` |
| Locks.DowngradeFinishesIff | kernel/locks.h:330-335 | in every reachable state a downgrade, wherever it is, can still become a reader if and only if no task is inside `lock` or `lock_shared` with the meta mutex |
| Locks.DowngradersStuck | kernel/locks.h:330-335 | once a writer waits to downgrade while such a task waits for it, both do in every later state |
| Locks.DowngradeStuckReached | kernel/locks.h:312-335 | a run from any start with two tasks or more that gets there |
| Locks.DrainsIff | kernel/locks.h:298-340 | these are the only deadlocks: from a state of any run all tasks can get out of the lock if and only if no two tasks wait for each other in one of these ways |
| Tasks.ClaimKeeps | kernel/task.cpp:551-559 | a successful test-and-set keeps the invariant |
| Tasks.SwitchKeeps | kernel/task.asm:86-101 | entering `switch_task` for the innermost claim keeps it |
| Tasks.SaveKeeps | kernel/task.asm:95-98 | saving the stack pointer and the page directory keeps it |
| Tasks.ClearKeeps | kernel/task.asm:103-106 | clearing `running` keeps it, with the context saved before |
| Tasks.LoadKeeps | kernel/task.asm:108-122 | loading the next task keeps it |
| Tasks.CreateKeeps | kernel/task.cpp:412-445 | creating a task keeps it |
| Tasks.CreatedStarts | kernel/task.cpp:412-445 | a new task is unmarked and has the context it is to start with saved for whoever takes it first |
| Tasks.ClaimIs | kernel/task.cpp:551-559 | a claim is made if and only if the task is not marked; it marks it, and changes nothing else |
| Tasks.SwitchBegins | kernel/task.asm:86-101 | `switch_task` is entered for the innermost claim, which is used up |
| Tasks.SwitchGoesOn | kernel/task.asm:95-138 | each step of the CPU brings it one nearer to executing the task it switches to, with that task's saved context; no step of another CPU moves it |
| Tasks.SwitchDone | kernel/task.asm:86-138 | undisturbed, seven steps lead to exactly the state in which the next task executes with its saved context, the last one's context is saved and its flag clear |
| Tasks.StepKeeps | kernel/task.cpp:205-221 | every step of every CPU keeps the invariant |
| Tasks.InitInv | kernel/task.cpp:232-253 | it holds when each CPU executes a marked task of its own |
| Tasks.OneCpuPerTask | kernel/task.cpp:205-221 | no two CPUs ever have the same task, executing it, putting it away or switching to it |
| Tasks.RunningMeansHad | kernel/task.asm:103-106 | `running` is set exactly while a CPU has the task or some task has claimed it |
| Tasks.SavedBeforeTaken | kernel/task.asm:95-106 | a task that no CPU is executing or putting away has its last context saved |
| Tasks.ResumesWhereItStopped | kernel/task.asm:108-138 | a CPU that executes a task has the context the task last had, whichever CPU it had it on |
| Tasks.LiveChangesByExecuting | kernel/task.asm:86-138 | only a CPU that is executing a task changes that context |
| FreeList.CanonicalUnique | kernel/physical_manager.cpp:163-203 | a set of free bytes has one non-empty, ordered, coalesced block list |
| FreeList.ClaimedIsExact | kernel/physical_manager.cpp:75-100 | a claim removes exactly its range, and leaves a canonical list if and only if it is not an empty range strictly inside a block |
| FreeList.ReservedIsExact | kernel/physical_manager.cpp:124-161 | reserving is exact set subtraction through splits, erasures and the step back of the iterator |
| FreeList.TurnKeeps | kernel/physical_manager.cpp:126-160 | a turn of the reserve loop that goes on keeps the list canonical and no longer |
| FreeList.ReserveKeepsCanonicalIff | kernel/physical_manager.cpp:124-161 | a reserve that does not wrap keeps the list canonical if and only if it is not an empty range strictly inside the first block |
| FreeList.ReserveExactIff | kernel/physical_manager.cpp:124-161 | reserving subtracts exactly the range from every list if and only if `address + size` does not wrap |
| FreeList.FreedIsExact | kernel/physical_manager.cpp:163-203 | freeing is disjoint union and keeps the list canonical, merging with both neighbours |
| FreeList.AlignAddrIsLeast | common/util.h:24-29 | `align_addr` is the least multiple not below the address, or 0 exactly when it wraps |
| FreeList.ServeIsExact | kernel/physical_manager.cpp:209-216 | a block serves a request at an aligned address exactly when the bytes there are free |
| FreeList.AllocateIsFirstFit | kernel/physical_manager.cpp:205-221 | the claim made is of the lowest aligned free range, and none is made only if there is none |
| FreeList.AllocateExactIff | kernel/physical_manager.cpp:205-221 | that holds for every list if and only if `size + align` does not pass 2^32 |
| FreeList.AllocateInRangeIsFirstFit | kernel/physical_manager.cpp:223-251 | the same within bounds, for bounds, sizes and alignments that are safe |
| FreeList.AllocateInRangeExactIff | kernel/physical_manager.cpp:223-251 | it is the first fit for every list if and only if `RangeSafe` holds of the bounds, the size and the alignment |
| FreeList.ZeroMeansNone | kernel/physical_manager.cpp:219-220 | an answer of 0 means that nothing fits if and only if the request does not fit at address 0; it is enough that byte 0 is not free or the bounds start above it |
| FreeList.AllocateAnswer | kernel/physical_manager.cpp:205-221 | so for `allocate_block`, on every canonical list |
| FreeList.AllocateInRangeAnswer | kernel/physical_manager.cpp:223-251 | and within bounds |
| FreeList.HarmDone | kernel/physical_manager.cpp:229-242 | for any others, the one-block list that is served wrongly |
| FreeList.FreeUndoesClaim | kernel/physical_manager.cpp:163-221 | freeing what was just claimed restores the identical block list |
| FreeList.TotalIsFreeBytes | kernel/physical_manager.cpp:253-263 | the lengths add up to the number of free bytes |
| FreeList.ClaimTotal | kernel/physical_manager.cpp:253-263 | a claim lowers the total by its size |
| PhysicalMemory.BlockList.Erase | kernel/physical_manager.cpp:43-52 | the array loses one block, later ones moved down |
| PhysicalMemory.BlockList.Emplace | kernel/physical_manager.cpp:61-73 | the array gains one block at the place given |
| PhysicalMemory.BlockList.ClaimFromBlock | kernel/physical_manager.cpp:75-100 | the array becomes the claimed list, and the iterator stands where the source leaves it |
| PhysicalMemory.BlockList.ReserveAt | kernel/physical_manager.cpp:126-160 | one turn of the loop on the array, with its wrapped arithmetic |
| PhysicalMemory.BlockList.Reserve | kernel/physical_manager.cpp:124-161 | the array becomes the reserved list |
| PhysicalMemory.BlockList.FreeRange | kernel/physical_manager.cpp:163-203 | the array becomes the freed list |
| PhysicalMemory.BlockList.MergeInto | kernel/physical_manager.cpp:171-199 | the merge with one neighbour, both, or none |
| PhysicalMemory.BlockList.AllocateBlock | kernel/physical_manager.cpp:205-221 | the answer and the array are those of the list; 0 means that nothing fits if and only if the request does not fit at address 0 |
| PhysicalMemory.BlockList.AllocateBlockInRange | kernel/physical_manager.cpp:223-251 | the same within bounds |
| PhysicalMemory.BlockList.NumBytesFree | kernel/physical_manager.cpp:253-263 | the sum does not wrap and counts the free bytes |
| Paging.Withdraw | kernel/memorymanager.cpp:45-48 | a page taken from the free list belongs to nobody; every other frame keeps its one owner |
| Paging.Attach | kernel/memorymanager.cpp:205-207 | such a page given to a table or a page has one owner |
| Paging.Detach | kernel/memorymanager.cpp:366-373 | a page taken from its owner belongs to nobody |
| Paging.Deposit | kernel/memorymanager.cpp:370-373 | and may be put back into the list |
| Paging.BytesConserved | kernel/memorymanager.cpp:271-382 | free bytes, plus a page for each table and each mapped page, always add up to the same arena |
| Paging.ClaimPageIsExact | kernel/memorymanager.cpp:45-48 | a page frame is claimed exactly when a whole aligned page is free, and it is not frame 0 |
| Paging.WithTableKeeps | kernel/memorymanager.cpp:92-105 | making a page table keeps the invariant if and only if a page was free for it |
| Paging.AllocatedBits | kernel/memorymanager.h:64-78 | an entry counts as allocated if and only if its word has a bit of `PAGE_ALLOCATED` |
| Paging.TableBits | kernel/memorymanager.cpp:94-96 | the word written for a new table has the frame, present, writable, user if the request has it, and neither of the two bits stripped |
| Paging.TableFields | kernel/memorymanager.cpp:92-105 | the new entry field by field, a page that was free behind it if there was one, the table empty, everything else as it was |
| Paging.PagesByBits | kernel/memorymanager.cpp:134-144 | which pages may be used, mapped and freed, told from `present` and `reserved` of their entries and from their tables |
| Paging.KernelSplit | kernel/memorymanager.cpp:38-43 | kernel searches begin at `KERNEL_SPLIT`, 0xE0000000, and end at the self-map window |
| Paging.FaultBits | kernel/memorymanager.cpp:471-486 | the words a fault handler writes: the flags the entry had, present, without the two bits, writable at first and in the end only if it was |
| Paging.FaultedKeeps | kernel/memorymanager.cpp:465-486 | backing a map-on-access page keeps the invariant |
| Paging.FaultedFields | kernel/memorymanager.cpp:465-486 | after a handled fault the page has the rights it had, is present, neither reserved nor map-on-access, and is backed by a page that was free; no other entry changes |
| Paging.ReleasedFields | kernel/memorymanager.cpp:359-373 | after freeing a page its entry is clear, its frame is free again if it had one, and nothing else changes |
| Paging.ReleasedKeeps | kernel/memorymanager.cpp:359-373 | freeing a page keeps the invariant, and what it gives back was not free |
| Paging.FreeUndoesFault | kernel/memorymanager.cpp:353-377 | freeing a page that was faulted in restores the free list block for block |
| Paging.SoundMeans | kernel/memorymanager.cpp:45-48 | frame 0 is never in use while the invariant holds, which is how a claim that went unnoticed shows |
| Paging.EagerTwice | kernel/memorymanager.cpp:300-309 | a second round of the eager loop always finds its page taken |
| Paging.EagerFields | kernel/memorymanager.cpp:300-309 | an eager page has the rights asked for and a page that was free behind it, in a table of its kind |
| Paging.EagerSound | kernel/memorymanager.cpp:300-309 | one eager page breaks the invariant in no other way than by using frame 0 |
| Paging.EagerExact | kernel/memorymanager.cpp:300-309 | one eager page keeps the invariant if and only if there is a free page for it, and one more for its table if that is missing |
| Paging.ClaimTakesOne | kernel/memorymanager.cpp:45-48 | a claim that succeeds takes one of the free pages out of their number, one that fails none |
| Paging.AccountTable | kernel/memorymanager.cpp:92-105 | each page table made takes one free page out of their number or, when none is left, uses frame 0 from then on; nothing else goes wrong |
| Paging.AccountEager | kernel/memorymanager.cpp:300-309 | after any number of tables made, an eager page leaves the invariant kept if and only if the free pages there were at the start cover the tables, the page, and its table if missing |
| Paging.PlacedMakes | kernel/memorymanager.cpp:310-322 | reserving a range makes exactly the page tables it is missing |
| Paging.HitZero | kernel/memorymanager.cpp:136-150 | the search stops at page 0 if and only if the usable pages from page 0 on are a run of the length asked for |
| Paging.RunAddress | kernel/memorymanager.cpp:148 | the wrapped formula gives the address of the first page of a run that spans tables |
| Paging.ScannedNext | kernel/memorymanager.cpp:136-150 | the count of pages found is the length of the run that ends at the cursor |
| Paging.PlacedNext | kernel/memorymanager.cpp:313-321 | reserving one more page of a range changes nothing else |
| VirtualMemory.AddressSpace.constructor | kernel/memorymanager.cpp:392-399 | a directory mapped to itself is a good space |
| VirtualMemory.AddressSpace.CreateNewPageTable | kernel/memorymanager.cpp:92-105 | the whole new state: frame claimed or 0, table cleared, flags stripped |
| VirtualMemory.AddressSpace.ScanTable | kernel/memorymanager.cpp:134-150 | finds a run that ends in the table, or carries the count on |
| VirtualMemory.AddressSpace.GetUnmappedPages | kernel/memorymanager.cpp:107-157 | `n` consecutive unallocated pages in tables of the kind asked for, below the self-map, or no such run in any table; the search passes no earlier run over but one that ends in a table it makes; which tables it makes; the run is at page 0 if and only if user pages were asked for and there is a run there |
| VirtualMemory.AddressSpace.MapPage | kernel/memorymanager.cpp:182-210 | succeeds exactly when nothing is mapped there and the table allows it, and then changes that entry only |
| VirtualMemory.AddressSpace.MapEager | kernel/memorymanager.cpp:300-309 | right for no page and for one; never succeeds for more |
| VirtualMemory.AddressSpace.MapLazy | kernel/memorymanager.cpp:310-322 | reserves all pages of the range if and only if all of them could be mapped, and nothing else |
| VirtualMemory.AddressSpace.VirtualAlloc | kernel/memorymanager.cpp:271-325 | result and new state for every address, count and flags; no page of the range had `present` or `reserved` set before, all have one now, every other page keeps its entry; null if and only if the run found is at page 0; the invariant is kept if and only if there were as many free pages as tables made and eager pages mapped, all told from the state before |
| VirtualMemory.AddressSpace.AllocateAll | kernel/memorymanager.cpp:271-325 | successive allocations return ranges that are pairwise apart |
| VirtualMemory.AddressSpace.HandlePageFault | kernel/memorymanager.cpp:448-494 | handles exactly the faults on map-on-access pages when a page is free, and the kernel's own assertions hold; the page then has the rights it had, field by field, and no other entry changes |
| VirtualMemory.AddressSpace.FreeRange | kernel/memorymanager.cpp:353-382 | frees page by page and stops at the first page that is not held |
| VirtualMemory.AddressSpace.RunCalls | kernel/memorymanager.cpp:271-494 | over any sequence of calls that does not halt, no frame ever has two owners or is owned and free and the bytes are conserved, if and only if every call found enough free pages |
| FatTable.SetThenGet | drivers/formats/fat.cpp:571-631 | the table is an array of entries: setting one makes it the value modulo the entry width and changes no other, also for 12-bit neighbours that share a byte (section "FAT Data Structure" of Microsoft's FAT: General Overview of On-Disk Format 1.03) |
| FatTable.SetThenGet12 | drivers/formats/fat.cpp:584-631 | the 12-bit case |
| FatTable.EntryIsNibbles | drivers/formats/fat.cpp:571-595 | where an entry lies in the bytes: entries are packed one after the other, of 12, 16, 32 and 32 bits, the lowest first, and the 28-bit one leaves its top four bits unused |
| FatTable.EndMarks | drivers/formats/fat.cpp:18-21 | an entry is an end-of-file mark if and only if all its bits but the low three are set |
| FatTable.Fat12BasesAgreeIff | drivers/formats/fat.cpp:589-616 | the 12-bit setter and getter agree on every disk if and only if a sector is one block or no sectors are reserved |
| Clusters.SpanExtends | drivers/formats/fat.cpp:806-818 | linking a run of free clusters extends the open chain by exactly that run |
| Clusters.MarkCompletes | drivers/formats/fat.cpp:900-907 | the end-of-file mark makes the extended path a chain |
| Clusters.OthersKept | drivers/formats/fat.cpp:862-909 | every other file keeps its chain, and shares no cluster with the extended one |
| Clusters.ChainUnique | drivers/formats/fat.cpp:653-665 | a cluster starts one chain only |
| FatClaims.SearchLinks | drivers/formats/fat.cpp:881-908 | a search extends the chain by exactly the clusters it takes, as many as are wanted if it succeeds, ending in the mark; nothing else changes |
| FatClaims.TakenCount | drivers/formats/fat.cpp:881-897 | it takes as many as are wanted, or all within its reach: those below `num_clusters`, where its loop ends, and the run that crosses that |
| FatClaims.TakenIsLowest | drivers/formats/fat.cpp:881-897 | the clusters it takes are the lowest free ones, in order |
| FatClaims.TakenBelowIff | drivers/formats/fat.cpp:888-895 | for any point from `num_clusters` on, it stays below it if and only if the free clusters there are enough or no run goes over both |
| FatClaims.MissesIff | drivers/formats/fat.cpp:883-895 | the run misses that cluster if and only if there is none, or it begins below it and is complete, or broken off, before it |
| FatClaims.RunsOutLinkedIff | drivers/formats/fat.cpp:866-908 | a claim whose list of freed clusters runs out extends the chain rightly if and only if the first run found misses the cluster taken last, or the claim fails and that run begins there or there was nothing before it in the chain |
| FatOutcomes.SearchRightIff | drivers/formats/fat.cpp:881-908 | the volume is clusters 2 to `num_clusters + 1`: a search fails with one of them free if and only if it wants more than are in its reach and one of the last two is free out of its reach; it leaves the volume if and only if a run goes over its end and the free clusters below are too few; it is right if and only if neither happens |
| FatOutcomes.ClaimRightIff | drivers/formats/fat.cpp:862-909 | so for a claim with no list of freed clusters; with one long enough it is right if and only if those it takes from it lie in the volume; what is left on the list is still free |
| FatOutcomes.RunsOutRightIff | drivers/formats/fat.cpp:866-908 | for every table, list and request with a list that runs out: exactly when the chain is extended by clusters of the volume only, and the claim fails only with none of it free, told from the table and the list before the call |
| FatOutcomes.DrainLeaves | drivers/formats/fat.cpp:866-897 | what such a search leaves free, and when it fails: as if the cluster taken last were free exactly when the first run goes over it |
| FatOutcomes.OverlookedExample | drivers/formats/fat.cpp:881 | a volume of three clusters, two of them free, in which a claim of one fails |
| FatOutcomes.PastTheEndExample | drivers/formats/fat.cpp:886-895 | a volume of three clusters from which four are claimed with success |
| FatOutcomes.LostClustersExample | drivers/formats/fat.cpp:866-908 | a table, a chain and a list for which a claim of four clusters returns success and has lost two |
| FileBytes.PieceWritten | drivers/formats/fat.cpp:723-746 | a write inside cluster `k` of a chain is a write at the same place of the file's bytes |
| FileBytes.PieceRead | drivers/formats/fat.cpp:778-801 | and a read is a read there |
| FileBytes.OtherFileKept | drivers/formats/fat.cpp:699-749 | a file that shares no cluster keeps its bytes |
| FileBytes.PiecesPlaced | drivers/formats/fat.cpp:720-746 | head, whole clusters and tail fall on the clusters they belong to |
| FileBytes.WrittenIsRead | drivers/formats/fat.cpp:699-804 | what was written is read back as far as the file goes, other offsets read as before |
| FatVolume.TableKept | drivers/formats/fat.cpp:723-746 | writing data clusters does not change the table |
| FatVolume.FatDrive.SetNextCluster | drivers/formats/fat.cpp:597-631 | one entry of the table changes |
| FatVolume.FatDrive.WriteToFat | drivers/formats/fat.cpp:806-818 | the table becomes the one with the run linked |
| FatVolume.FatDrive.ClaimClusters | drivers/formats/fat.cpp:862-909 | for every table and list: the table, the list left and the result are those of the claim on values |
| FatVolume.FatDrive.SearchFree | drivers/formats/fat.cpp:881-908 | the table and the result are those of the search on values |
| FatVolume.FatDrive.MeasureRun | drivers/formats/fat.cpp:886-895 | the longest run of free clusters, at most as many as are needed, and where the cursor then stands |
| FatVolume.FatDrive.GetRelativeCluster | drivers/formats/fat.cpp:653-665 | the cluster `n` links on, or an end-of-file mark exactly when the chain is shorter |
| FatVolume.FatDrive.FileByte | drivers/formats/fat.cpp:221-224 | byte `o` of cluster number `k` of a file is at `(cluster - 2) * cluster_size + o` of the data area |
| FatVolume.FatDrive.HeadInFileIff | drivers/formats/fat.cpp:721-730 | the bytes of a partial head are written into the file's own clusters if and only if it begins below the end of the chain; past it they go to the address of the end-of-file mark |
| FatVolume.FatDrive.Write | drivers/formats/fat.cpp:699-749 | the file's bytes become the old ones with the buffer spliced in, as far as the chain goes; table and bytes outside its clusters unchanged; which cluster is returned |
| FatVolume.FatDrive.Read | drivers/formats/fat.cpp:751-804 | returns exactly the file's bytes of the range, as far as the chain goes, and the cluster after them |
| BlockTree.PlaceInRange | drivers/formats/ext2.cpp:229-260 | every block number below `12 + p + p² + p³` has a place inside a block of `p` pointers at each level |
| BlockTree.PlacesDistinct | drivers/formats/ext2.cpp:229-260 | distinct block numbers have distinct places |
| BlockTree.PlaceIsInOrder | drivers/formats/ext2.cpp:229-260 | places are filled in the order of block numbers: 12 in the inode, the single indirect block, the children of the double one in turn, the grandchildren of the triple one in turn |
| BlockTree.NumberHasPlace | drivers/formats/ext2.cpp:229-260 | and every such word is the place of its number |
| BlockTree.LastNumber | drivers/formats/ext2.cpp:229-260 | the capacity is one more than the number of the last word of the last grandchild |
| BlockTree.NodesStay | drivers/formats/ext2.cpp:262-294 | writing a leaf pointer moves no pointer block |
| BlockTree.SetThenGet | drivers/formats/ext2.cpp:229-294 | the tree is a flat array: a write is read back, every other number keeps its value, the pointer blocks stay |
| BlockTree.GetIs | drivers/formats/ext2.cpp:229-260 | a block number read off the bytes of the disk: which words of which blocks are followed, from words 12, 13 and 14 of the inode |
| BlockTree.SetChangesOnly | drivers/formats/ext2.cpp:262-294 | setting one changes at most that word of the disk or of the inode |
| BlockTree.FullTreeReaches | drivers/formats/ext2.cpp:229-260 | with all pointer blocks present this covers the whole capacity |
| Ext2.Ext2Fs.GetBlockN | drivers/formats/ext2.cpp:229-260 | returns the flat array's entry |
| Ext2.Ext2Fs.SetBlockN | drivers/formats/ext2.cpp:262-294 | changes that entry of the flat array and no other |
| Bitmaps.FindFreeAndMark | drivers/formats/ext2.cpp:99-112 | sets exactly the first clear bit, or shows that none is clear |
| Bitmaps.BitIs | drivers/formats/ext2.cpp:99-112 | bit `i` of a bitmap is bit `i % 8` of byte `i / 8`, the lowest first |
| Bitmaps.ClearAfterMark | drivers/formats/ext2.cpp:99-112 | marking a clear bit lowers the count of clear bits by one |
| Bitmaps.FirstIsZero | drivers/formats/ext2.cpp:211-214 | the number returned is 0 if and only if the first bit of the first group was clear, and is short of the block by `first_data_block` |
| Bitmaps.Groups.AllocateBlock | drivers/formats/ext2.cpp:197-222 | takes the first free block of the first group with one, keeps every count equal to the clear bits it stands for; the number returned is the block's if and only if `first_data_block` is 0, and 0 means that none is free if and only if bit 0 of group 0 was set |
| ChainModel.FoundIsMapped | kernel/util/hash.h:41-58 | a key is in the map exactly when its own bucket has a node for it |
| ChainModel.AppendKeeps | kernel/util/hash.h:98-111 | a node added at the end of its bucket is one more pair of the map |
| ChainModel.UnlinkKeeps | kernel/util/hash.h:133-144 | relinking past a node removes its pair and no other; chains stay disjoint and acyclic |
| HashMap.HashTable.Walk | kernel/util/hash.h:119-127 | the walk ends at the node of the key, or nowhere exactly when the key is not in the map |
| HashMap.HashTable.Lookup | kernel/util/hash.h:41-58 | the map's value for the key, or none |
| HashMap.HashTable.Emplace | kernel/util/hash.h:85-114 | adds the pair exactly when the key is absent; never overwrites |
| HashMap.HashTable.Remove | kernel/util/hash.h:116-145 | removes the key's pair and no other |
| Forms.RoundTripIff | kernel/util/unicode.h:115-170 | encoding to UTF-16 and decoding gives a sequence back if and only if all its code points are scalar values (sections 2.1 and 2.2 of RFC 2781) |
| Forms.DecodedAreScalar | kernel/util/unicode.h:144-170 | decoding never yields a surrogate, whatever the input |
| Forms.CharRoundTrip | kernel/util/unicode.h:115-170 | one character decodes to itself and to the position after it |
| Forms.UniqueUtf16Form | kernel/util/unicode.h:115-130 | what is written for a character is the only UTF-16 section 2.1 of RFC 2781 gives it |
| Forms.DecodedIs | kernel/util/unicode.h:144-170 | what is decoded, whatever stands there: lone, repeated and missing surrogates included |
| Forms.UniqueForm | kernel/util/unicode.h:9-42 | what is written for a code point is the only form section 3 of RFC 3629 allows for it |
| Forms.ReplacementForm | kernel/util/unicode.h:9-42 | a number that is no code point is written as U+FFFD |
| Forms.Utf8Injective | kernel/util/unicode.h:44-54 | different sequences of characters have different UTF-8 |
| Forms.TranscodingKeepsMeaning | kernel/util/unicode.h:189-210 | on well-formed input the transcoder yields the UTF-8 of the same characters, so it is injective |
| Unicode.Utf16DecodeChar | kernel/util/unicode.h:144-170 | the loop computes the decoder |
| Unicode.Utf16Encode | kernel/util/unicode.h:132-142 | the loop appends the encodings in order |
| Unicode.Utf16ToUtf8 | kernel/util/unicode.h:189-210 | the loop computes the transcoder |

## Left out

- FatVolume.FatDrive.ClaimClusters: the search is followed up to the first entry at or after `num_clusters` that does not read as free, as the source does, and such an entry must be on the disk.
- FatVolume.FatDrive.Write: what happens after a head past the end of the chain has gone astray, where the source reads the table at the end-of-file mark; chunk numbers fit in `size_t`.
- VirtualMemory.AddressSpace.VirtualAlloc: page ranges end below the self-map window, where entries would be directory entries; of a call that halts only the reason is stated.
- VirtualMemory.AddressSpace.FreeRange: the form that frees what is allocated; the system call frees by the user flag instead.
- VirtualMemory.AddressSpace.AllocatePhysicalPage: the free list is a sequence there, so the 128 slots of the array, which bound `PhysicalMemory.BlockList`, do not limit it.
- PhysicalMemory.BlockList.Reserve: needs spare slots in the array, as the source does without checking.
- Heap.HeapAllocator.MallocBytes: sizes do not wrap and the alignment is a power of two; `HeapModel.PagesHoldIff` and `HeapModel.RoomHoldsIff` say exactly what goes wrong when they do.
- Heap.HeapAllocator.FreeBytes: takes null, live payloads, and addresses whose header is gone; a stale address whose header has been reused is not covered, nor is the count of possible overruns.
- Ext2.Ext2Fs.SetBlockN: pointer blocks are distinct whole blocks of the disk; the inode is apart from them.
- Bitmaps.Groups.AllocateBlock: the counts on the disk are right to begin with, so a group whose count is not zero has a clear bit.
- Concurrent calls into the cache: each call is one step. The locks inside it are modelled on their own.
- Fairness of the locks: it is shown who can still get out, not that they do; condition variables, `unique_lock` and `shared_lock` as objects, and unlocking by a task that does not hold the lock.
- `switch_task` calls that skip the test-and-set, task exit, interrupt and segment set-up, TLS registers.
- The contents of pages: clearing a new page and a new table is modelled for the entries only.
- `memmanager_set_page_flags`, `memmanager_map_to_new_pages`, address spaces other than the current one.
- `calloc_bytes`, which clears what `malloc_bytes` returned without looking whether it is null.
- `filesystem_chunkify_npow`, `memmanager_get_physical`, unmapping without freeing.
- A device whose size is not a whole number of cache lines.
- `fat_delete_file`, `ext2_allocate_blocks`, directories, root directories of FAT12 and FAT16, `ext2_read` and `ext2_write`.
- The two hash functions: the map is right for any function.
- UTF-8 decoding and the transcoder back to UTF-16.
- Device drivers, ELF loading, the terminal and everything above.
