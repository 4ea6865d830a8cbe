# Thix, in Dafny

Thix 0.3.7 is a small Unix-like kernel for the i386; tfs 0.2.1 holds the tools that make and check its
file system. This project models the parts of both whose data structures are hardest to keep straight
and proves what the code promises about them:

- **Paging** (`Vm*`, `PageLists`, `Frames`, `Pager`): demand loading, the page cache, copy-on-write
  fork, swapping. A pure state machine over the steps between two points at which a process may sleep
  (`VmModel`, `VmSteps`), its invariant (`VmInvariant`, kept by every step: `VmFaults`, `VmSharing`,
  `VmSwapping`), and a class over linked lists, hash chains and swap maps (`Pager`) each of whose methods
  is one of these steps. The main result is that over every run each process sees a flat private memory,
  as if no page were ever shared or swapped. Faults come to an end (`VmProgress`), and pages and swap
  blocks are taken in order (`VmOrder`).
- **Buffer cache** (`Rings`, `HashTable`, `Buffer*`): several processes in the cache at once, delayed
  writes, chained requests. The cache is transparent: it shows what a plain disk would after the same
  writes; it lets the least recently used blocks go first (`BufferOrder`).
- **Block maps of inodes** (`BlockMap`, `InodeMap`, `HoleReports`, `Truncate`, `TruncateFile`, `Inode`):
  the 0/1/2/3-level tree, look-up, allocation, truncation.
- **Regular files** (`FileModel`, `FileWalk`, `FileRead`, `FileExact`, `FileWrite`): reading through
  extents and read requests, writing, and the round trip between them.
- **Allocation and consistency** (`Bitmap`, `Cluster`, `Blocks`, `Layout`, `FsckModel`, `Fsck`, `FsckTidy`,
  `DataRows`, `Volume`, `VolumeWrite`): the cluster allocator, the layout made by mktfs, the second stage
  of tfsck, and what the kernel's work on one file does to the file system as a whole.
- **Scheduling** (`Sched*`): run queues, sleep chains, semaphores; who runs next and with how much time
  (`SchedLaws`).
- **Pipes** (`Pipe*`), over the blocks of their inodes, and the **memory sub-allocator** (`SubAlloc`, `VmAlloc`).

Code that works by updating structures in place is modelled by classes and loops over arrays, linked
lists and maps; what a method does is given by a function or a relation on values, and the theorems are
about these. A predicate that several proofs pass on without looking inside is wrapped in a quantifier
over one value (`forall n :: n == N ==> P(n)`), which keeps it folded.

`Arith` and `Basics` hold arithmetic and notions shared by the rest. `dafny verify dfyconfig.toml` checks
the whole project.

## Findings

Four properties that the code is meant to have do not hold of it. The model does what the code does; for
each property there is an input that breaks it and the exact condition under which it holds.

1. **wbmap() and large files.** At the triple indirect level wbmap() computes the index into the middle
   table without the remainder that _bmap() takes (`thix-0.3.7/fs/inode.c:1063`). The two agree if and
   only if the file block lies below `DIRECT_BLOCKS + B + 2 * B * B` (`InodeMap.WbmapIndexIff`); from there on the
   index runs off the table (`WbmapPastTable`, with numbers in `WbmapIndexFails`).
2. **Extents of holes.** When a table is missing, _bmap() reports the rest of a whole table as a hole,
   wherever the position lies below it. Blocks that are there can be reported missing, and the count can
   fall to 0 or below. `HoleReports.HoleReportIff` says for which positions the report is right in every
   file, `HoleExtentFails` gives a file in which it is not.
   For reading this means: regular_read() returns the bytes of the file, whatever they are, if and only
   if every block it takes for a hole is one (`FileExact.ReadsFileIff`); its walk stands still
   exactly where `StuckIff` says. If every table on the way is there both are right
   (`FileModel.DenseIsRight`).
3. **Truncation inside a table.** free_ilevel2() and free_ilevel3() drop the number of a table that they
   have only cut in part. i_truncate() is exact if and only if `TruncGuard` holds, which one can check
   before the call; otherwise a block is lost (`Inode.ITruncate`, `TruncateFails`). The same guard decides
   for the file system as a whole: tfsck finds it consistent afterwards if and only if the guard held
   (`Volume.TruncateKeepsIff`).
4. **Blocks past the size behind a missing table.** tfsck takes a block off the size for every entry of the
   tables it walks, and nothing for a table that is missing (`tfs-0.2.1/tfsck.c:540-541`), so of a file with holes
   it can accept blocks that lie past the size. It agrees with i_truncate() about what lies past it, for
   every size, if and only if no block of the file lies behind a missing table (`FsckTidy.TidyIff`); it
   never reports one that does not (`NothingPastIsTidy`). `TidyFails` gives a file with one that it misses.

A remark on the rest of the last block: i_truncate() leaves the bytes past the new size as they are, and
regular_write() past the end of the file does not clear them, so old contents can show again. Nothing but
truncation makes such bytes: where there are only zeros past the end, writing keeps it so
(`FileWrite.TailStaysClear`).

## Model

| member | source | states |
|---|---|---|
| VmRuns.StepIsFlat | thix-0.3.7/vm/mm.c:657-909 | one step of the paging code, seen from any page of any process, is the same step of a machine in which every page is private and in memory |
| VmRuns.RunIsFlat | thix-0.3.7/vm/mm.c:657-909 | so is every run from a state that meets the invariant |
| VmRuns.ReachableIsFlat | thix-0.3.7/kernel/fork.c:108-151 | from boot on, whatever faults, forks, unmappings and swapping happen, a process reads what it or its parent before the fork last wrote |
| VmRuns.ReachableIsExact | thix-0.3.7/vm/swap.c:190-254 | in every reachable state page counts and swap map counts are exactly the entries that use the page or block, the free list is exactly the pages with count 0, no two pages are hashed under a key, a hashed page holds what its block holds, and a writable page has one user |
| VmCounters.CountersFit | thix-0.3.7/include/thix/vm.h:129-185 | the 8-bit counters of pages and swap blocks never overflow: each stays below 256 in every state reachable with at most SYSTEM_PROCESS_MAX processes that each map a file block at one place |
| VmSteps.FreeBlockFound | thix-0.3.7/vm/swap.c:209-276 | while total_free_swap_blocks is not 0, swap_page() finds a device and get_swap_block() a block with count 0 on it |
| VmFaults.HitIs | thix-0.3.7/vm/mm.c:762-789 | a fault that finds its page in the cache changes nothing but the one entry, which gives up its block and names the page |
| VmSharing.CopyFinishIs | thix-0.3.7/vm/mm.c:702-722 | the copy gives up the reference to the shared page and names a page nobody else does, with the same contents |
| VmSwapping.TargetUnused | thix-0.3.7/vm/swap.c:209-232 | no entry and no fault handler names the block that the search finds, and once the pages still hashed under it have been cut loose no hashed page does |
| VmView.ReadingIsNotSaving | thix-0.3.7/vm/swap.c:284-297 | load_page() never reads a block whose write is under way |
| VmProgress.UnshareStores | thix-0.3.7/vm/mm.c:676-699 | after a protection fault of an only user the process may write to the page |
| VmProgress.CopyStores | thix-0.3.7/vm/mm.c:700-722 | after the copy, and after it has turned out not to be needed, it may write too |
| VmProgress.WriteFaultEnds | thix-0.3.7/vm/mm.c:657-723 | once a protection fault is over the process's write is enabled, and what it writes shows at that page of that process and nowhere else |
| VmProgress.HitLoads | thix-0.3.7/vm/mm.c:762-789 | after a fault that hits the cache the process may read the page |
| VmProgress.FinishLoads | thix-0.3.7/vm/mm.c:827-892 | after a fault that reads the page in it may too |
| VmProgress.WriteGoesThrough | thix-0.3.7/vm/mm.c:657-909 | liveness: with two pages to spare and nobody else reading the block, the handlers of a process that writes to any page of its, run one after the other, end with the write enabled, and no memory looks different then |
| VmProgress.SwapOutGoes | thix-0.3.7/vm/swap.c:504-585 | swapping out takes the page from its user unless it has to be written and there is no swap space; it is written only if its contents are nowhere else |
| VmProgress.SavedGoes | thix-0.3.7/vm/swap.c:332-353 | once written, the page has one user less and is free if that was the last |
| VmOrder.FreeListAges | thix-0.3.7/vm/mm.c:94-116 | the free list is a queue: no step lets a page overtake one that was freed before it |
| VmOrder.TakesOldest | thix-0.3.7/vm/mm.c:198-240 | the page taken for a fault or a copy is the one that has been free the longest |
| VmOrder.SwapIsNextFit | thix-0.3.7/vm/swap.c:209-276 | a page is written to the next free block after the latest one, round the end of the first device that has one, and the search goes on from there |
| PageLists.FreeList.Insert | thix-0.3.7/vm/mm.c:94-101 | the page becomes the last of the free list and no other link is disturbed |
| PageLists.FreeList.Delete | thix-0.3.7/vm/mm.c:109-116 | exactly the page leaves the list, whose order stays |
| PageLists.PageHash.Insert | thix-0.3.7/vm/mm.c:124-133 | the page enters the chain of its bucket |
| PageLists.PageHash.Delete | thix-0.3.7/vm/mm.c:141-149 | a hashed page leaves its chain, another is left alone |
| PageLists.PageHash.Search | thix-0.3.7/vm/mm.c:158-168 | finds a hashed page with the key if and only if there is one |
| Frames.Frames.GetPage | thix-0.3.7/vm/mm.c:198-240 | the head of the free list, whose count is 0 and never trips the panic, leaves the list and the cache and has count 1 |
| Frames.Frames.ReleasePage | thix-0.3.7/vm/mm.c:248-255 | one reference less; the page is on the list exactly if that was the last |
| Frames.Frames.TakeHashed | thix-0.3.7/vm/mm.c:266-275 | one reference more to a cached page, which leaves the free list if it was there |
| Frames.Frames.ClearFreeList | thix-0.3.7/vm/mm.c:325-341 | the free pages lose their blocks and leave the hash chains, the others keep theirs |
| Pager.Pager.BlockIsLoading | thix-0.3.7/vm/mm.c:367-378 | true if and only if some process has recorded the block |
| Pager.Pager.PageNotPresentFault | thix-0.3.7/vm/mm.c:745-808 | up to the point where a page is reserved the handler does the step Hit or Start of the state machine, or sleeps if another process is reading the block |
| Pager.Pager.AllocatePage | thix-0.3.7/vm/mm.c:810-825 | the process has a busy new page to fill, or must sleep because there is none |
| Pager.Pager.FinishFault | thix-0.3.7/vm/mm.c:827-892 | the filled page is entered in the cache, the swap block given back, the entry set, exactly as the step Finish |
| Pager.Pager.PageProtectionFault | thix-0.3.7/vm/mm.c:676-699 | an only user makes the page its own, another one starts to copy, as the steps do; where that leads is `VmProgress.UnshareStores` and `CopyStores` |
| Pager.Pager.FinishProtectionFault | thix-0.3.7/vm/mm.c:700-722 | the page is copied unless it has become private while the process slept, as the step CopyFinish; either way the process may write then (`VmProgress.CopyStores`) |
| Pager.Pager.DeletePage | thix-0.3.7/vm/mm.c:1014-1035 | the entry gives up its page or its swap block and nothing else changes |
| Pager.Pager.ForkPages | thix-0.3.7/kernel/fork.c:108-151 | the loop over the parent's pages does the step Fork: all present pages shared read-only, all swap blocks with one more user |
| Pager.Pager.NewSwapBlock | thix-0.3.7/vm/swap.c:209-238 | the first free block after the latest one, or from 1 on, is taken, and every page still hashed under it is cut loose |
| Pager.Pager.ReleaseSwapBlock | thix-0.3.7/vm/swap.c:247-254 | one user less, and the free totals grow exactly if that was the last |
| Pager.Pager.SwapOutPage | thix-0.3.7/vm/swap.c:504-585 | a page whose contents can be had again is dropped; another one goes to a new swap block and its write is under way; as the steps do |
| Pager.Pager.FinishSwapOut | thix-0.3.7/vm/swap.c:332-353 | the device holds the page, and the swapper gives up its hold on it |
| Buffer.BufferCache.BufGetOnce | thix-0.3.7/fs/buffer.c:538-618 | one turn of the loop: a hit, a buffer off the master list, the least recently used one if it is idle and clean, or the reason to wait; lists, chains and records end up as the specification function says |
| Buffer.GetIsStep | thix-0.3.7/fs/buffer.c:538-618 | a turn gets a buffer exactly where the step Get of the interleaved model is enabled, and does that step |
| Buffer.BufferCache.BufRelease | thix-0.3.7/fs/buffer.c:628-644 | a valid buffer goes to the tail of the free list, another to its head, and is idle, as the step Release1; what order this makes is `BufferOrder.FreeListIsLru` |
| Buffer.BufferCache.BufWrite | thix-0.3.7/fs/buffer.c:405-409 | the buffer is marked valid and dirty and goes to the tail of the free list, as the step Write1 (`BufferOrder.FreeListIsLru`) |
| Buffer.BufferCache.BufRead | thix-0.3.7/fs/buffer.c:372-394 | the buffer becomes valid with what the disk holds, unless it was valid before |
| Buffer.BufferCache.BufRemove | thix-0.3.7/fs/buffer.c:308-324 | the buffer leaves free list and hash table for the master list |
| Buffer.BufferCache.BufFlush | thix-0.3.7/fs/buffer.c:430-527 | with nobody else at work the call leaves cache and disk as Flush() says and returns the number of buffers written or removed |
| Buffer.BufferCache.BufSyncDevice | thix-0.3.7/fs/buffer.c:671-719 | afterwards no buffer of the device on the free list is dirty; with removal none of its buffers is left but those in other hands |
| Buffer.BufferCache.constructor | thix-0.3.7/fs/buffer.c:790-817 | all buffers are on the master list and the cache is the start of every run |
| BufferSteps.StepKeeps | thix-0.3.7/fs/buffer.c:430-644 | each step of any process keeps lists, hash table, busy, dirty and valid bits and requests under way in agreement, and the cache goes on showing what a plain disk holds |
| BufferSteps.ReachableIsTransparent | thix-0.3.7/fs/buffer.c:430-644 | over every interleaving, a process that holds a valid buffer sees the plain disk, and once nothing is dirty, held or under way the disk itself equals it, freed blocks aside |
| BufferSteps.DirtyStays | thix-0.3.7/fs/buffer.c:405-409 | no delayed write is dropped: a dirty buffer keeps its block and contents until a request takes it or its block is freed, and only its holder changes it |
| BufferOrder.FreeListIsLru | thix-0.3.7/fs/buffer.c:405-644 | over every interleaving the valid buffers on the free list stand in the order in which they were last released or written |
| BufferOrder.GetTakesOldest | thix-0.3.7/fs/buffer.c:538-618 | buf_get() of a cached block lets no block go; of another one it takes a buffer without a block if there is one, and else lets exactly one block go: if that holds data, the least recently used of those that do |
| BufferOrder.EmptyGoesFirst | thix-0.3.7/fs/buffer.c:628-644 | a buffer released without data is the one that the next miss takes |
| BufferOrder.FreedIsNotWritten | thix-0.3.7/fs/block.c:118-146 | in every reachable state no buffer of a block that b_free() has freed is dirty, so no request takes one before somebody writes the block again |
| BufferFlush.RequestIsChain | thix-0.3.7/fs/buffer.c:430-527 | a request is a chain of different dirty buffers for consecutive blocks of one device, no longer than asked |
| BufferOrder.RequestIsLongest | thix-0.3.7/fs/buffer.c:430-527 | a request begins with the first dirty buffer, of the device if one is asked for, and takes in the dirty ones behind it until the count is used up, none is left, or the next is not for the following block |
| BufferFlush.FlushRuns | thix-0.3.7/fs/buffer.c:430-527 | buf_flush() is a run of those steps, takes count - left buffers, and no block shows anything else afterwards |
| BufferFlush.FlushFreesHead | thix-0.3.7/fs/buffer.c:570-590 | buf_get() makes progress: after it has flushed, the least recently used buffer is still the same one, now idle and clean |
| BufferFlush.SyncCleans | thix-0.3.7/fs/buffer.c:671-719 | a count of the dirty buffers is enough to clean the device |
| BufferFlush.RemoveEmpties | thix-0.3.7/fs/buffer.c:671-719 | a count of the free buffers is enough to empty it |
| Inode.Inode.GetBlock | thix-0.3.7/fs/inode.c:510-515 | the 24-bit number packed at the index |
| Inode.Inode.PutBlock | thix-0.3.7/fs/inode.c:521-526 | sets that number and no other |
| Inode.Inode.Bmap | thix-0.3.7/fs/inode.c:763-826 | the table that holds the number of the file block, its index there and the numbers that follow; or how many blocks are reported missing |
| InodeMap.HoleExtentIff | thix-0.3.7/fs/inode.c:784-813 | where the reported blocks are at least one and lie below the missing table, in terms of the position there |
| HoleReports.HoleReportIff | thix-0.3.7/fs/inode.c:784-813 | for every position below a missing table: the report is not empty and of holes only, in every valid file in which the table is missing, if and only if the position is such a one or the file cannot go on after the table (finding 2) |
| InodeMap.HoleExtent | thix-0.3.7/fs/inode.c:784-813 | under that condition every block reported missing is a hole |
| HoleReports.HoleExtentFails | thix-0.3.7/fs/inode.c:804-813 | a valid file with a block that is reported missing though it is there |
| InodeMap.PlaceInverse | thix-0.3.7/fs/inode.c:529-539 | every file block below the maximum has one place in the trees, from which its number is computed back |
| Inode.Inode.Wbmap | thix-0.3.7/fs/inode.c:1009-1077 | returns the block of the file block, allocating it and the missing tables above it from the free blocks; no other file block moves, the file stays a valid one, no block outside it is written, and 0 means that no block is free |
| InodeMap.WbmapIndexIff | thix-0.3.7/fs/inode.c:1040-1077 | the indices wbmap() computes are those of the file block if and only if it is below WbmapBound (finding 1) |
| InodeMap.WbmapPastTable | thix-0.3.7/fs/inode.c:1063 | from the bound on the index lies past the end of the middle table |
| InodeMap.WbmapIndexFails | thix-0.3.7/fs/inode.c:1063 | the first such block with one-kilobyte blocks |
| Inode.Inode.FreeIlevel1 | thix-0.3.7/fs/inode.c:567-595 | frees exactly the entries from start on, and the table if that is all of them, and takes them off i_blocks |
| Inode.Inode.FreeIlevel2 | thix-0.3.7/fs/inode.c:604-633 | frees exactly what Freed2() names and leaves the tables as Tables2() says |
| Inode.Inode.FreeIlevel3 | thix-0.3.7/fs/inode.c:642-671 | frees exactly what FreedBy3() names: what free_ilevel2() frees below each entry from start on, and the table if the cut is at 0; rows change only below the table |
| Inode.Inode.ITruncate | thix-0.3.7/fs/inode.c:679-748 | releases exactly the blocks past the cut, and leaves every block before it in its place, if and only if TruncGuard holds; otherwise a block is lost; i_blocks shrinks by the number of blocks freed in any case, and nothing outside the file is written |
| TruncateFile.TruncateFails | thix-0.3.7/fs/inode.c:604-633 | a file and a cut for which it does not (finding 3) |
| FileRead.Reader.RegularRead | thix-0.3.7/fs/regular.c:103-228 | returns as many bytes as are asked for and there, each from the block that the walk over the extents takes, releases every buffer, and issues only requests for consecutive blocks of the file |
| FileExact.ReadsFileIff | thix-0.3.7/fs/regular.c:103-228 | these are the bytes of the file, whatever it contains, if and only if every block taken for a hole is one |
| FileExact.WalkCanBeRead | thix-0.3.7/fs/regular.c:124-140 | a walk all of whose extents are not empty comes to its end |
| FileExact.StuckIff | thix-0.3.7/fs/inode.c:784-791 | an extent is empty or negative exactly below an empty slot of two or three levels, past its first table |
| FileModel.DenseIsRight | thix-0.3.7/fs/inode.c:763-826 | if every table on the way is there the walk ends and its holes are holes |
| FileModel.MapInjective | thix-0.3.7/fs/inode.c:763-826 | no two file blocks of a valid file share a disk block |
| FileRead.PartOfBlock | thix-0.3.7/fs/generic.c:156-172 | the blocks that io_blocks() counts are used up one for one by the parts that the loop reads |
| FileWrite.Writer.RegularWrite | thix-0.3.7/fs/regular.c:236-288 | writes a prefix of the bytes at the offset, or at the end for O_APPEND; every other byte of the file stays, i_size covers what was written, and fewer are written only when no block is free (-ENOSPC if none) |
| FileWrite.WrittenReadsBack | thix-0.3.7/fs/regular.c:103-288 | round trip: the walk of regular_read() over what was written ends, and takes blocks that hold exactly those bytes |
| FileWrite.TailStaysClear | thix-0.3.7/fs/regular.c:252-275 | if there are only zeros past the end of the file it is so after a write |
| Bitmap.CountBitmap | thix-0.3.7/fs/cluster.c:66-86 | the table look-up by bytes adds up to the number of set bits |
| Cluster.Allocator.GetResource | thix-0.3.7/fs/cluster.c:94-108 | returns the lowest set bit and clears it and no other |
| Cluster.Allocator.ReleaseResource | thix-0.3.7/fs/cluster.c:116-119 | sets that bit and no other |
| Cluster.Allocator.FlushCluster | thix-0.3.7/fs/cluster.c:127-157 | the disk holds all bitmaps in force |
| Cluster.Allocator.SwitchCluster | thix-0.3.7/fs/cluster.c:165-220 | loads the cluster if it has free resources or if told so; no resource changes its state |
| Cluster.Allocator.SearchCluster | thix-0.3.7/fs/cluster.c:236-291 | finds a cluster with a free resource if and only if the file system has one, the first after the one loaded, round the end; and loses none |
| Cluster.Allocator.Alloc | thix-0.3.7/fs/block.c:75-109 | takes exactly one free resource if and only if there is one: the lowest of the loaded cluster, or of the next one that has any |
| Cluster.Allocator.Release | thix-0.3.7/fs/block.c:118-146 | gives back exactly that one, switching clusters if need be |
| Cluster.Allocator.CountsAreExact | thix-0.3.7/fs/cluster.c:165-220 | the count in the superblock is the number of free resources, that of the loaded cluster its share |
| Blocks.BlockAllocator.BAlloc | thix-0.3.7/fs/block.c:75-109 | some free block of the file system leaves the set of free blocks, or 0 if that is empty |
| Blocks.BlockAllocator.BFree | thix-0.3.7/fs/block.c:118-146 | a data block in use joins it, found again from its number |
| Blocks.FreeIsFree | tfs-0.2.1/tfsck.c:814-909 | the set of free blocks over which the kernel allocates is the one tfsck reads off the bitmaps, and s_bfree its count |
| Blocks.InodesCounted | tfs-0.2.1/tfsck.c:671-693 | s_ifree of a consistent file system is the number of inodes that are not in use, with inode 0, which does not exist, if its bit is set |
| Layout.Format | tfs-0.2.1/mktfs.c:304-363 | the computed layout is sound if and only if the device holds one cluster head, it uses the whole device but for a remainder smaller than a cluster head and 32 blocks |
| Layout.Tiling | thix-0.3.7/include/thix/cluster.h:24-45 | every used block is reserved or the data block of some cluster, and never both |
| Layout.DataBlockThere | thix-0.3.7/include/thix/cluster.h:33-45 | cluster2fs() and fs2cluster() are inverse on the data blocks |
| Layout.FlatInjective | tfs-0.2.1/tfsck.c:451-464 | different data blocks have different bits in tfsck's bitmap, all inside it |
| Layout.FlatOnto | tfs-0.2.1/tfsck.c:451-464 | every bit of that bitmap is the bit of a data block, the one that quotient and remainder give |
| Fsck.Checker.MarkBlock | tfs-0.2.1/tfsck.c:451-464 | clears the block's bit and returns what it was |
| Fsck.Checker.InsertBlock | tfs-0.2.1/tfsck.c:492-533 | no error if and only if the block is in range, not reserved, met for the first time and inside the size |
| Fsck.Checker.Single | tfs-0.2.1/tfsck.c:536-566 | no error if and only if all references below the table are in order, and then they are all marked |
| Fsck.Checker.Double | tfs-0.2.1/tfsck.c:569-604 | the same two levels up |
| Fsck.Checker.Triple | tfs-0.2.1/tfsck.c:607-642 | the same three levels up |
| Fsck.Checker.CheckClusterInodes | tfs-0.2.1/tfsck.c:671-811 | no error if and only if every inode of the cluster is in order after those before it, which for its size means what `FsckTidy.TidyIsNothingPast` says; the free ones are counted |
| Fsck.Checker.CheckClusterBlocks | tfs-0.2.1/tfsck.c:814-909 | no error if and only if the bitmap on disk has exactly the blocks not referred to |
| Fsck.Checker.Stage2 | tfs-0.2.1/tfsck.c:1303-1350 | the stage reports no error if and only if the file system is consistent and tidy: references in range, to no reserved block and none twice, exact block counts, bitmaps and totals, no block past a size as tfsck counts it (what that comes to is `FsckTidy.TidyIff`), no mode in a free inode |
| FsckTidy.NothingPastIsTidy | tfs-0.2.1/tfsck.c:756-785 | tfsck finds no block past the size in a file of which i_truncate() at its size would release nothing |
| FsckTidy.TidyIsNothingPast | tfs-0.2.1/tfsck.c:756-785 | and of a file without a block behind a missing table it accepts exactly those: its accounting of the size is the block boundary at which i_truncate() cuts |
| FsckTidy.TidyIff | tfs-0.2.1/tfsck.c:492-642 | the two agree whatever the size if and only if no block or table of the file lies behind a missing table (finding 4) |
| FsckTidy.TidyFails | tfs-0.2.1/tfsck.c:536-566 | a valid file with a block past its size that is not noticed |
| FsckModel.ConsistentIsValid | thix-0.3.7/fs/inode.c:679-748 | in a consistent file system every inode in use is a valid file, which is what the kernel's code relies on |
| FsckModel.FilesApart | tfs-0.2.1/tfsck.c:451-464 | two files of a consistent file system share no block |
| FsckModel.FreeIsUnreferred | tfs-0.2.1/tfsck.c:814-909 | a data block is free if and only if no file refers to it |
| Volume.ReshapeKeeps | thix-0.3.7/fs/inode.c:679-1077 | whatever moves blocks between one file and the free ones, leaves it valid and writes only to its blocks, keeps the whole file system consistent, whatever is in its data blocks and in the free ones; s_bfree and the bitmaps are those of the allocator |
| Volume.GrowthKeeps | thix-0.3.7/fs/inode.c:1009-1077 | so wbmap() keeps it consistent |
| DataRows.RewrittenKeeps | thix-0.3.7/fs/regular.c:252-275 | rewriting any blocks but its tables leaves a valid file valid, with the same blocks in the same places |
| VolumeWrite.WriteKeeps | thix-0.3.7/fs/regular.c:236-288 | regular_write() keeps the file system consistent, with its bytes in the data blocks on disk; every block can still be read and the file has its blocks where it has put them |
| Volume.TruncateKeepsIff | thix-0.3.7/fs/inode.c:679-748 | i_truncate() leaves the file system consistent if and only if TruncGuard holds |
| Scheduler.Kernel.NewSchedulable | thix-0.3.7/kernel/sched.c:575-586 | the process becomes the last of its level |
| Scheduler.Kernel.DeleteSchedulable | thix-0.3.7/kernel/sched.c:596-604 | the head of the level leaves it |
| Scheduler.Kernel.RestoreSchedulable | thix-0.3.7/kernel/sched.c:613-621 | the process becomes the first of its level |
| Scheduler.Kernel.RunScheduler | thix-0.3.7/kernel/sched.c:741-836 | charges the running process, refills the levels if none has a process, and picks, as Schedule() says, of which `SchedLaws.ScheduleLaw` tells what it means |
| SchedModel.ScheduleKeeps | thix-0.3.7/kernel/sched.c:741-836 | every process stays in exactly its place, the one picked is the head of its level, and IDLE is picked if and only if nobody is runnable; which level, and who has how much time left, is `SchedLaws.ScheduleLaw` |
| SchedLaws.ScheduleLaw | thix-0.3.7/kernel/sched.c:741-836 | nobody is runnable above the process picked: up to the top level if sched_touched is set, nothing ran or new time was given, else up to the level that the running process had; that one has a tick less, those without time get their base if everybody up to there has spent his, and nobody else's time changes |
| SchedLaws.PlacesKept | thix-0.3.7/kernel/sched.c:741-836 | round robin: whoever waits at a level keeps his place, those who come to it stand behind him |
| SchedRuns.Run | thix-0.3.7/kernel/sched.c:741-836 | over every run of interrupts, sleeps, wakeups, forks, changes of priority and exits a runnable process is on exactly its run queue, a sleeping one on exactly its sleep chain, and the one that runs heads its level |
| Scheduler.Kernel.SleepOn | thix-0.3.7/kernel/sleep.c:101-148 | the running process is asleep on the address, in its chain and off its queue, and another one runs; the time it goes on with is `SchedLaws.SleepKeepsTime` |
| SchedLaws.SleepKeepsTime | thix-0.3.7/kernel/sleep.c:101-148 | over every run: a process that falls asleep goes on, when it is first chosen again, with exactly the time it had, and stands until then at the level it asked for |
| SchedLaws.SleepersStack | thix-0.3.7/kernel/sleep.c:101-148 | the last one to fall asleep on an address is the first that wakeup_one_process() finds |
| Scheduler.Kernel.Wakeup | thix-0.3.7/kernel/sleep.c:162-180 | the walk with the moving pointer wakes as WakeAll() says |
| SchedRuns.WakeAllExact | thix-0.3.7/kernel/sleep.c:162-180 | exactly the sleepers on the address become runnable, and none is left |
| SchedLaws.WokenComeFirst | thix-0.3.7/kernel/sleep.c:162-180 | after a wakeup() that wakes anybody the next scheduler() picks a process above which nobody is runnable |
| SchedLaws.ForkPlaces | thix-0.3.7/kernel/fork.c:180-187 | a child comes last at its parent's base level with a whole quantum, and the next scheduler() looks from the top |
| Scheduler.Kernel.WakeupProcess | thix-0.3.7/kernel/sleep.c:198-221 | a sleeping process is found in its chain and woken up |
| Scheduler.Kernel.WakeupOneProcess | thix-0.3.7/kernel/sleep.c:233-254 | the first sleeper of the chain on the address is woken up, and 1 returned, or 0 if there is none |
| SchedRuns.WakeOneExact | thix-0.3.7/kernel/sleep.c:233-254 | that one and nobody else |
| Scheduler.Kernel.Down | thix-0.3.7/kernel/semaphore.c:69-77 | is the step Down of the semaphore model |
| Scheduler.Kernel.Up | thix-0.3.7/kernel/semaphore.c:93-99 | is the step Up |
| SchedRuns.SemStarts | thix-0.3.7/kernel/semaphore.c:69-99 | a semaphore with nobody asleep on it meets the invariant with its initial value |
| SchedRuns.SemRunKeeps | thix-0.3.7/kernel/semaphore.c:69-99 | conservation: over every run value and admitted processes make up the initial value, and processes wait only while the value is 0 |
| SchedRuns.UpWakesOne | thix-0.3.7/kernel/semaphore.c:93-99 | with waiters up() makes exactly the first of them runnable and leaves the value |
| PipeLoops.PipeInode.ReadLoop | thix-0.3.7/fs/pipe.c:160-204 | returns the oldest unread bytes, as many as are asked for and there, out of the blocks of the inode, and leaves the rest; rbmap() finds every block, so the panic is not reached |
| PipeLoops.PipeInode.WriteLoop | thix-0.3.7/fs/pipe.c:239-277 | appends a prefix of the bytes to the unread ones, all there is room for unless no block is free; the inode stays valid and only grows by free blocks |
| PipeLoops.PipeInode.WriteChunk | thix-0.3.7/fs/pipe.c:253-276 | one turn over wbmap() and the buffer it hands back is a turn of the ring, or leaves it alone because the block is missing and none is free |
| PipeModel.ReadTakes | thix-0.3.7/fs/pipe.c:160-204 | a turn of reading takes the oldest bytes, wherever the offsets stand in the ring, from a block that is there |
| PipeModel.WriteAppends | thix-0.3.7/fs/pipe.c:253-276 | a turn of writing appends its bytes to the unread ones, wherever the offsets stand and whether wbmap() has found the block or allocated and cleared it |
| PipeRuns.RunKeeps | thix-0.3.7/fs/pipe.c:150-285 | over every interleaving of readers and writers, some of whose writes end short or are interrupted, the bytes read are the first of those written, in order, and the rest is in the pipe |
| PipeRuns.PipeIsFifo | thix-0.3.7/fs/pipe.c:150-285 | so it is from a new pipe on, and the next byte to be read always has its block |
| PipeRuns.SmallIsAtomic | thix-0.3.7/fs/pipe.c:229-249 | a write of at most PIPE_BUF bytes never sleeps once it has begun, and what it has copied is at any time, and stays, one contiguous run of all that is written |
| VmAlloc.SubAllocator.Insert | thix-0.3.7/vm/vmalloc.c:66-73 | the page becomes the head of its list, the other lists stay |
| VmAlloc.SubAllocator.Delete | thix-0.3.7/vm/vmalloc.c:81-91 | exactly the page leaves its list |
| VmAlloc.SubAllocator.Alloc | thix-0.3.7/vm/vmalloc.c:102-161 | a chunk that is handed out to nobody, the first such one of its page, from a cut page before a new one and from the dedicated pool before the general one; it fails exactly if there is neither |
| VmAlloc.SubAllocator.Free | thix-0.3.7/vm/vmalloc.c:170-212 | exactly that chunk is free again, and a page without chunks returns to the pool it came from |
| SubAlloc.ChunksApart | thix-0.3.7/vm/vmalloc.c:102-161 | two chunks of a page overlap in no unit |
| SubAlloc.FreeUndoesAlloc | thix-0.3.7/vm/vmalloc.c:170-212 | freeing what was just allocated restores the page's map |

## Left out

- Inode.Inode.Wbmap: is stated for file blocks below WbmapBound only, because from there on the code reads past the end of a table (`InodeMap.WbmapPastTable`).
- Inode.Inode.ITruncate: does not say what the tables hold after a cut that the guard excludes, beyond that a block is lost.
- FileWrite.Writer.RegularWrite: is stated for file blocks below WbmapBound only, for the same reason; disk errors are not modelled.
- FileRead.Reader.RegularRead: is stated for walks that end, because on the others the loop of the code does not end as it should (`FileExact.StuckIff`); reads of several buffers at once are issued per request, not per sector.
- Fsck.Checker.Stage2: assumes that no reference that is followed lies in the few unused blocks behind the last cluster, for which the code would set a bit outside its bitmap; the size is an integer without bounds, so the 32-bit wrap-around of a size that starts below zero (2 GB and more on disk) is not modelled.
- Fsck.Checker.CheckClusterBlocks: repairs nothing; the other stages of tfsck, its directory checks and its repairs are not modelled.
- Layout.Format: requires a device that holds the blocks before the first cluster; below that the unsigned arithmetic of the tool wraps.
- VmCounters.CountersFit: assumes that every mapping of a file puts a given block at one page of the address space, as exec does.
- Disk and driver errors: every read and write succeeds.
- Paging: page tables and kernel pages themselves, the swapper's choice by age and working set, brk and exec beyond mapping and unmapping pages; the head of the page list is kept behind the pages instead of at index 0; the block number 0 of a file.
- Buffer cache: the memory of the buffers, which vm_alloc() provides, and different block sizes; Reader and Writer name a buffer by its block.
- Inodes: the inode cache, locks, time stamps, owners and directories; the set of free blocks in Inode is the one of `Blocks.BlockAllocator`, whose methods meet the same contracts.
- Scheduling: signals that interrupt a sleep, the sleepers' in_demand flags, timing.
- Pipes: when a reader sees end of file, the signal SIGPIPE itself, and the order in which sleepers are woken.
- Memory sub-allocator: whole pages of 4096 bytes; the map of a page is a set of unit numbers, and the bit-count table of cluster.c a function.
