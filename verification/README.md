# FeatherOS kernel algorithms in Dafny

FeatherOS is an x86_64 teaching kernel in C. This project models the parts of it that carry hard
invariants and proves what they guarantee, for every input, every run and every interleaving.
`dafny verify dfyconfig.toml` checks everything.

Most components come in three layers. A *specification* file gives the operations as functions on
values and the invariant they keep. A *runs* part proves what holds after any sequence of
operations. A *class* does what the kernel does, on arrays, links and counters changed in place,
and is proved equal to the functions. The slab allocator has one more layer, `SlabMachine`, in which
the free lists are in the bytes of physical memory.

| component | files | main result |
|---|---|---|
| frame allocator | `Bits`, `FrameAllocatorSpec`, `FrameRuns`, `FrameBitmap` | lowest free run, disjoint outstanding runs, constant difference of free count and clear bits |
| four-level paging | `PageTables`, `PagingSpec`, `PagingRuns`, `PagingBoot`, `PagingUser`, `Paging` | the radix walk over memory words refines a flat map from page to entry, whose entries are right bit by bit |
| memory areas | `Trees`, `RedBlack`, `VmaOrder`, `VmaTree` | in-place red-black insertion, logarithmic height, exact interval lookup |
| locks | `Counting`, `RwLock`, `Mutex`, `Semaphore`, `CondVar` | mutual exclusion by the calls made, atomic sections and conservation under every interleaving |
| slab caches | `SlabLayout`, `SlabMemory`, `SlabSpec`, `SlabMachine`, `SlabRuns`, `Slab` | free lists threaded through memory survive every client write; no object out twice, exact lists and counters |
| hash table | `HashTableSpec`, `HashStacks`, `HashTable` | unbroken probe chains, finite-map behaviour, a stack of copies per key under remove |
| CFS run queue | `RunQueueSpec`, `RunQueue` | a stable priority queue; exactly when a dequeue loses tasks |
| Internet checksum, routes | `Checksum`, `IpHeader`, `Routes` | built headers are right byte by byte and verify, error detection, RFC 1071 laws, longest prefix of 32-bit addresses |
| byte pipe | `FifoSpec`, `Fifo` | bytes read are a prefix of bytes accepted |
| rasterisers | `Raster` | half-pixel lines and circle bounds |

The layout of page tables is that of 4-level paging, section 4.5 of the Intel SDM, Volume 3A, and
access rights those of its section 4.6. The
checksum follows sections 1 and 2 of RFC 1071 and section 3.1 of RFC 791; route lookup follows
section 5.2.4.3 of RFC 1812.

## How the model reads the code

- Words of the bitmap and page-table entries are naturals; shifts and masks are division and
  remainder. 64-bit address arithmetic in ranges, the 32-bit checksum accumulator and the 32-bit
  semaphore count wrap around as in the code.
- For paging, physical memory is an array of frames of 512 words; for the slab allocator it is an
  array of bytes, in which the links of free objects are 64-bit little-endian words. The direct map
  is given.
- The paging results start from a PML4 whose frame is reserved. The code makes no such reservation:
  `physical_reserve` has no caller, and the frames where the PML4 may be are free after
  initialisation (`PagingBoot.BootFramesAreFree`). `PagingBoot.RootIsSafeIff` says exactly when the
  PML4 is safe, and `Paging.Boot` gives a start that is.
- The frame at physical address 0 has the address that means failure. The code marks its bit used
  and reports failure; so does the model (`MapFailsWhilePageZeroIsFree`).
- The locks are small steps of any number of threads, one access to shared memory each, under
  sequential consistency, with one program counter per thread; what a thread
  called last is read off the schedule. Only holders unlock.
- The hash function and the result of `kmalloc` are parameters. A read or write of the pipe is one
  attempt under its lock; waiting is the outcome `Blocked`, and the test before the lock is a step of
  its own.
- A queued task is on one run queue, and its vruntime and weight do not change while it is queued.
- Where the code falls short of what it is for, the model keeps the code and gives the exact
  condition: `PagingSpec.TranslationAfterMap` (NX), `PagingUser.UserPageIff` (tables linked without
  U/S), `PagingSpec.MapPageIff` and `SlabMachine.AllocateFailsIff` (frame 0), `PagingBoot.RootIsSafeIff` (the PML4),
  `FrameAllocatorSpec.ScanInsideIff` (guard bits), `SlabMemory.SeparateIff` and
  `SlabMemory.ThreadedIsChainIff` (object sizes), `SlabSpec.GiveBackIff` (double frees),
  `HashTableSpec.RemoveThenGet` and `HashTableSpec.PutKeepsUnique` (tombstones),
  `RunQueueSpec.DequeueKeepsOthers` (two children), `Semaphore.NeverNegativeIff` (overflow),
  `InternetChecksum.SingleWordDetection` (0x0000 and 0xFFFF).

## Model

| member | source | states |
|---|---|---|
| `Bits.TestAfterSet` | FeatherOS/kernel/mm/memory.c:13-13 | BITMAP_SET turns on the addressed bit of a word and leaves every other bit as it was, for all words and bits |
| `Bits.TestAfterClear` | FeatherOS/kernel/mm/memory.c:14-14 | BITMAP_CLR turns off the addressed bit of a word and leaves every other bit as it was |
| `FrameBitmap.Bitmap.Set` | FeatherOS/kernel/mm/memory.c:13-13 | the in-place word update changes exactly one bit of the whole bitmap, to used |
| `FrameBitmap.Bitmap.Clear` | FeatherOS/kernel/mm/memory.c:14-14 | the in-place word update changes exactly one bit of the whole bitmap, to free |
| `FrameBitmap.QemuMapHasGuards` | FeatherOS/kernel/mm/memory.c:45-68 | the built-in boot map gives 130975 managed frames and a bitmap with 97 guard bits behind them |
| `FrameBitmap.BytesToPagesIsLeast` | FeatherOS/include/memory.h:165-167 | bytes_to_pages is the least number of pages with room for that many bytes |
| `FrameBitmap.QemuMapFrees` | FeatherOS/kernel/mm/memory.c:45-119 | with the built-in boot map exactly the frames below 0x9F and those from 0x100 to 0xFFFF, but for the four of the bitmap, start out free; the region at 4 GB, though counted in, gives none |
| `FrameBitmap.FrameAllocator.constructor` | FeatherOS/kernel/mm/memory.c:74-132 | after initialisation over any boot map a bit is clear exactly when its frame is managed, inside a free region and not under the bitmap; the bits past max_pages are set; the free count is at least the number of clear bits; and a guard bit exists if and only if max_pages is no multiple of 32768 |
| `FrameBitmap.FrameAllocator.FindFirstFree` | FeatherOS/kernel/mm/memory.c:27-39 | the nested scan returns the least start of a run of clear bits, or -1, wherever all bits it reads exist |
| `FrameAllocatorSpec.AllocRunEffect` | FeatherOS/kernel/mm/memory.c:187-209 | an allocation takes the lowest clear run, wholly below max_pages although the scan looks past it; it fails, changing nothing, only if no such run exists; free count minus clear bits stays constant and the guard bits stay set |
| `FrameAllocatorSpec.FreeRunBits` | FeatherOS/kernel/mm/memory.c:211-225 | freeing clears exactly the managed bits of the run; guard bits cannot be freed |
| `FrameAllocatorSpec.ReserveRunBits` | FeatherOS/kernel/mm/memory.c:241-257 | reserving sets exactly the managed bits of the run |
| `FrameBitmap.FrameAllocator.AllocPages` | FeatherOS/kernel/mm/memory.c:187-209 | the method on the bitmap words does what the allocation on page indices does; its unsigned free count never goes below zero; page 0 is returned as address 0, the failure value, with its bit set |
| `FrameBitmap.FrameAllocator.AllocPage` | FeatherOS/kernel/mm/memory.c:147-167 | the one-page allocation is the run allocation of length one |
| `FrameBitmap.FrameAllocator.FreePages` | FeatherOS/kernel/mm/memory.c:211-225 | the loop over the bitmap words does what freeing on page indices does |
| `FrameBitmap.FrameAllocator.FreePage` | FeatherOS/kernel/mm/memory.c:169-185 | freeing one page is freeing a run of length one |
| `FrameBitmap.FrameAllocator.Reserve` | FeatherOS/kernel/mm/memory.c:241-257 | the loop over the bitmap words does what reserving on page indices does, and the unsigned free count never goes below zero |
| `FrameAllocatorSpec.ScanInsideIff` | FeatherOS/kernel/mm/memory.c:27-39 | the scan for a run reads only bits of the bitmap if and only if one page is asked for, there is a guard bit or no frame, the last frame is used, or there is a run to be found |
| `FrameAllocatorSpec.OneFrameIff` | FeatherOS/kernel/mm/memory.c:147-167 | a one-page allocation returns a usable address if and only if a frame is free and frame 0 is not |
| `FrameRuns.AllocateKeepsInv` | FeatherOS/kernel/mm/memory.c:187-209 | a new run overlaps no outstanding run |
| `FrameRuns.ReleaseKeepsInv` | FeatherOS/kernel/mm/memory.c:211-225 | giving back one run leaves all other outstanding runs marked and disjoint |
| `FrameRuns.ReserveKeepsInv` | FeatherOS/kernel/mm/memory.c:241-257 | reserving any frames leaves outstanding runs marked and disjoint |
| `FrameRuns.ExecKeepsInv` | FeatherOS/kernel/mm/memory.c:147-257 | over every sequence of allocations, releases and reservations: guard bits stay set, outstanding runs stay pairwise disjoint, managed and marked, free count minus clear bits is constant, and the free count stays between zero and its bound |
| `PageTables.IndicesArePrefixes` | FeatherOS/include/paging.h:158-163 | the four 9-bit indices are the digits in base 512 of the 36-bit page number |
| `PageTables.LinkIsPte` | FeatherOS/include/paging.h:166-173 | the entry that links a table leads back to its frame and, bit by bit, is present and writable, without U/S and without NX |
| `PageTables.PteBits` | FeatherOS/include/paging.h:166-173 | a word is what make_pte builds if and only if, bit by bit, it has P, R/W and U/S as asked for, no other flag below bit 12, bits 12 to 62 of the address, and in bit 63 NX or bit 63 of the address |
| `PagingSpec.PteAddress` | FeatherOS/include/paging.h:166-173 | masking the low 12 bits of a present entry gives the frame address back if and only if NX is not set (or bit 63 is in the address already) |
| `PageTables.FreeFrameIsNoTable` | FeatherOS/kernel/mm/paging_impl.c:42-48 | a frame the bitmap calls free is no page table |
| `PageTables.LeafWrite` | FeatherOS/kernel/mm/paging_impl.c:120-122 | storing a leaf entry changes the lookup of its page and of no other page, because no frame serves as two tables |
| `PageTables.LinkAddsOneTable` | FeatherOS/kernel/mm/paging_impl.c:93-118 | zeroing a fresh frame and linking it adds exactly one table, one level down, and changes no other |
| `PageTables.LinkKeepsLookup` | FeatherOS/kernel/mm/paging_impl.c:93-118 | creating an intermediate table changes no translation |
| `PagingSpec.AllocTableEffect` | FeatherOS/kernel/mm/paging_impl.c:42-48 | a new table is a zeroed frame that was free and is now used; without one, page 0 came up (and is lost) or no frame is free |
| `PagingSpec.ReachEffect` | FeatherOS/kernel/mm/paging_impl.c:93-118 | the whole descent keeps the invariant and all translations, also when it fails half-way, and ends in the page table of the address |
| `PagingSpec.MapPageEffect` | FeatherOS/kernel/mm/paging_impl.c:87-128 | mapping updates the flat map from page number to entry at exactly that page; a map that fails changes no translation |
| `PagingSpec.EntryAfterMap` | FeatherOS/kernel/mm/paging_impl.c:87-128 | after a successful map the leaf entry of the page has exactly the bits asked for, flag by flag, and all other pages keep their entries; after a failed one all do |
| `PagingSpec.UnmapPageEffect` | FeatherOS/kernel/mm/paging_impl.c:130-158 | unmapping succeeds exactly on mapped pages and removes only that page |
| `PagingSpec.TranslationAfterMap` | FeatherOS/kernel/mm/paging_impl.c:179-199 | after a successful map every address of the page translates to frame plus offset if and only if NX was not asked for (or bit 63 is in the address) |
| `PagingUser.UserPageIff` | FeatherOS/kernel/mm/paging_impl.c:93-122 | user mode, for which the processor asks for U/S in every entry on the way, reaches a page just mapped if and only if U/S was asked for and all tables on the way were there before, with U/S: never through a table that paging_map_page links |
| `PagingUser.NoPageForUserMode` | FeatherOS/kernel/mm/paging_impl.c:87-158 | from an empty PML4 no run of maps, unmaps, frame operations and client writes makes any page reachable for user mode, whatever flags are asked for |
| `PagingSpec.MapFailsWhilePageZeroIsFree` | FeatherOS/kernel/mm/paging_impl.c:42-48 | while page 0 is free, every map under which some table is missing, at any level, fails and marks page 0 used for good |
| `PagingSpec.TablesHaveOneParent` | FeatherOS/kernel/mm/paging_impl.c:87-128 | in every state of the invariant a table frame is referenced by one entry of one table only |
| `PagingSpec.AllocTableIff` | FeatherOS/kernel/mm/paging_impl.c:42-48 | a table can be had if and only if a frame is free and frame 0 is not; it uses up one free frame |
| `PagingSpec.MapPageIff` | FeatherOS/kernel/mm/paging_impl.c:87-128 | a map succeeds if and only if no table is missing on the way, or frame 0 is not free and there is a free frame for each missing table |
| `PagingBoot.BootFramesAreFree` | FeatherOS/kernel/mm/paging_impl.c:54-70 | after initialisation with the built-in map, frame 1, which the code gives as the PML4's, and all frames from the kernel's load address up to the bitmap are free |
| `PagingBoot.RootIsSafeIff` | FeatherOS/kernel/mm/paging_impl.c:42-70 | no run of frame operations makes the frame of the PML4 the next table if and only if that frame is not managed or is marked used |
| `PagingBoot.HandingOutRootIsFatal` | FeatherOS/kernel/mm/paging_impl.c:42-48 | if it is handed out as a table it is cleared, and every translation is lost |
| `Paging.Boot` | FeatherOS/kernel/mm/paging_impl.c:54-70 | an allocator that reserves the frame of the PML4 first, then an empty PML4, is a start in the invariant |
| `PagingRuns.MapRangeEffect` | FeatherOS/kernel/mm/paging_impl.c:160-170 | mapping a range enters exactly the pages it got to, also when it stops half-way |
| `PagingRuns.MapRangeStops` | FeatherOS/kernel/mm/paging_impl.c:160-170 | a range stops before its end only where the page it got to cannot be mapped: frame 0 is free or fewer frames are free than tables are missing |
| `PagingRuns.FlatRangeContents` | FeatherOS/kernel/mm/paging_impl.c:160-170 | each page of the range has its own frame's entry and every other page its old one |
| `PagingRuns.RangeEntry` | FeatherOS/kernel/mm/paging_impl.c:160-170 | after a range is mapped the leaf entry of its i-th page has the address bits of the i-th frame and the flags of the range, bit by bit |
| `PagingRuns.RangeTranslation` | FeatherOS/kernel/mm/paging_impl.c:160-199 | after a range is mapped every address of its i-th page translates to the i-th frame plus offset if and only if NX was not asked for (or bit 63 is in the frame) |
| `PagingRuns.ExecRefines` | FeatherOS/kernel/mm/paging_impl.c:87-158 | over every run that starts in the invariant and in which callers free and write no table frame: table frames stay distinct, used and in one place of the tree, the four-level walk equals the flat map that did the same maps and unmaps, unmaps succeed exactly on mapped pages, failed maps change nothing, and free count minus clear bits is constant |
| `Paging.Vmm.constructor` | FeatherOS/kernel/mm/paging_impl.c:54-70 | with an empty PML4 nothing is mapped, and the invariant holds if and only if the frame of the PML4 is not managed or is marked used |
| `Paging.Vmm.AllocateTable` | FeatherOS/kernel/mm/paging_impl.c:42-48 | takes a frame through the bitmap and zeroes it in memory; 0 exactly when no table could be had |
| `Paging.Vmm.MapPage` | FeatherOS/kernel/mm/paging_impl.c:87-128 | the in-place operation is the mapping whose effect is proved; with 0 the leaf entry of the page has, bit by bit, the address and the writable, user and NX flags asked for, and no other page changes; with -1 none does; the invariant stays |
| `Paging.Vmm.MapRange` | FeatherOS/kernel/mm/paging_impl.c:160-170 | the loop maps page after page, stops at the first failure, and returns 0 exactly when all pages got mapped, each with an entry that has its own frame's address bits and the flags of the range |
| `Paging.Vmm.Walk` | FeatherOS/kernel/mm/paging_impl.c:130-158 | the read-only walk over memory words finds the present leaf entry, or stops at a missing level |
| `Paging.Vmm.UnmapPage` | FeatherOS/kernel/mm/paging_impl.c:130-158 | clears the leaf entry in place; 0 exactly when the page was mapped |
| `Paging.Vmm.VirtToPhys` | FeatherOS/kernel/mm/paging_impl.c:179-199 | the walk over memory words returns the specified translation, and 0 for pages not in the flat map |
| `Paging.Vmm.IsMapped` | FeatherOS/kernel/mm/paging_impl.c:201-216 | true exactly for pages in the flat map |
| `RedBlack.RecoloredIsFixable` | FeatherOS/kernel/mm/vma.c:90-96 | with a red uncle, recolouring leaves a tree that is red-black except at the grandparent |
| `RedBlack.RotatedIsFixable` | FeatherOS/kernel/mm/vma.c:97-105 | with a black uncle, the rotations leave equal black heights and no red node below a red one in the subtree |
| `RedBlack.RotatedOrder` | FeatherOS/kernel/mm/vma.c:97-123 | the rotations, single and double, on either side, keep the order of the items |
| `RedBlack.FixupIsRedBlack` | FeatherOS/kernel/mm/vma.c:83-127 | the whole fix-up ends in a red-black tree (black root, no red child of a red node, equal black heights) with the same items in the same order |
| `RedBlack.BlackHeightBounds` | FeatherOS/kernel/mm/vma.c:83-127 | a tree of black height h has at least 2^h - 1 nodes and height at most 2h, plus one under a red root |
| `RedBlack.HeightBound` | FeatherOS/kernel/mm/vma.c:83-127 | a red-black tree of n nodes has height at most 2*log2(n+1) |
| `VmaOrder.SearchOrder` | FeatherOS/kernel/mm/vma.c:131-140 | where the descent ends, everything before is smaller and everything after is larger than the key |
| `VmaOrder.InsertEffect` | FeatherOS/kernel/mm/vma.c:130-151 | insertion keeps a strictly ordered red-black tree; it returns -1 with the tree unchanged exactly when the start is present, else it adds exactly the new node |
| `VmaOrder.BuiltTreesAreLow` | FeatherOS/kernel/mm/vma.c:83-151 | every tree built by insertions is valid, and its height is at most 2*log2(n+1) |
| `VmaOrder.FindIsExact` | FeatherOS/kernel/mm/vma.c:154-169 | on disjoint areas the lookup finds an area containing the address, and nothing exactly when none does |
| `VmaOrder.FoundIsUnique` | FeatherOS/kernel/mm/vma.c:154-169 | at most one of disjoint areas contains the address |
| `VmaTree.AreaTree.constructor` | FeatherOS/kernel/mm/vma.c:223-228 | an empty tree is valid |
| `VmaTree.AreaTree.RotateLeft` | FeatherOS/kernel/mm/vma.c:54-66 | the pointer updates turn (a x (b y c)) into ((a x b) y c), with all parent links right and the colours and the rest of the tree untouched |
| `VmaTree.AreaTree.RotateRight` | FeatherOS/kernel/mm/vma.c:68-80 | the pointer updates turn ((a y b) x c) into (a y (b x c)), with all parent links right and the colours and the rest of the tree untouched |
| `VmaTree.AreaTree.InsertFixup` | FeatherOS/kernel/mm/vma.c:83-127 | the loop terminates and the heap then holds the fixed-up tree, all links and colours included |
| `VmaTree.AreaTree.Insert` | FeatherOS/kernel/mm/vma.c:130-151 | the in-place insertion yields a linked, ordered red-black tree with exactly the new node added, or -1 and nothing changed |
| `VmaTree.AreaTree.Find` | FeatherOS/kernel/mm/vma.c:154-169 | the pointer walk returns the area containing the address (null exactly when none does, for disjoint areas) and visits at most 2*log2(n+1) nodes |
| `RwLock.StepInv` | FeatherOS/kernel/sync/sync.c:224-279 | a step of any thread keeps the counts right and what every other thread relies on |
| `RwLock.RunInv` | FeatherOS/kernel/sync/sync.c:162-279 | the invariant holds after every schedule of any number of threads |
| `RwLock.Safety` | FeatherOS/kernel/sync/sync.c:162-279 | in every interleaving readers is the number of threads in a read section, writers is 1 exactly when a thread is in a write section, a writer coexists with no reader or other writer, and the spinlock has at most one holder |
| `RwLock.ThreadsServeTheirCalls` | FeatherOS/kernel/sync/sync.c:224-279 | in every run each thread is in the code of the call it made last, with the same choice of lock or trylock |
| `RwLock.WriteLockExcludes` | FeatherOS/kernel/sync/sync.c:224-279 | in every run a thread that has returned from write_lock or, with success, from write_trylock excludes every other thread that has returned from any of the four lock calls; threads that hold the lock together all called for reading |
| `RwLock.HolderNeverWaits` | FeatherOS/kernel/sync/sync.c:162-279 | a holder of the spinlock frees it after at most four of its own steps, whatever the others do |
| `RwLock.OutcomeOfRead` | FeatherOS/kernel/sync/sync.c:224-251 | run as a whole, a read lock or trylock lets one more reader in exactly when there is no writer; otherwise trylock gives up and lock tries again, with the counts as they were |
| `RwLock.OutcomeOfWrite` | FeatherOS/kernel/sync/sync.c:253-279 | run as a whole, a write lock or trylock lets the writer in exactly when there is no reader and no writer; otherwise trylock gives up and lock tries again, with the counts as they were |
| `RwLock.OutcomeOfReadUnlock` | FeatherOS/kernel/sync/sync.c:236-240 | run as a whole, a read unlock makes one reader less and returns |
| `RwLock.OutcomeOfWriteUnlock` | FeatherOS/kernel/sync/sync.c:264-268 | run as a whole, a write unlock leaves no writer and returns |
| `RwLock.ReadLockAlone` | FeatherOS/kernel/sync/sync.c:224-251 | from the call on a free spinlock, alone: without a writer read_lock and read_trylock return with one more reader, else read_trylock returns without and read_lock tries again |
| `RwLock.WriteLockAlone` | FeatherOS/kernel/sync/sync.c:253-279 | from the call on a free spinlock, alone: without reader and writer write_lock and write_trylock return with the writer set, else write_trylock returns without and write_lock tries again |
| `RwLock.UnlockAlone` | FeatherOS/kernel/sync/sync.c:236-268 | from a section, on a free spinlock, alone: read_unlock returns with one reader less and write_unlock with no writer |
| `RwLock.KeptOutForEver` | FeatherOS/kernel/sync/sync.c:224-262 | read_lock behind a writer and write_lock behind anyone never return while nobody else takes a step |
| `RwLock.SectionsAreAtomic` | FeatherOS/kernel/sync/sync.c:162-279 | however other threads' steps fall between those of a holder of the spinlock, when it frees the spinlock its thread and the shared counts are as if its section had run alone |
| `Mutex.StepInv` | FeatherOS/kernel/sync/sync.c:291-315 | a step of any thread keeps the number of holders equal to the lock word and of owners to the owner field |
| `Mutex.Safety` | FeatherOS/kernel/sync/sync.c:285-315 | in every interleaving with holder-only unlock at most one thread holds the mutex, it is locked exactly while held, and the owner is set only while locked |
| `Mutex.ThreadsServeTheirCalls` | FeatherOS/kernel/sync/sync.c:291-315 | in every run each thread is in the code of the call it made last, with the same choice of lock or trylock |
| `Mutex.LockedByCaller` | FeatherOS/kernel/sync/sync.c:291-315 | in every run a thread that got the mutex has it alone, and owner is set if and only if it called mutex_lock and not mutex_trylock |
| `Mutex.LockAlone` | FeatherOS/kernel/sync/sync.c:291-315 | alone, on a free mutex, both calls return with it; mutex_lock sets the owner, mutex_trylock leaves it |
| `Mutex.LockedAlone` | FeatherOS/kernel/sync/sync.c:291-315 | alone, on a locked mutex, mutex_trylock returns without it, and mutex_lock never returns |
| `Mutex.UnlockAlone` | FeatherOS/kernel/sync/sync.c:308-311 | mutex_unlock leaves the mutex free and without owner |
| `Semaphore.StepInv` | FeatherOS/kernel/sync/sync.c:330-359 | every atomic access keeps the count equal, in 32 bits, to initial plus posts minus completed waits, which is never negative unless the initial count was |
| `Semaphore.Conservation` | FeatherOS/kernel/sync/sync.c:325-359 | in every interleaving the count is initial + posts - completed waits if and only if that fits 32 bits, and no more waits complete than were initially there or posted |
| `Semaphore.OnlyTrywaitGivesUp` | FeatherOS/kernel/sync/sync.c:334-359 | in every run a wait ends by taking one from a positive count, or it is a sem_trywait and the count it reads is not positive |
| `Semaphore.EveryPostCounts` | FeatherOS/kernel/sync/sync.c:330-332 | in every run the posts counted are exactly the calls of sem_post |
| `Semaphore.CallsAlone` | FeatherOS/kernel/sync/sync.c:330-359 | alone, sem_post adds one, and sem_wait and sem_trywait on a positive count return with one less in it |
| `Semaphore.NoneToTakeAlone` | FeatherOS/kernel/sync/sync.c:334-359 | alone, on a count of zero or less, sem_trywait returns with nothing changed and sem_wait stays where it is |
| `Semaphore.NeverNegativeIff` | FeatherOS/kernel/sync/sync.c:325-359 | in every run from a non-negative count, the count is never below zero if and only if initial + posts - completed waits always fits 32 bits, if and only if no post is made at 0x7FFFFFFF |
| `Semaphore.OverflowExample` | FeatherOS/kernel/sync/sync.c:330-332 | a post at 0x7FFFFFFF makes the count negative: the maximum given at initialisation is not enforced |
| `CondVar.StepInv` | FeatherOS/kernel/sync/sync.c:374-395 | a step of any thread keeps the flag and the two counts in balance |
| `CondVar.Conservation` | FeatherOS/kernel/sync/sync.c:369-395 | in every interleaving completed waits plus the pending flag never exceed signals plus broadcasts |
| `CondVar.ThreadsServeTheirCalls` | FeatherOS/kernel/sync/sync.c:374-395 | in every run each thread is in the code of the call it made last |
| `CondVar.FlagFollowsLog` | FeatherOS/kernel/sync/sync.c:374-395 | in every run the flag is set if and only if the last completed store is that of a signal or broadcast, and each wait that got through took the flag of the signal right before it |
| `CondVar.EveryCallCounts` | FeatherOS/kernel/sync/sync.c:374-395 | in every run each signal or broadcast called has set the flag once or is on its way to, and each wait called has taken the flag once or is still waiting |
| `CondVar.CallsReachSections` | FeatherOS/kernel/sync/sync.c:374-395 | on a free spinlock condvar_signal and condvar_broadcast lead to the section that signals, condvar_wait_spin to the one that waits |
| `CondVar.OutcomeOfSignal` | FeatherOS/kernel/sync/sync.c:385-395 | run as a whole, a signal or broadcast leaves the flag set, whatever it was, and returns |
| `CondVar.OutcomeOfWait` | FeatherOS/kernel/sync/sync.c:374-383 | run as a whole, a wait with the flag set clears it and returns; with the flag clear it frees the spinlock and tries again |
| `CondVar.SectionsAreAtomic` | FeatherOS/kernel/sync/sync.c:374-395 | however other threads' steps fall between those of a holder of the spinlock, when it frees the spinlock its thread and the flag are as if its section had run alone |
| `CondVar.BroadcastWakesOne` | FeatherOS/kernel/sync/sync.c:391-395 | a broadcast lets at most one waiter through |
| `SlabLayout.SlotsApart` | FeatherOS/kernel/mm/slab.c:129-138 | no two slots of a slab overlap |
| `SlabLayout.SlotsFitThePage` | FeatherOS/kernel/mm/slab.c:40-46 | all slots lie inside the page if and only if the object size is at most 4048; the 4096-byte cache does not fit |
| `SlabLayout.LinksApart` | FeatherOS/kernel/mm/slab.c:129-138 | the link words in free slots do not overlap if and only if objects have at least 8 bytes or the slab has one slot |
| `SlabLayout.NumObjsIsMost` | FeatherOS/kernel/mm/slab.c:40-46 | a slab has as many objects as fit: one more with its link word would not fit behind the header |
| `SlabMemory.WordStored` | FeatherOS/kernel/mm/slab.c:221-223 | in bytes of memory a 64-bit link reads back as it was stored, and the store changes no other byte |
| `SlabMemory.SeparateIff` | FeatherOS/kernel/mm/slab.c:40-46 | no byte of one object or link is a byte of the link of another, in one slab or across slabs, if and only if objects have 8 to 4096 bytes |
| `SlabMemory.ChainIsUnique` | FeatherOS/kernel/mm/slab.c:158-161 | memory and the head determine the free list |
| `SlabMemory.ThreadedIsChainIff` | FeatherOS/kernel/mm/slab.c:129-138 | for any memory contents, after the linking loop the links lead from the first slot through all slots in order and end, if and only if objects have at least 8 bytes |
| `SlabMemory.SmallSlotsHaveNoChain` | FeatherOS/kernel/mm/slab.c:129-138 | for smaller objects there is no memory at all in which the slots are linked that way |
| `SlabSpec.TakeEffect` | FeatherOS/kernel/mm/slab.c:158-177 | on free lists as sequences: an object taken from the first partial slab was not out, and every slab stays on its one right list with all counters in balance |
| `SlabSpec.GiveBackEffect` | FeatherOS/kernel/mm/slab.c:209-275 | on free lists as sequences: freeing a live object keeps the invariant with that object removed, the slab moved to the list it belongs on |
| `SlabSpec.GiveBackIff` | FeatherOS/kernel/mm/slab.c:209-275 | which frees are sound: the invariant survives if and only if the object is live or its page is none of a full or partial slab; a double free breaks it |
| `SlabSpec.LiveSlab` | FeatherOS/kernel/mm/slab.c:213-270 | the slab of a live object is on the full or the partial list, never on the empty one, and not all its slots are free |
| `SlabSpec.AllocEffect` | FeatherOS/kernel/mm/slab.c:154-203 | on free lists as sequences: an allocation returns a slot that is not out and keeps the invariant with it added; a failure changes nothing in the cache and no frame but frame 0 |
| `SlabSpec.AllocPlace` | FeatherOS/kernel/mm/slab.c:154-203 | an object comes from the first partial slab; without one from the first empty slab; without either from the page of exactly one newly taken frame |
| `SlabSpec.FreedComesBackFirst` | FeatherOS/kernel/mm/slab.c:154-275 | an object freed from a full slab is the next one handed out |
| `SlabSpec.ShrinkEffect` | FeatherOS/kernel/mm/slab.c:379-397 | shrinking keeps the live objects and the invariant, touches no partial or full slab, and frees as many empty slabs as it may |
| `SlabSpec.ShrinkFrees` | FeatherOS/kernel/mm/slab.c:379-397 | shrinking with limit n frees exactly the frames of the first min(n, number of empty slabs) empty slabs |
| `SlabMachine.RepresentedIsUnique` | FeatherOS/kernel/mm/slab.c:112-275 | headers and memory determine the whole cache |
| `SlabMachine.TakeRefines` | FeatherOS/kernel/mm/slab.c:158-177 | reading the next link out of the object's memory takes exactly the first object off the list |
| `SlabMachine.CreateRefines` | FeatherOS/kernel/mm/slab.c:112-148 | linking up a new page in memory adds a slab with all slots free and hurts no list of another slab |
| `SlabMachine.PushRefines` | FeatherOS/kernel/mm/slab.c:218-226 | storing the old head in the freed object puts it in front and hurts no list of any slab |
| `SlabMachine.AllocateRefines` | FeatherOS/kernel/mm/slab.c:154-203 | the allocation over memory does what the one on sequences does, with the same object or failure |
| `SlabMachine.AllocateFailsIff` | FeatherOS/kernel/mm/slab.c:154-203 | slab_alloc fails if and only if there is no partial and no empty slab, and frame 0 is free, or no frame is, or kmalloc fails |
| `SlabMachine.ReleaseRefines` | FeatherOS/kernel/mm/slab.c:209-275 | the free over memory does what the one on sequences does, also for addresses in no full or partial slab |
| `SlabMachine.ShrinkRefines` | FeatherOS/kernel/mm/slab.c:379-397 | the shrink over memory does what the one on sequences does and writes no memory |
| `SlabMachine.ClientWriteRefines` | FeatherOS/kernel/mm/slab.c:154-177 | whatever a client writes inside its live object, every free list stays as it is |
| `SlabMachine.OtherWriteRefines` | FeatherOS/kernel/mm/slab.c:112-148 | writes outside the pages of the slabs leave every free list as it is |
| `SlabMachine.AllocateKeepsObjects` | FeatherOS/kernel/mm/slab.c:112-203 | an allocation, new slabs included, changes no byte of an object that is out |
| `SlabMachine.ReleaseKeepsObjects` | FeatherOS/kernel/mm/slab.c:209-275 | a free changes no byte of another object that is out |
| `SlabRuns.StartSafeIff` | FeatherOS/kernel/mm/slab.c:52-74 | a new cache is safe if and only if its objects have at least 8 bytes |
| `SlabRuns.StepSafe` | FeatherOS/kernel/mm/slab.c:112-397 | every operation of the cache, every write of a client to its object, and everything others do to frames and other pages keeps the cache safe |
| `SlabRuns.ExecSafe` | FeatherOS/kernel/mm/slab.c:112-397 | over every run with client writes: each slab is on exactly one list, which says how full it is; in memory, the links from its header visit exactly its slots that are not out, once each, and end; and total minus free objects equals allocations minus frees equals live objects |
| `SlabRuns.CountersCount` | FeatherOS/kernel/mm/slab.c:154-275 | over every run num_objs_alloc grows by the objects handed out and num_frees by the objects given back |
| `SlabRuns.StaysOut` | FeatherOS/kernel/mm/slab.c:154-275 | an object that is out is not returned by an allocation before it is freed, whatever clients write |
| `SlabRuns.NoDoubleHandout` | FeatherOS/kernel/mm/slab.c:154-275 | between two allocations that return the same object there is a free of it, whatever clients write |
| `SlabRuns.ObjectsKeepContents` | FeatherOS/kernel/mm/slab.c:112-397 | over every run in which an object stays out, each of its bytes that nobody writes keeps its value |
| `SlabCaches.SlabCache.constructor` | FeatherOS/kernel/mm/slab.c:52-74 | a new cache is usable if and only if its objects have at least 8 bytes |
| `SlabCaches.SlabCache.ThreadSlots` | FeatherOS/kernel/mm/slab.c:129-138 | the loop with its pointer to the last link threads the slots through the bytes of the page |
| `SlabCaches.SlabCache.TakeFromPartial` | FeatherOS/kernel/mm/slab.c:158-177 | loads the next link from the object's bytes, and moves a slab that fills up by its next pointers |
| `SlabCaches.SlabCache.FindObject` | FeatherOS/kernel/mm/slab.c:154-203 | the three cases of the allocation on linked headers and bytes |
| `SlabCaches.SlabCache.Alloc` | FeatherOS/kernel/mm/slab.c:154-203 | returns an object that was not live, now live, or 0; headers, lists, counters and bytes are those of the specified allocation |
| `SlabCaches.SlabCache.Search` | FeatherOS/kernel/mm/slab.c:213-217 | the walk along the next pointers ends at the slab whose page holds the object, with the slab before it, or at the end if there is none |
| `SlabCaches.SlabCache.FullToPartial` | FeatherOS/kernel/mm/slab.c:230-234 | unlinking through the previous slab or the list head, and linking in front, moves exactly this slab |
| `SlabCaches.SlabCache.PushObject` | FeatherOS/kernel/mm/slab.c:221-226 | stores the old head into the bytes of the object and makes it the new head |
| `SlabCaches.SlabCache.Free` | FeatherOS/kernel/mm/slab.c:209-275 | a live object is no longer live and everything else is as specified; an address in no full or partial slab changes nothing |
| `SlabCaches.SlabCache.WriteObject` | FeatherOS/kernel/mm/slab.c:154-177 | a client writing a byte of its object leaves the cache valid |
| `SlabCaches.SlabCache.DropOne` | FeatherOS/kernel/mm/slab.c:383-393 | one empty slab is unlinked and counted out, and its frame is freed in the bitmap |
| `SlabCaches.SlabCache.Shrink` | FeatherOS/kernel/mm/slab.c:379-397 | the loop gives back up to four empty slabs and keeps live objects |
| `HashTableSpec.InitInv` | FeatherOS/kernel/lib/datastructures.c:236-246 | a new table satisfies the invariant for every capacity, 16 for capacity 0 |
| `HashTableSpec.FindIsNearest` | FeatherOS/kernel/lib/datastructures.c:281-290 | stopping at a never-occupied slot misses no live entry: the probe finds the first live copy of the key on the whole ring |
| `HashTableSpec.SlotExists` | FeatherOS/kernel/lib/datastructures.c:259-279 | below the load limit the probe of a put always finds a slot (pigeonhole) |
| `HashTableSpec.PutPlace` | FeatherOS/kernel/lib/datastructures.c:259-279 | a put stores in the first slot from the hash value on, around the end, that is not live or has the key, and nowhere else |
| `HashTableSpec.PutEffect` | FeatherOS/kernel/lib/datastructures.c:259-279 | a put succeeds if and only if size is below the load limit, keeps the invariant, and changes get at its key only |
| `HashTableSpec.RemoveEffect` | FeatherOS/kernel/lib/datastructures.c:292-306 | a remove returns what get would, keeps the invariant, and changes the get of no other key |
| `HashTableSpec.RemoveThenGet` | FeatherOS/kernel/lib/datastructures.c:292-306 | after a remove the key is gone if and only if it had at most one live entry |
| `HashTableSpec.PutKeepsUnique` | FeatherOS/kernel/lib/datastructures.c:264-273 | a put keeps live keys unique if and only if it does not stop at a tombstone or free slot short of a live entry of its key |
| `HashTableSpec.StaleValueExample` | FeatherOS/kernel/lib/datastructures.c:264-264 | put 1, put 2, remove 1, put 2, remove 2 brings the first value of key 2 back, when both keys hash to one slot |
| `HashTableSpec.RunInv` | FeatherOS/kernel/lib/datastructures.c:236-306 | over every run of puts and removes size is the number of live entries and probe chains stay unbroken |
| `HashTableSpec.PutsMakeAMap` | FeatherOS/kernel/lib/datastructures.c:259-290 | in runs without remove the table is exactly the finite map of the puts let through, without duplicates or tombstones |
| `HashTableSpec.CapacityOfNewTable` | FeatherOS/kernel/lib/datastructures.c:236-279 | a new table has the capacity asked for, 16 for 0; it takes distinct keys up to exactly three quarters of that, rounded down, and then refuses every put |
| `HashStacks.GetIsTop` | FeatherOS/kernel/lib/datastructures.c:281-290 | get returns the top of the key's stack of live copies in probe order |
| `HashStacks.PutStack` | FeatherOS/kernel/lib/datastructures.c:259-279 | a put replaces the top if it stops at a live entry of its key and pushes otherwise, and leaves every other key's stack alone |
| `HashStacks.RemoveStack` | FeatherOS/kernel/lib/datastructures.c:292-306 | a remove pops its key's stack and leaves every other key's alone |
| `HashStacks.RunIsStacks` | FeatherOS/kernel/lib/datastructures.c:236-306 | over every run of puts and removes each key's live copies are its stack and get reads the top |
| `HashTables.HashTable.constructor` | FeatherOS/kernel/lib/datastructures.c:236-246 | the entry array starts out as the empty table |
| `HashTables.HashTable.Put` | FeatherOS/kernel/lib/datastructures.c:259-279 | the in-place probe and store do what the specified put does |
| `HashTables.HashTable.Get` | FeatherOS/kernel/lib/datastructures.c:281-290 | the value found, or NULL |
| `HashTables.HashTable.Remove` | FeatherOS/kernel/lib/datastructures.c:292-306 | the in-place tombstone does what the specified remove does |
| `RunQueueSpec.EnqueueRefines` | FeatherOS/kernel/sched/schedule.c:95-129 | enqueueing in the tree is inserting in a sorted list behind equal vruntimes, and keeps the search order |
| `RunQueueSpec.PickIsFirst` | FeatherOS/kernel/sched/schedule.c:170-179 | the pick is the head of the list, null exactly for the empty one |
| `RunQueueSpec.DequeuePickedRefines` | FeatherOS/kernel/sched/schedule.c:132-179 | dequeueing the picked task takes exactly the head off the list |
| `RunQueueSpec.PickedLosesNothing` | FeatherOS/kernel/sched/schedule.c:149-161 | the picked task has no left child, so the lossy case never arises for it |
| `RunQueueSpec.DequeueLoses` | FeatherOS/kernel/sched/schedule.c:132-167 | dequeueing any queued task removes it and, when it has two children, its whole right subtree, and nothing else |
| `RunQueueSpec.DequeueKeepsOthers` | FeatherOS/kernel/sched/schedule.c:149-161 | a dequeue keeps every other task if and only if the task does not have two children |
| `RunQueueSpec.DequeueBst` | FeatherOS/kernel/sched/schedule.c:132-167 | whatever is dequeued, the search order stays |
| `RunQueueSpec.EnqueueTotals` | FeatherOS/kernel/sched/schedule.c:122-123 | an enqueue adds one task and its weight to the tree's totals |
| `RunQueueSpec.DequeueTotals` | FeatherOS/kernel/sched/schedule.c:165-166 | a dequeue takes one task and its weight, and those of the lost subtree, from the tree's totals |
| `RunQueueSpec.RunRefines` | FeatherOS/kernel/sched/schedule.c:95-179 | over every run of enqueues and dequeues of the picked task the tree is a stable priority queue: the pick has the least vruntime, the earliest enqueued among ties, and no task is lost or duplicated |
| `RunQueueSpec.RunTotals` | FeatherOS/kernel/sched/schedule.c:95-179 | over every run of enqueues and dequeues of the picked task, nr_running is the number of queued tasks and load_weight the sum of their weights |
| `RunQueues.CfsRq.constructor` | FeatherOS/kernel/sched/schedule.c:435-440 | an empty queue is valid |
| `RunQueues.CfsRq.PickNext` | FeatherOS/kernel/sched/schedule.c:170-179 | the pointer walk to the left ends at the picked task |
| `RunQueues.CfsRq.Enqueue` | FeatherOS/kernel/sched/schedule.c:95-129 | the in-place enqueue yields the linked search tree with the task added, nr_running and load_weight in step, and min_vruntime updated |
| `RunQueues.CfsRq.Dequeue` | FeatherOS/kernel/sched/schedule.c:132-167 | the in-place dequeue yields the linked search tree without the task; nr_running and load_weight drop by the task alone, and so run ahead of the tree by exactly what was lost; a task on no queue changes nothing |
| `InternetChecksum.FoldIsUnique` | FeatherOS/kernel/net/tcpip.c:161-163 | the fold is the one 16-bit value congruent to the sum modulo 65535 that is zero only for zero |
| `InternetChecksum.FoldLoop` | FeatherOS/kernel/net/tcpip.c:161-163 | the fold loop terminates in range, congruent to the sum modulo 65535, and at zero only for a zero sum |
| `InternetChecksum.IpChecksum` | FeatherOS/kernel/net/tcpip.c:148-166 | the loop over the buffer, odd last byte and 32-bit wrap-around included, computes the complement of the folded sum |
| `InternetChecksum.VerifiesIff` | FeatherOS/kernel/net/tcpip.c:148-166 | a buffer checksums to 0 if and only if its words sum to a nonzero multiple of 65535 |
| `InternetChecksum.OddByteIsPadded` | FeatherOS/kernel/net/tcpip.c:157-159 | a last odd byte counts as if a zero byte followed it (section 1 of RFC 1071) |
| `InternetChecksum.SingleWordDetection` | FeatherOS/kernel/net/tcpip.c:98-104 | changing one 16-bit word of a verifying buffer goes undetected if and only if it swaps 0x0000 and 0xFFFF and leaves some word nonzero |
| `InternetChecksum.ByteOrderIndependence` | FeatherOS/kernel/net/tcpip.c:148-166 | the checksum of the byte-swapped words is the byte-swapped checksum (section 2 of RFC 1071) |
| `InternetChecksum.WordOrderIndependence` | FeatherOS/kernel/net/tcpip.c:148-166 | any permutation of the words leaves the checksum unchanged |
| `IpHeader.StoredChecksumVerifies` | FeatherOS/kernel/net/tcpip.c:130-166 | a buffer with a zero word verifies once its checksum is stored there |
| `IpHeader.BuildHeader` | FeatherOS/kernel/net/tcpip.c:130-146 | the buffer holds, byte by byte, version and length 0x45, the total length modulo 65536 in network order, zero tos and id, the don't-fragment flag, ttl 64, the protocol, the source in bytes 12 to 15 and the destination in bytes 16 to 19, and checksums to 0 |
| `IpHeader.BuiltHeadersAreAccepted` | FeatherOS/kernel/net/tcpip.c:98-146 | every packet with a header built for any addresses, protocol and length passes the receive checks, whatever its payload, and what is passed on is that payload |
| `IpHeader.AcceptedIff` | FeatherOS/kernel/net/tcpip.c:72-104 | a packet passes if and only if it has 20 bytes or more, its first byte is 0x41 to 0x4F, the header that gives is all there, and that header checksums to 0; a zero header length never passes |
| `IpHeader.Receive` | FeatherOS/kernel/net/tcpip.c:72-107 | the checks in their order pass exactly these packets and hand on what follows the header |
| `IpHeader.CorruptionIsRejected` | FeatherOS/kernel/net/tcpip.c:72-104 | a packet that passes the receive checks and has one word of its header changed, not the version and length byte, passes them if and only if the change swaps 0x0000 and 0xFFFF |
| `Routes.BestIsUnique` | FeatherOS/kernel/net/tcpip.c:729-767 | the earliest matching route with the most mask bits is unique |
| `Routes.PrefixMaskLen` | FeatherOS/kernel/net/tcpip.c:739-747 | the contiguous mask of length n has n mask bits |
| `Routes.PrefixMaskBit` | FeatherOS/kernel/net/tcpip.c:739-757 | of its 32 bits the contiguous mask of length n has exactly the n highest set |
| `Routes.MatchesBits` | FeatherOS/kernel/net/tcpip.c:750-757 | for any mask, a route matches if and only if, in each of 32 bits, its network is the address where the mask has a one and zero elsewhere |
| `Routes.MatchesPrefix` | FeatherOS/kernel/net/tcpip.c:750-757 | with the mask of length n, a route matches if and only if address and network, as 32-bit numbers, agree in their n highest bits and the network has no other |
| `Routes.DefaultRoute` | FeatherOS/kernel/net/tcpip.c:750-757 | 0.0.0.0 with mask 0.0.0.0 matches every address, and under that mask no other network matches any |
| `Routes.HostRoute` | FeatherOS/kernel/net/tcpip.c:750-757 | with mask 255.255.255.255 a route matches its own address only |
| `Routes.LookupIsLongestPrefix` | FeatherOS/kernel/net/tcpip.c:729-767 | with masks of known lengths, what the lookup returns is the first of the routes with the longest prefix of the 32-bit address, or none exactly when no route has a prefix of it |
| `Routes.SamePrefix` | FeatherOS/kernel/net/tcpip.c:729-767 | routes with contiguous masks of one length that match one address have the same network and mask |
| `Routes.OrderIndependence` | FeatherOS/kernel/net/tcpip.c:686-767 | with contiguous masks the chosen network and mask do not depend on the order of insertion (section 5.2.4.3 of RFC 1812) |
| `Routes.OrderIndependenceOfFailure` | FeatherOS/kernel/net/tcpip.c:686-767 | whether anything matches does not depend on the order of insertion |
| `Routes.DeletedAt` | FeatherOS/kernel/net/tcpip.c:708-727 | a delete removes the first route for the network and mask, and nothing if there is none |
| `Routes.RouteTable.constructor` | FeatherOS/kernel/net/tcpip.c:679-684 | the table starts empty |
| `Routes.RouteTable.Add` | FeatherOS/kernel/net/tcpip.c:686-706 | appends one route, or returns -1 with the table unchanged when 32 are there |
| `Routes.RouteTable.Delete` | FeatherOS/kernel/net/tcpip.c:708-727 | removes the first route for the network and mask and keeps the order of the others; -1 exactly when there is none |
| `Routes.RouteTable.Lookup` | FeatherOS/kernel/net/tcpip.c:729-767 | returns the earliest matching route with the most mask bits, and none exactly when nothing matches; with masks of known lengths, the first route with the longest prefix of the 32-bit address |
| `FifoSpec.WriteAppends` | FeatherOS/kernel/fs/ramdisk.c:592-609 | a write appends exactly the bytes it reports to the contents, as many as fit, in one copy or two |
| `FifoSpec.ReadTakes` | FeatherOS/kernel/fs/ramdisk.c:551-564 | a read takes exactly the oldest bytes, as many as asked for and there, in one copy or two |
| `FifoSpec.DeliveredIsPrefix` | FeatherOS/kernel/fs/ramdisk.c:534-617 | over every sequence of reads and writes the bytes read are a prefix of the bytes accepted, what is between them is the contents, and write_pos is read_pos plus data_len modulo the size |
| `Fifos.Fifo.constructor` | FeatherOS/kernel/fs/ramdisk.c:478-506 | a new pipe is empty and open, with 65536 bytes of room |
| `Fifos.Fifo.MayWrite` | FeatherOS/kernel/fs/ramdisk.c:577-577 | the test before the lock looks at the closed flag only |
| `Fifos.Fifo.TryWrite` | FeatherOS/kernel/fs/ramdisk.c:574-617 | under the lock a write waits on a full pipe and else appends as many bytes as fit; only an attempt after a wait fails on a closed pipe, so a pipe closed after the first test still takes the bytes |
| `Fifos.Fifo.TryRead` | FeatherOS/kernel/fs/ramdisk.c:534-572 | a read delivers the oldest bytes, waits on an empty open pipe, and reads nothing from an empty closed one |
| `Fifos.Fifo.Close` | FeatherOS/kernel/fs/ramdisk.c:508-511 | closing keeps the bytes in the pipe |
| `Raster.Line` | FeatherOS/kernel/drivers/framebuffer.c:380-408 | for all endpoints the loop terminates after max(abs dx, abs dy)+1 points, from the first endpoint to the second, each next to the one before and at most half a pixel off the line |
| `Raster.CircleStep` | FeatherOS/kernel/drivers/framebuffer.c:438-445 | one round of the circle loop keeps err = x^2 + y^2 + 2y - r^2 and -2x <= err <= 4 |
| `Raster.CircleErrorBounds` | FeatherOS/kernel/drivers/framebuffer.c:423-447 | every offset satisfies (x+1)^2 + (y+1)^2 >= r^2 + 2 and x^2 + (y+1)^2 <= r^2 + 5 |
| `Raster.Circle` | FeatherOS/kernel/drivers/framebuffer.c:423-447 | for every radius the loop terminates; it plots the eight reflections of offsets that start at (r, 0), move to neighbours, stay within the bounds and end when they cross the diagonal |
| `Raster.CircleIsSymmetric` | FeatherOS/kernel/drivers/framebuffer.c:429-436 | the drawn circle is symmetric about both axes and the diagonal through its centre |
| `Raster.Framebuffer.PutPixel` | FeatherOS/kernel/drivers/framebuffer.c:333-346 | colours one pixel, and none for a point off the screen |
| `Raster.Framebuffer.Plot` | FeatherOS/kernel/drivers/framebuffer.c:380-447 | drawing points colours exactly those on the screen |

## Left out

- FrameBitmap.FrameAllocator.AllocPages: does not say what happens where the scan reads past the bitmap; `FrameAllocatorSpec.ScanInsideIff` says exactly when it does not.
- FrameBitmap.FrameAllocator.FindFirstFree: does not say what happens where the scan reads past the bitmap.
- FrameBitmap.FrameAllocator.constructor: does not model `int` and `uint64_t` limits on the size of memory.
- RunQueues.CfsRq.Enqueue: covers tasks on no queue; the branch that moves a task between queues decrements the other queue's count without unlinking the task.
- RunQueues.CfsRq.Dequeue: covers tasks in the tree or on no queue, not a task that an earlier two-child dequeue has dropped from the tree while its queue pointer stayed set.
- SlabCaches.SlabCache.Free: covers no double free of an object of a full or partial slab, which the code does not detect; `SlabSpec.GiveBackIff` says that it breaks the cache.
- SlabRuns.ExecSafe: clients write the first 4096 bytes of their objects at most, which is all of them in the caches the kernel has; `SlabMemory.SeparateIff` says what larger objects do to other slabs.
- SlabCaches.SlabCache.DropOne: reads the counts of the header while it exists; the code reads them after kfree.
- PagingRuns.ExecRefines: starts from a reserved PML4 frame, which the kernel's own initialisation does not give.
- Routes.RouteTable.Add: leaves open which stale gateway a slot keeps when none is given.
- Raster.Line: coordinates are unbounded integers, so overflow of `int` is not modelled.
- Raster.Circle: coordinates are unbounded integers, so overflow of `int` is not modelled.
- RwLock.Safety: the reader count is an unbounded integer; it is the number of threads, so it overflows only with 2^31 of them.
- InternetChecksum.ByteOrderIndependence: assumes that the 32-bit sums do not overflow, as they cannot for buffers up to 131072 bytes.
- HashTableSpec.InitInv: does not model overflow of the 64-bit product that gives the load limit.
- Statistics other than the counters named above, slab constructors and destructors, per-CPU slab caches and cache destruction.
- TLB invalidation, CR3 switches, page-fault handling, vmalloc and the unmapping of ranges.
- vma_rb_erase, vma_munmap and vma_mmap: the erase does not rebalance and can link a node to itself, and the unmap overwrites its loop variable.
- physical_unreserve: sets bits while it raises the free count.
- The string hash table: its remove clears a slot without a tombstone and so cuts probe chains.
- The buffer cache, whose reused buffers stay on their old hash chain, and the timer wheel, whose cascade puts timers back where they were.
- TCP, UDP, ARP and sockets; the dotted-decimal conversions.
- schedule, sched_tick and context switches, and the change of vruntime while a task runs.
- VFS, ext2, device drivers, console, shell, boot code and interrupts.
- Double buffering, pitch and pixel formats of the framebuffer.
- Vectors, lists, ring buffers, PID and descriptor tables, which would only add easy members.
- Weak memory ordering and fairness: a lock may be contended for ever.
