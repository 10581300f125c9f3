# xv6 copy-on-write allocator, mmap/munmap and pgaccess, in Dafny

This project models three pieces of an xv6 (RISC-V) teaching kernel and
proves properties of them.

- **The physical page allocator with reference counts.** A per-page count
  array (`kref.cnt`) sits next to the free list. `kfree` decrements the
  count and recycles the page only when the count reaches zero. `kalloc`
  pops the free list and sets the count to 1. At boot, `kinit` sets every
  count to 1, and `freerange` then `kfree`s every whole page between the
  end of the kernel image and PHYSTOP.
- **The memory-mapping system calls.**
  - `sys_mmap` places a new VMA (virtual memory area) just below a
    per-process watermark, `mmap_top`, and takes a file reference.
  - `sys_munmap` finds the VMA holding a page-rounded range. For a
    MAP_SHARED VMA it writes resident pages back to the file. It then
    unmaps resident pages and frees the VMA, or trims it at the front or
    back.
  - The file-descriptor helpers `argfd` and `fdalloc`, and the read/write
    decode of `sys_open`'s mode, are modelled with them.
- **`sys_pgaccess`.** It scans up to 64 consecutive pages, reports in a
  mask which ones the hardware marked accessed (PTE_A), and clears that
  bit.

Everything is modelled as pure functions over immutable state:

- `Kalloc.Kmem` holds the `end` symbol, the free list, the count array
  and the junk byte last written to each page.
- `SysFile.Proc` holds the open-file table, the open files reachable from
  it with their reference counts, the VMA slots, `mmap_top` and an
  abstract page table.
- The page table is a map from page-aligned virtual address to the leaf
  entry `walk` finds there. An address outside the map is one for which
  `walk` returns 0.
- A `panic` is the `Panic` case of `Common.Result`.
- Things the kernel gets from code outside the model are parameters:
  - `short` is the set of file offsets at which `writei` comes back
    short;
  - `copyOk` is whether `copyout` succeeds.
- The pgaccess mask is modelled as its 64 bits. Bit `j` is element `j`
  of a `seq<bool>`, so `mask |= (uint64)1 << i` sets element `i`.

Files:

- `common.dfy` holds results, page rounding, unsigned and `int`
  wrap-around, and the PTE flag bits.
- `kalloc.dfy` holds the allocator.
- `kinit.dfy` holds boot seeding.
- `sysfile.dfy` holds the system calls.
- `mmap_props.dfy` holds properties that relate several calls.
- `sysproc.dfy` holds pgaccess.

## Model

| member | source | states |
|---|---|---|
| Kalloc.RefIdx | kernel/kalloc.c:12 | REF_CNT_IDX of a managed address is a slot of the count array, and that slot's page contains the address |
| Kalloc.PageAddrOfRefIdx | kernel/kalloc.c:12 | on page addresses REF_CNT_IDX is injective: a page's slot maps back to the page and no other slot does |
| Kalloc.SetRefcnt | kernel/kalloc.c:41-43 | every address in the page reads back the stored count, wrapped to a C int; every other slot, the free list and the page contents are unchanged |
| Kalloc.IncRefcnt | kernel/kalloc.c:45-47 | below INT_MAX the page's count rises by one; the returned uint64 is the new count; every other slot is unchanged |
| Kalloc.DecRefcnt | kernel/kalloc.c:49-51 | above INT_MIN the count drops by one; the returned uint64 is 0 exactly when the new count is 0, so a count of -1 reads as a huge positive value |
| Kalloc.RefcntRoundTrip | kernel/kalloc.c:45-51 | dec_refcnt undoes inc_refcnt and inc_refcnt undoes dec_refcnt for every count, including the 32-bit wrap-around at INT_MAX and INT_MIN |
| Kalloc.KFree | kernel/kalloc.c:80-104 | panics exactly for an unaligned address, one below `end` or one at or above PHYSTOP; otherwise decrements the count; the page is pushed on the free list head and filled with junk byte 1 exactly when the count reaches 0, and otherwise the list and contents stay |
| Kalloc.KAlloc | kernel/kalloc.c:109-125 | an empty free list gives 0 and changes nothing; otherwise the head page is returned (never 0) and popped, its count set to 1, its contents to junk byte 5, and every other count kept |
| Kalloc.KAllocPreservesInv | kernel/kalloc.c:109-125 | kalloc keeps the allocator invariant: the free list has no duplicates and a managed page is on it exactly when its count is 0. The page it returns had count 0 and is no longer free |
| Kalloc.KFreePreservesInv | kernel/kalloc.c:80-104 | kfree of a managed page by a holder (count at least 1) does not panic and keeps the invariant |
| Kalloc.IncRefcntPreservesInv | kernel/kalloc.c:45-47 | sharing an allocated page (inc_refcnt) keeps the invariant and returns the incremented count |
| Kalloc.KFreeOfFreePage | kernel/kalloc.c:88-92 | a second kfree of a free page does not panic: dec_refcnt returns 2^64-1, kfree returns early, and the count is left at -1 while the page stays on the free list, which breaks the invariant |
| Kalloc.SharedPageFreedOnlyAtZero | kernel/kalloc.c:80-104 | a page shared once (count 2) survives the first kfree (count 1, not free) and is pushed on the list only by the second, which restores the invariant |
| Kalloc.ScrubRoundTrip | kernel/kalloc.c:109-125 | kalloc then kfree then kalloc returns the same page, with junk byte 1 after the free and 5 after the reallocation, and the rest of the list as before |
| Kalloc.KAllocTwiceDistinct | kernel/kalloc.c:109-125 | two allocations in a row from a list of at least two pages return two different non-zero pages |
| KallocInit.InitRefCnt | kernel/kalloc.c:53-56 | init_ref_cnt gives every one of the REF_CNT_IDX(PHYSTOP) count slots the value 1 |
| KallocInit.Freerange | kernel/kalloc.c:67-74 | freerange starts at PGROUNDUP(pa_start); when it does not panic the allocator stays well formed (counts in int range, every listed page managed) and `end` is unchanged |
| KallocInit.FreerangeFrom | kernel/kalloc.c:71-73 | each loop step kfrees one page and continues from the next; when no step panics the allocator stays well formed and `end` is unchanged |
| KallocInit.PagesDescSpec | kernel/kalloc.c:71-72 | freerange's loop visits exactly the page-aligned offsets from the start whose whole page lies below the end, each once, in increasing order (so they end up decreasing on the list) |
| KallocInit.FreerangeFromOk | kernel/kalloc.c:67-74 | freerange over managed pages that all have count 1 and are not yet free never panics |
| KallocInit.FreerangeFromSpec | kernel/kalloc.c:67-74 | freerange over such pages leaves exactly those pages on the free list, highest first, in front of the old list |
| KallocInit.FreerangeFromCounts | kernel/kalloc.c:67-74 | freerange drops the count of every page in its range to 0 and leaves every other count as it was |
| KallocInit.FreerangeFromJunk | kernel/kalloc.c:67-74 | freerange fills every page in its range with junk byte 1 and leaves the recorded contents of every other page alone |
| KallocInit.KInit | kernel/kalloc.c:58-65 | after boot the allocator invariant holds; the free list holds exactly the whole pages between PGROUNDUP(end) and PHYSTOP, each filled with junk; their counts are 0 and every count below PGROUNDUP(end) is 1 |
| SysFile.OpenModes | kernel/sysfile.c:336-337 | every open mode gives read or write access, and both exactly when the access bits are O_RDWR without O_WRONLY |
| MmapProps.OpenModeTable | kernel/sysfile.c:336-337 | O_RDONLY reads only, O_WRONLY writes only, O_RDWR does both, O_WRONLY\|O_RDWR writes only, and O_CREATE or O_TRUNC never change the access |
| SysFile.ArgFd | kernel/sysfile.c:21-33 | argfd succeeds exactly for a descriptor in range whose slot is occupied, and then yields that slot's file |
| SysFile.FdAlloc | kernel/sysfile.c:37-48 | fdalloc fails exactly when every slot is full and then changes nothing; otherwise it fills the lowest empty slot with the file and changes no other slot |
| MmapProps.FdAllocArgFd | kernel/sysfile.c:21-48 | the descriptor fdalloc returns resolves through argfd to the installed file, and every other descriptor resolves as before |
| SysFile.FreeSlot | kernel/sysfile.c:523-525 | the VMA slot mmap takes is the lowest unused one, or none when every slot is used |
| SysFile.Mmap | kernel/sysfile.c:498-541 | returns -1 and changes nothing on a read-protection or shared-write-protection violation, or when no slot is free. Otherwise it returns PGROUNDDOWN(mmap_top - length), which is the new watermark; fills the lowest free slot with the request's fields; and raises the file's reference count, changing nothing else |
| SysFile.MmapPermitted | kernel/sysfile.c:513-520 | mmap's capability check: a mapping is refused when it asks PROT_READ of an unreadable file, or PROT_WRITE with MAP_SHARED of an unwritable one, and allowed otherwise |
| MmapProps.ReadOnlyFileMappings | kernel/sysfile.c:513-520 | a read-only file may be mapped shared for reading and private for writing, but never shared for writing |
| MmapProps.MmapPreservesLayout | kernel/sysfile.c:523-538 | mmap keeps the layout invariant: used VMAs start page-aligned at or above the watermark and do not overlap |
| SysFile.SelectVma | kernel/sysfile.c:563-572 | munmap's search returns the lowest used slot whose page range holds [begin, end), or -1 when none does |
| MmapProps.FreshVmaSelected | kernel/sysfile.c:563-572 | after mmap, munmap of any page range starting on one of the new mapping's pages and ending within them selects the new VMA |
| SysFile.WritebackFrom | kernel/sysfile.c:585-603 | the write-back loop panics only if some page of the range cannot be walked, and never when all can |
| SysFile.WritebackFromWrites | kernel/sysfile.c:585-603 | the pages written back are resident pages of the range, in order, each at its VMA file offset, none of them short. A completed loop wrote every resident page; a stopped loop stopped at the first resident page whose write was short |
| SysFile.WritebackFromCompletes | kernel/sysfile.c:585-603 | with every page walkable and no short write the loop runs to the end |
| SysFile.ValidPagesInRange | kernel/sysfile.c:586-590 | the pages both munmap loops act on are exactly the page-aligned addresses in the range whose entry has PTE_V set |
| SysFile.UnmapFrom | kernel/sysfile.c:606-613 | the unmapping loop panics exactly when some page of the range cannot be walked, and keeps the set of walkable pages |
| SysFile.UnmapFromEntries | kernel/sysfile.c:606-613 | every resident page of the range gets a zero entry and every other entry is unchanged |
| SysFile.UnmapFromFrames | kernel/sysfile.c:606-613 | the frames handed to uvmunmap for freeing are those of the resident pages of the range, in order |
| MmapProps.NothingToUnmap | kernel/sysfile.c:606-613 | when no page of the range is resident, unmapping it changes no entry |
| SysFile.Trim | kernel/sysfile.c:615-627 | panics exactly for a range strictly inside the VMA. Otherwise the remaining VMA covers exactly the old addresses outside the range, keeps each address's file offset, protection, flags, file and descriptor, and stays within the old range. Its byte length is the old one minus the range for a prefix cut (the VMA still ends where it did) and `begin - addr` for a suffix cut |
| MmapProps.TrimFirstPage | kernel/sysfile.c:619-622 | cutting the first page off a longer VMA moves its base and file offset up one page and shortens it by one page |
| SysFile.Munmap | kernel/sysfile.c:553-630 | returns -1, changing nothing and releasing nothing, when no VMA holds the range or the VMA is shared and its file unwritable; every non-zero return is such a no-change -1; a panic means a page could not be walked or the range is an interior hole |
| SysFile.MunmapSucceeds | kernel/sysfile.c:553-630 | munmap returns 0 when a VMA holds the range, a shared one's file is writable, every page can be walked, the range is not an interior hole, and no shared write-back is short |
| SysFile.MunmapWrites | kernel/sysfile.c:580-604 | pages are written back only for a shared VMA, each at its file offset. A -1 after write-back means a resident page's write was short; a 0 means every resident page was written (none for a private VMA) |
| SysFile.MunmapEffectTable | kernel/sysfile.c:606-613 | after a successful munmap every resident page of the range is unmapped, no other entry changes, and the frames released are the resident pages' frames |
| SysFile.MunmapEffectSlots | kernel/sysfile.c:615-627 | after a successful munmap the selected slot holds the trimmed VMA. The file's reference drops by one exactly when the whole VMA went, and the watermark and descriptors stay |
| MmapProps.MunmapPreservesLayout | kernel/sysfile.c:615-627 | munmap keeps the layout invariant |
| MmapProps.WholeUnpopulatedOutcome | kernel/sysfile.c:616-618 | munmap of a whole VMA with no resident page, when `walk` finds every page of the range, a MAP_SHARED VMA's file is writable and the range fits the Munmap limits under "## Left out", returns 0, writes and releases nothing, and frees the slot |
| MmapProps.WholeUnpopulatedTable | kernel/sysfile.c:606-613 | in that case (no resident page, `walk` finds every page, a MAP_SHARED VMA's file writable, the range within the Munmap limits) the page table is unchanged |
| MmapProps.MunmapWholeUnpopulated | kernel/sysfile.c:553-630 | the whole outcome of that call, under the same conditions (no resident page, `walk` finds every page, a MAP_SHARED VMA's file writable, the range within the Munmap limits): the slot freed and the file reference dropped, nothing else changed |
| MmapProps.FreshMappingUnpopulated | kernel/sysfile.c:523-538 | a fresh mapping with no page faulted in, every page of which `walk` can find and which, if MAP_SHARED, maps a writable file, meets the conditions for a clean whole munmap; freeing its slot and reference gives back the state before the mmap apart from the watermark |
| MmapProps.MmapThenMunmap | kernel/sysfile.c:498-630 | munmap of exactly the range a fresh mmap returned, with nothing faulted in, restores the process except for the lowered watermark, provided `walk` finds an entry for every page of the range and a MAP_SHARED mapping is of a writable file |
| MmapProps.FreshUnwalkablePanics | kernel/sysfile.c:606-610 | munmap of a fresh private mapping panics when some page of it has no entry `walk` can find |
| MmapProps.FreshEmptyTablePanics | kernel/sysfile.c:606-610 | with an empty page table, munmap of any fresh private mapping panics |
| MmapProps.SharedReadOnlyMappingStays | kernel/sysfile.c:580-584 | a shared PROT_READ mapping of a read-only file is accepted by mmap, but every munmap whose rounded range starts on one of the mapping's pages and ends within them returns -1 and changes nothing |
| MmapProps.MunmapHolePanics | kernel/sysfile.c:625-627 | munmap of a walkable range strictly inside a private VMA panics |
| MmapProps.FirstPageOutcome | kernel/sysfile.c:580-613 | munmap of the resident first page of a longer shared writable VMA writes that page back at the VMA's offset, releases its frame and returns 0, provided that write-back is not short (a short one returns -1 at kernel/sysfile.c:594-599 before anything is unmapped) |
| MmapProps.FirstPageVmas | kernel/sysfile.c:619-622 | that call moves the VMA's base and offset up one page |
| MmapProps.FirstPageKeepsFiles | kernel/sysfile.c:619-622 | that call keeps the file table, the watermark and the descriptors |
| MmapProps.FirstPageTable | kernel/sysfile.c:606-613 | that call zeroes exactly the first page's entry |
| MmapProps.FirstPageUnmap | kernel/sysfile.c:553-630 | the whole outcome of that call, as one state, when the write-back of the first page is not short |
| MmapProps.MmapSharedPrefix | kernel/sysfile.c:498-541 | a fresh two-page shared writable mapping whose first page has been faulted in meets the conditions of FirstPageOutcome |
| SysProc.ClearAccessed | kernel/sysproc.c:93-94 | the entry loses PTE_A and keeps every other bit |
| SysProc.Reach | kernel/sysproc.c:89-92 | the loop gets to the first iteration whose page `walk` cannot resolve: every earlier page resolves and that one does not |
| SysProc.ScanFrom | kernel/sysproc.c:89-98 | the loop keeps the set of walkable pages and completes exactly when every page it visits resolves |
| SysProc.PgAccess | kernel/sysproc.c:73-104 | more than 64 pages gives -1 with nothing inspected or changed. The call gets to copyout exactly when every visited page resolves, and returns 0 exactly when it got there and copyout succeeded. With num <= 0 nothing changes and the mask is 0 |
| SysProc.PageAt | kernel/sysproc.c:90-97 | the page `walk` resolves on iteration i is page-aligned, below 2^64 and holds `base` advanced by i pages modulo 2^64; without wrap-around it is PGROUNDDOWN(base) plus i pages |
| SysProc.PageAtDistinct | kernel/sysproc.c:89-97 | at most 64 iterations of `base += PGSIZE` never visit the same page twice, even when base wraps past 2^64 |
| SysProc.ScanLeavesAt | kernel/sysproc.c:89-98 | an entry the loop does not visit keeps its value |
| SysProc.ScanClearsAt | kernel/sysproc.c:93-94 | every page the loop reaches ends with PTE_A cleared and its other bits unchanged |
| SysProc.ScanMaskAt | kernel/sysproc.c:93-95 | bit j of the mask is set exactly when the loop reached iteration j and that page had PTE_A on entry |
| SysProc.ScanQuiet | kernel/sysproc.c:89-98 | a scan that meets no accessed page changes neither the page table nor the mask |
| SysProc.PgAccessClears | kernel/sysproc.c:89-98 | every page the call reaches has PTE_A cleared, even when a later page makes it fail (no rollback) |
| SysProc.PgAccessLeaves | kernel/sysproc.c:89-98 | an entry the call does not reach is unchanged |
| SysProc.PgAccessMask | kernel/sysproc.c:88-100 | the mask handed to copyout has bit j set exactly when j < num and page j had PTE_A on entry |
| SysProc.PgAccessWalkFails | kernel/sysproc.c:89-92 | for at most 64 pages, the call stops short of copyout exactly when some page below num cannot be walked |
| SysProc.PgAccessAgain | kernel/sysproc.c:89-98 | right after a call that got to copyout, a second call reports an empty mask and changes nothing |

## Left out

- Locks (`kmem.lock`, `kref.lock`, `kref_lock`/`kref_unlock`) and concurrency: every operation is one atomic step.
- Page contents: a page is represented by the junk byte `memset` last wrote to it (1 in kfree, 5 in kalloc). The byte-level `memset` and the use of a free page's first word as the `run` link are not modelled.
- `walk`, `uvmunmap`, `writei`, `copyout`, `begin_op`/`ilock` and the file system are not part of this model:
  - `walk` is the page-table map. Its panic for addresses at or above MAXVA is not modelled.
  - `uvmunmap(pt, va, 1, 1)` is zeroing the entry plus reporting the frame in `released`; the `kfree` of that frame is left to the caller of the model.
  - `writei` success is the `short` parameter; `copyout` success is the `copyOk` parameter.
- The copyout length `(num + 7) & ~7` in sys_pgaccess is part of copyout's plumbing, not of the mask, and is not modelled.
- `filedup` and `filered` are the `ref` counter of `OpenFile`. Closing a file when the count reaches zero is not part of this model.
- System-call argument fetching (`argint`, `argaddr`, `argint64`) is replaced by Dafny parameters. A negative `length` cannot arise; the C types are respected through the naturals and the preconditions below.
- The page-fault handler that populates mapped pages, and the other system calls in the same files, are not modelled. They are thin wrappers around inode, directory, scheduling and process code that is not part of this model.
- The user programs of the repository (find, primes, xargs, pingpong, sleep) are pipe, fork and exec exercises, and are not part of this model.
- The rest of sys_open (path lookup, inode creation, device files, O_TRUNC truncation) is not modelled; only its read/write decode at kernel/sysfile.c:336-337 is.
- Mmap: requires argfd to have found an open file. The source ignores argfd's result and would dereference an uninitialised pointer otherwise.
- Mmap: requires `length <= mmap_top`. The source has no check, and `mmap_top - length` would wrap around as a uint64.
- Munmap: requires `addr + length` to stay a page below 2^64, so that the uint64 PGROUNDUP does not wrap.
- Munmap: requires the rounded range to be shorter than 2^32 bytes when the selected VMA is MAP_SHARED and its file writable, the one case in which the write-back loop runs. Its counter is a 32-bit `uint` (kernel/sysfile.c:585): on a longer range it wraps around before reaching `end - begin`, so the loop never ends unless a walk panics or a write comes back short. Private VMAs, the refusal of an unwritable file and the no-match -1 carry no such limit.
- Kalloc.IncRefcnt, Kalloc.DecRefcnt, Kalloc.RefcntRoundTrip: `++` and `--` on a C `int` at INT_MAX or INT_MIN are undefined behaviour in C. The model (Common.Wrap32) picks two's-complement wrap-around where C leaves the result undefined.
- Kalloc.KFreePreservesInv: proved only for a caller holding a reference (count at least 1). Freeing a page with count 0 breaks the invariant, as KFreeOfFreePage shows.
- SysProc.PgAccess: `base` is a uint64 (`base < 2^64`). The page of each iteration is PGROUNDDOWN of `base` plus i pages, wrapping at 2^64, which is the page `walk` resolves.

## Behaviour of the code worth knowing

- **Shared mappings of read-only files.** munmap refuses with -1 every
  MAP_SHARED VMA whose file is not writable, even one mapped PROT_READ
  only (kernel/sysfile.c:580-584), although sys_mmap accepts that mapping
  (kernel/sysfile.c:513-520). Such a mapping can never be unmapped
  (MmapProps.SharedReadOnlyMappingStays).
- **Interior ranges.** A range strictly inside a VMA reaches `panic`
  after the write-back loop (MAP_SHARED only) and the unmapping loop
  have run (kernel/sysfile.c:625-627); the comment
  at kernel/sysfile.c:549-551 says callers never ask for one
  (MmapProps.MunmapHolePanics).
- **Pages never touched.** Both munmap loops panic when `walk` finds no
  page-table page for an address of the range (kernel/sysfile.c:586-588
  and 607-609). Pages of a fresh mapping that nothing has touched are in
  exactly that state unless they share a page-table page with mapped
  memory, so munmap of such a mapping can panic
  (MmapProps.FreshUnwalkablePanics, MmapProps.FreshEmptyTablePanics,
  both for private mappings).
- **Long shared ranges.** The write-back loop counts with a 32-bit
  `uint` (kernel/sysfile.c:585), so on a shared range of 4 GiB or more it
  never reaches the end.
- **Double kfree.** A second `kfree` of a page that is already free is
  not caught. dec_refcnt's -1, read as a uint64, is positive, so kfree
  returns quietly and leaves the count at -1 (kernel/kalloc.c:49-51,
  88-92; Kalloc.KFreeOfFreePage).
