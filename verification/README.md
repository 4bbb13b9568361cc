# A verified model of the AlvOS kernel

AlvOS-x64 is a small 64-bit kernel in C. This project models its stateful core in Dafny and proves what that core
is for. `dafny verify dfyconfig.toml` checks everything.

**The kernel heap** (`kmalloc.c`). The allocator is a class over the bytes of the heap region. The 29-byte packed
headers live in those bytes, little-endian, and every field access is a read or a write of them. Each method is
proved to do to the list threaded through memory exactly what a pure operation does to a sequence of blocks:
`BlockList` and `HeapSpec` hold that picture, `HeapMemory` and `HeapLinks` tie it to bytes, `HeapOps` gives the
result of each call, `Heap` is the class, `HeapTheorems` reasons over runs of calls, `HeapCalls` says what each call does
in terms of live blocks, gaps and counters alone, and `HeapScript` reasons over runs on memory in which callers also
write to their payloads. The main results: the block list is a function of the set of
live allocations, so the order of frees is immaterial and freeing everything restores the initial heap; first fit
fails only when no gap exists and takes the lowest; in every run of admissible calls (see below) the list stays
valid, the statistics balance, and a block that stays live holds what it held and what its owner wrote; the magic
number marks exactly the listed blocks as long as no payload spells it, so that stale and double frees do nothing.

**The frame allocator** (`memory.c`, `kernel.c`). A class over 32-bit bitmap words refines a set of used frames.
Over every run, grants are disjoint from each other and from everything marked at start-up; releasing a grant
restores the words; the frames that hold the bitmap are protected under an exact condition, which a map of page-aligned
disjoint available entries meets; and the redundant counter is exact if and only if no two reserved entries share a
frame. `PmmBytes` says in bytes what initialisation marks and what a free releases.

**The keyboard ring** (`keyboard.c`). The handler may run between any two accesses of the reader, so the driver is
also a step relation with a program counter for the reader. In every interleaving the accepted characters are delivered
in order, none lost or repeated, except those that clearing the buffer discards. `KeyLayout` gives the meaning of the
scancode tables and of the modifier flags over every sequence of scancodes.

**The shell** (`shell.c`). The tokeniser that writes NULs into its own buffer equals a pure tokeniser of the
original text, which inverts the typing of arguments, quoted or bare. The line editor gives back what was typed. The bounded history is always the end of the
unbounded one.

**The terminal** (`terminal.c`). The 80x25 screen is the last window of an unbounded page, for every stream of
characters and colours. `TerminalText` says where every character of a text then stands.

**The boot information** (`memory.c`). The walk over Multiboot2 tags (section 3.6 of the Multiboot2 Specification
2.0) recovers from the bytes the list of tags that an encoder wrote, and keeps the first 256 entries. `Boot` takes
these entries to the region that the frame allocator manages.

Six promises are false of the code, and are settled exactly:

- The mask in `align_up` has 32 bits. A request is rounded up to something that covers it if and only if the sum
  stays below 2^32 (`RequestCovers`), and an allocation that succeeds has room for what was asked under the same
  condition (`MallocMeetsRequest`, `ReallocMeetsRequest`). `WrappedRequest` is an input for which it fails.
- As a consequence krealloc can copy past the payload it was granted. The copy stays clear of every header if and only
  if it is no longer than the granted payload (`CopyStaysInside`). On the state before the call, that
  is so if and only if there is no room, the rounded request is no smaller than the old block, or the block found is
  large enough and not split; every request below 2^32 - 15 passes (`CopyFitsExactly`). `Krealloc` and
  the theorems on runs hold under the exact condition, `CopyFits`. Where it fails the next header is overwritten
  (`OverrunHeader`): after kmalloc(100), krealloc to 2^32 bytes loses the list, and heap_validate says so
  (`WrappedReallocBreaksHeap`).
- The counter of `pmm_init` counts a frame once for every reserved entry that covers it (`InitCount`,
  `CounterOverRuns`); `DoubleCounted` is a family of inputs for which it is wrong.
- The end of the managed region is computed in 64 bits. Freeing what was allocated undoes the allocation if and only
  if the region ends below 2^64, and otherwise no free has any effect (`FreeUndoesAlloc`).
- The bitmap does not always protect its own frames. One at or above the base of the region does if and only if it
  does not straddle into one page more than its size needs, or the frame of that page is unmanaged or marked for
  another reason (`BitmapProtectedExactly`); one that starts below the base does if and only if the managed frames it
  reaches are marked for another reason (`BitmapBelowExactly`). Available entries that start a page and do not overlap
  are enough (`BitmapSelfProtection`); an entry that starts inside a page is not (`UnalignedEntryUnprotected`).
- The sizes of basic memory information are turned into bytes in 32 bits. The totals are those reported if and only if
  both parts are below 4 GiB (`BasicTotals`).

The prose of the repository's own README.md and ARCHITECTURE.md describes a linear heap without a free operation.
The code has a free list, and the model follows the code.

## Model

| member | source | states |
|---|---|---|
| BitOps.PowerOfTwoTest | kmalloc.c:174 | The test `a & (a - 1)` is zero exactly for the powers of two. |
| BitOps.MaskMeaning | kmalloc.c:22 | Masking with the complement of `al - 1` in width `w` drops the bits below `al` and those from `w` up. |
| BitOps.AlignUpExact | kmalloc.c:20-23 | For a power of two the rounded value reaches the request if and only if the sum fits 32 bits, and is then the next multiple; the result never exceeds 32 bits. |
| BitOps.AlignUpOfModulus | kmalloc.c:20-23 | A value of 2^32 is rounded to zero: the family of inputs for which rounding up loses the request is not empty. |
| BlockList.CanonicalUnique | kmalloc.c:55-109 | Two lists that tile the heap without adjacent free blocks and have the same live blocks are equal. |
| BlockList.TilesOrdered | kmalloc.c:65-77 | In a tiling, list order is address order and blocks do not overlap. |
| HeapSpec.Find | kmalloc.c:47-49 | The block at an address is the first one listed there. |
| HeapSpec.FindUnique | kmalloc.c:47-49 | No two blocks of a tiling share an address. |
| HeapSpec.FirstFit | kmalloc.c:114-125 | The first free block that is large enough, and none before it. |
| HeapSpec.Granted | kmalloc.c:161-206 | The block handed out is at the chosen address, in use, and has between `n` and `n + 44` bytes. |
| HeapSpec.SplitTiles | kmalloc.c:55-78 | Splitting keeps the tiling of the heap. |
| HeapSpec.AllocatedCanonical | kmalloc.c:161-206 | Allocation keeps the tiling and never leaves two adjacent free blocks. |
| HeapSpec.AllocatedLive | kmalloc.c:161-206 | Allocation adds exactly the granted block to the live ones, and it was not live before. |
| HeapSpec.RunStartUnique | kmalloc.c:105-108 | The backward half of coalescing finds the start of the maximal free run, and only one start qualifies. |
| HeapSpec.RunEndUnique | kmalloc.c:88-103 | The forward half finds the end of the maximal free run, and only one end qualifies. |
| HeapSpec.MergeTiles | kmalloc.c:88-103 | One block of the same total extent in place of a run keeps the tiling. |
| HeapSpec.MergeStep | kmalloc.c:88-103 | Absorbing blocks one at a time is merging them at once. |
| HeapSpec.CoalesceFromPrevious | kmalloc.c:105-108 | Merging forward and then recursing into the previous free block gives the merge of the whole run. |
| HeapSpec.CoalesceForward | kmalloc.c:84-109 | When the loop ends, the recursion into `prev` completes the run if there is a free block before, and otherwise the run is complete. |
| HeapSpec.CoalescedCanonical | kmalloc.c:84-109 | If only the argument had free neighbours, coalescing leaves no two adjacent free blocks. |
| HeapSpec.CoalescedLive | kmalloc.c:84-109 | Coalescing leaves the live blocks alone. |
| HeapSpec.FreedCanonical | kmalloc.c:263-299 | Freeing any address keeps the heap canonical. |
| HeapSpec.FreedLive | kmalloc.c:263-299 | Freeing removes the live block at that address, if there is one, and no other. |
| HeapSpec.SizesBalance | kmalloc.c:303-334 | Used bytes, free bytes and headers make up the whole extent, and the two counts make up the number of blocks. |
| HeapSpec.CountLive | kmalloc.c:303-334 | The count of used blocks is the number of live allocations. |
| HeapMemory.LoadDependsOnHeader | kmalloc.h:16-22 | A header is the 29 bytes at its address and nothing else. |
| HeapMemory.LoadMagicWritten | kmalloc.h:16-22 | Writing the magic field changes that field and no other. |
| HeapMemory.LoadSizeWritten | kmalloc.h:16-22 | The same of the size. |
| HeapMemory.LoadFreeWritten | kmalloc.h:16-22 | The same of the free flag. |
| HeapMemory.LoadNextWritten | kmalloc.h:16-22 | The same of the next pointer. |
| HeapMemory.LoadPrevWritten | kmalloc.h:16-22 | The same of the prev pointer. |
| HeapMemory.MagicBytes | kmalloc.c:28-35 | A header has the magic number exactly when its four bytes stand there in order. |
| HeapMemory.SmallNumberWrite | kmalloc.c:65-77 | Writing a size or a pointer of the heap spells the magic number nowhere new. |
| HeapMemory.MagicWrite | kmalloc.c:66 | Writing the magic number spells it there and nowhere else. |
| HeapLinks.LinkedSplit | kmalloc.c:64-77 | The stores of a split turn the memory of a list into the memory of the split list, back pointers included. |
| HeapLinks.LinkedMerge | kmalloc.c:88-103 | The stores of one merging step turn the memory of a list into the memory of the merged list. |
| HeapLinks.LinkedFlag | kmalloc.c:293 | Writing one flag changes that block and keeps every link. |
| HeapLinks.LinkedPayload | kmalloc.c:199-201 | Writing inside a payload keeps the list. |
| HeapOps.CallocOverflow | kmalloc.c:208-217 | The division test detects exactly the products that 64 bits cannot hold. |
| HeapOps.BlockOf | kmalloc.c:47-49 | The listed block whose payload starts at a pointer. |
| Heap.KernelHeap.SplitBlock | kmalloc.c:55-78 | The list in memory becomes the split list, and stays as it was for a block that is not free, is NULL or is too small; live payloads are kept. |
| Heap.KernelHeap.CoalesceBlocks | kmalloc.c:84-109 | It terminates, and the maximal free run around the argument becomes one block; live payloads are kept, and if the magic number stood at listed blocks only, it still does, so merged headers have lost it. |
| Heap.KernelHeap.FindFreeBlock | kmalloc.c:114-125 | The walk returns the address of the first fit, and NULL exactly when there is none. |
| Heap.KernelHeap.HeapInit | kmalloc.c:129-143 | The heap is one free block, and the counters are zero. |
| Heap.KernelHeap.Memset | string.c:80-85 | The `n` bytes are set and no other byte changes. |
| Heap.KernelHeap.Memcpy | string.c:71-77 | The `n` bytes arrive, unless the destination starts inside the source, and no other byte changes. |
| Heap.KernelHeap.KmallocAligned | kmalloc.c:161-206 | State and result are those of the pure allocation in every case; the granted bytes are zero, live payloads are kept, and no magic number is forged. |
| Heap.KernelHeap.Kmalloc | kmalloc.c:157-159 | The same at the default alignment. |
| Heap.KernelHeap.Kcalloc | kmalloc.c:208-221 | The same for a product, which is refused exactly when 64 bits cannot hold it. |
| Heap.KernelHeap.Kfree | kmalloc.c:263-299 | A live pointer's block is freed and coalesced; for every other pointer memory and state are unchanged. |
| Heap.KernelHeap.Krealloc | kmalloc.c:223-259 | Whenever the copy fits: growth of a live pointer copies the old payload and zeroes the rest, a fitting size returns the pointer with memory unchanged, and a failed growth leaves the old block live and intact. |
| Heap.KernelHeap.WritePayload | kmalloc.c:40-42 | A caller's write inside its own payload keeps the list and every other payload, and it forges a magic number if and only if one of the four windows around the byte spells it outside a block address. |
| Heap.KernelHeap.HeapGetStats | kmalloc.c:303-334 | The walk computes the statistics of the whole list. |
| Heap.KernelHeap.HeapValidate | kmalloc.c:482-502 | Whatever memory holds, the answer is whether the first 10000 steps of the walk meet only valid headers; it is true in every valid state of an initialised heap. |
| Heap.FollowListed | kmalloc.c:485-499 | In the memory of a list the walk meets its blocks one after the other, and then NULL. |
| Heap.OverrunHeader | kmalloc.c:252-253 | A copy longer than the granted payload overwrites the next header: unless its byte there is the first of the magic number, memory holds the list no more and the walk runs into an invalid header. |
| Heap.MagicMarksBlocks | kmalloc.c:28-35 | While no payload spells it, the magic number marks exactly the listed blocks. |
| HeapTheorems.StepSound | kmalloc.c:157-299 | Each admissible call (one whose copy, if any, fits) keeps the heap canonical and the counters in step with the number of live allocations. |
| HeapTheorems.RunSound | kmalloc.c:157-299 | So does every run of calls, each admissible when it is made. |
| HeapTheorems.RunAccounting | kmalloc.c:303-334 | After every run of admissible calls used, free and header bytes sum to HEAP_SIZE, and used blocks are allocations minus frees modulo 2^32. |
| HeapTheorems.RunsCanonical | kmalloc.c:55-109 | Two runs of admissible calls that leave the same allocations outstanding leave the same list. |
| HeapTheorems.LiveIsolated | kmalloc.c:161-206 | Every block lies inside the heap, and payloads are clear of every other block and header. |
| HeapTheorems.FreeAllLive | kmalloc.c:263-299 | Freeing a list of addresses removes the live blocks at those addresses and no others. |
| HeapTheorems.FreeingOrderIrrelevant | kmalloc.c:263-299 | Freeing the same addresses in any order, any number of times, gives the same list. |
| HeapTheorems.FreeingEverything | kmalloc.c:129-136 | Freeing every allocation gives back the one free block of initialisation. |
| HeapTheorems.FreeUndoesMalloc | kmalloc.c:161-299 | Freeing what was just allocated restores the list. |
| HeapTheorems.FreeOfDeadPointer | kmalloc.c:276-290 | A free changes nothing if and only if the pointer is not live; a second free never changes anything. |
| HeapTheorems.FirstFitIsLowestGap | kmalloc.c:114-125 | The search fails if and only if no gap between live blocks is large enough, and otherwise returns the lowest. |
| HeapTheorems.MallocComplete | kmalloc.c:161-206 | An allocation fails, and is counted, if and only if there is no gap. Otherwise exactly one block becomes live, at the lowest gap, of the rounded size if 45 bytes more would have fitted there and else of all that fits, and the allocation is counted. |
| HeapTheorems.EffectiveIsPow2 | kmalloc.c:173-176 | The alignment used is a power of two: the one given if it is, and else 16. |
| HeapTheorems.RequestCovers | kmalloc.c:173-179 | The bytes asked of the list cover the request if and only if rounding stays within 32 bits. |
| HeapTheorems.MallocMeetsRequest | kmalloc.c:161-206 | A successful allocation has room for the request if and only if rounding stays within 32 bits. |
| HeapTheorems.ReallocMeetsRequest | kmalloc.c:246-258 | A successful growth gives a live block with room for the request if and only if rounding stays within 32 bits. |
| HeapCalls.FreeComplete | kmalloc.c:263-299 | Freeing a live block takes exactly that block from the live ones, and is counted. |
| HeapCalls.FreeOfOther | kmalloc.c:263-290 | Freeing any other pointer changes nothing. |
| HeapCalls.MallocOfZero | kmalloc.c:169-171 | A request of no bytes returns NULL and changes nothing. |
| HeapCalls.NotReady | kmalloc.c:162-167 | Before initialisation an allocation fails and is counted, and a free does nothing. |
| HeapCalls.CallocComplete | kmalloc.c:208-221 | A product that 64 bits cannot hold is refused and counted; one of 0 returns NULL and changes nothing; any other is allocated as kmalloc does, failing if and only if there is no gap. |
| HeapCalls.ReallocGrows | kmalloc.c:246-258 | Growing a live block fails if and only if there is no gap, which leaves the blocks as they are and counts a failure; otherwise that block is exchanged for the best new one, and one allocation and one free are counted. |
| HeapCalls.ReallocFits | kmalloc.c:241-244 | A size that fits returns the pointer and changes nothing. |
| HeapCalls.ReallocToZero | kmalloc.c:228-231 | Size zero returns NULL and releases exactly that block. |
| HeapCalls.ReallocOfNull | kmalloc.c:224-226 | A NULL pointer allocates as kmalloc does. |
| HeapCalls.ReallocOfOther | kmalloc.c:228-239 | A pointer to no listed block changes nothing, and size zero for a freed one neither. |
| HeapCalls.ReallocOfFree | kmalloc.c:233-258 | Growing a freed block is an allocation, unless it takes that very block, which is then released again. |
| HeapCalls.StatsBalance | kmalloc.c:303-334 | The fields of the statistics reported: used, free and header bytes sum to the size of the heap, used bytes are the total of the live blocks, used blocks their number, and allocations minus frees modulo 2^32. |
| HeapTheorems.CopyStaysInside | kmalloc.c:246-253 | After a successful growth the copy stays in the heap and clear of every header if and only if it is no longer than the granted payload. |
| HeapTheorems.CopyFitsExactly | kmalloc.c:241-253 | For a live block that grows, the copy fits if and only if there is no room, the rounded request is no smaller than the block, or the block found is large enough and too small to be split; it fits for every request below 2^32 - 15. |
| HeapTheorems.WrappedRequest | kmalloc.c:179 | A request of 2^32 bytes succeeds on a fresh heap with an empty payload. |
| HeapTheorems.WrappedReallocOverruns | kmalloc.c:246-253 | Growing the block of kmalloc(100) to 2^32 bytes is granted an empty payload for 112 bytes, with a block after it, and the copy does not fit. |
| HeapOverrun.WrappedReallocBreaksHeap | kmalloc.c:246-253 | After heap_init and kmalloc(100), the allocation and the copy of krealloc to 2^32 bytes leave memory that is not the list, and heap_validate answers false. |
| HeapScript.Play | kmalloc.c:157-299 | A script of admissible calls and writes to live payloads, performed up to the first call given a pointer at which payload bytes pose as a header: the list stays valid, the state is that of the run of the calls made, and each block live throughout holds what it held and what was written to it. A script is performed to its end if every pointer is NULL, listed or outside the heap, or comes while no action can have made payloads spell the magic number. |
| HeapScript.Act | kmalloc.c:157-299 | The same for one action; a write forges a magic number if and only if one of the windows around it spells it. |
| HeapScript.PointerIsGenuine | kmalloc.c:273-282 | A pointer that passes the test of kfree and krealloc is a listed block's, if it is known or no payload spells the magic number. |
| HeapScript.IsGenuine | kmalloc.c:273-282 | The look-up answers whether the test of kfree and krealloc would accept the pointer only as that of a listed block. |
| Bitmap.SetFrameBits | memory.c:34-39 | Setting a frame changes that frame's bit and no other. |
| Bitmap.ClearFrameBits | memory.c:44-49 | Clearing a frame changes that frame's bit and no other. |
| Bitmap.ClearUndoesSet | memory.c:34-49 | Clearing a frame that was free before it was set restores the words. |
| MemoryMap.FindAvailableMemoryRegion | kernel.c:170-186 | The region is the first of the longest available entries, and (0, 0) when none has any length. |
| MemoryMap.FindBitmapLocation | memory.c:248-272 | The location is one page into the first available entry with room above 2 MiB, and 2 MiB when there is none. |
| MemoryMap.FirstSuiting | memory.c:251-269 | The first entry with room, and none before it has any. |
| PmmSpec.FirstRunUnique | memory.c:55-87 | The specification of the search has one answer, which the fast path and the general scan share. |
| PmmSpec.GrantedUsed | memory.c:392-397 | Granting a free run adds its frames to the used ones, and the counter moves by as many. |
| PmmSpec.ReleaseRunUsed | memory.c:410-422 | Releasing a run takes its frames from the used ones and no others, whatever state they were in. |
| PmmSpec.ReleaseRunExcess | memory.c:416-421 | The guard on the counter never skips a decrement that is due. |
| PmmSpec.ReleaseUndoesGrant | memory.c:392-422 | Releasing the frame indices just granted restores every word and the counter. |
| PmmSpec.RegionEnds | memory.c:366-367 | The end of a region that reaches 2^64 lies before its start, so no address is in range. |
| PmmTheorems.FreeUndoesAlloc | memory.c:383-423 | Freeing the address and count of a successful allocation restores the words and the counter if and only if the region ends below 2^64; otherwise the free does nothing. |
| PmmSpec.FreeFramesIsFreeEach | memory.c:365-423 | Freeing a run is freeing its frames by single calls at successive pages. |
| PmmInit.InitUsed | memory.c:295-340 | The frames marked are those of reserved entries, of the bitmap and of the first 2 MiB of the region, and no others. |
| PmmInit.MarkEntriesUsed | memory.c:295-316 | Reserved entries mark exactly the frames they cover. |
| PmmInit.InitCount | memory.c:295-340 | The counter is never below the number of marked frames, and equals it if and only if no two reserved entries share a frame. |
| PmmInit.DoubleCounted | memory.c:310-313 | A reserved entry that is listed twice leaves the counter above the number of marked frames. |
| PmmBytes.KernelAreaUsed | memory.c:334-340 | Managed frames in the first 2 MiB of the region are marked. |
| PmmBytes.ReservedExactly | memory.c:302-313 | A reserved entry that starts in the region reserves exactly the managed frames it shares a byte with, but for a last one into which it straddles. |
| PmmBytes.ReservedInBytes | memory.c:302-313 | One that starts a page reserves exactly the managed frames it shares a byte with. |
| PmmBytes.ReservedNowhere | memory.c:298-302 | An available entry, or one that starts outside the region, reserves nothing. |
| PmmBytes.InitInBytes | memory.c:274-341 | In the region that kernel_main settles on, with entries that start a page, a managed frame is marked if and only if it lies in the first 2 MiB of the region or shares a byte with the bitmap or a reserved entry. |
| PmmBytes.BitmapBits | memory.c:284-285 | The bitmap has a bit for every frame, and fewer than 32 to spare. |
| PmmBytes.LocationInBytes | memory.c:251-271 | The bitmap starts one page into the first available entry that has room for it and two pages above 2 MiB, and at 2 MiB if there is none. |
| PmmBytes.FreeFrameInBytes | memory.c:365-379 | A free releases the frame that holds the address and no other. |
| PmmBytes.FreeFramesInBytes | memory.c:402-423 | A free of several pages releases the frames from the one that holds the address to the one that holds the last page's, and no others. |
| Pmm.FrameAllocator.TestFrame | memory.c:24-29 | A frame is used when its bit is set or it is out of range. |
| Pmm.FrameAllocator.FindContiguousFrames | memory.c:55-87 | The result is the least start of a run of `count` free frames, and -1 exactly when there is none or `count` is 0. |
| Pmm.FrameAllocator.AllocFrame | memory.c:352-363 | The first free frame is granted, or the state is unchanged and 0 returned because there is none. |
| Pmm.FrameAllocator.AllocFrames | memory.c:383-400 | The same for runs. |
| Pmm.FrameAllocator.FreeFrame | memory.c:365-379 | The frame at the address is released, if it is managed and used. |
| Pmm.FrameAllocator.FreeFrames | memory.c:402-423 | The used ones among the frames from the address on are released. |
| Pmm.FrameAllocator.GetStats | memory.c:427-442 | The statistics as 64 and 32 bits hold them; with an exact counter nothing wraps, they balance, and the percentage is at most 100, which it reaches only when every frame is used. |
| Pmm.FrameAllocator.Init | memory.c:274-341 | The constructor's loops leave the state that the specification of initialisation describes. |
| PmmTheorems.NextIsOwned | memory.c:352-423 | Each allocation, and each release of a held range, keeps every used frame in exactly one hand. |
| PmmTheorems.RunIsOwned | memory.c:352-423 | So does every run. |
| PmmTheorems.RunFromInit | memory.c:274-423 | From initialisation on, for a region that ends below 2^64, grants lie in the region, are pairwise disjoint and never include a marked frame, and a frame is used exactly when it is marked or held. |
| PmmTheorems.CounterOverRuns | memory.c:295-423 | After any calls with any arguments the counter equals the number of used frames if and only if no two reserved entries share a frame. |
| PmmTheorems.BitmapInAvailable | memory.c:251-269 | When an entry has room, the bitmap lies within one available entry at or above 2 MiB. |
| MemoryMap.ChooseRegion | kernel.c:229-237 | The region managed is the longest available entry, and the fallback exactly when that starts at 0 or is shorter than 2 MiB. |
| PmmTheorems.BelowIsClear | memory.c:248-272 | A bitmap below a detected region lies in another entry, and ends before the region. |
| PmmTheorems.TouchedFrames | memory.c:319-324 | The frames touched by a bitmap at or above the base are those that the code counts, and one more exactly when it straddles. |
| PmmTheorems.BitmapProtectedExactly | memory.c:318-340 | For every map: a bitmap at or above the base has all its managed frames marked if and only if it does not straddle, or the one frame more is unmanaged or marked as kernel or reserved. |
| PmmTheorems.BitmapBelowExactly | memory.c:318-340 | For every map: a bitmap that starts below the base has all its managed frames marked if and only if those that are not kernel frames are reserved. |
| PmmTheorems.BitmapSelfProtection | memory.c:318-340 | In the region that kernel_main settles on, every managed frame of which the bitmap occupies a byte is marked, if available entries start a page and do not overlap each other. |
| PmmTheorems.UnalignedEntryUnprotected | memory.c:318-324 | With one available entry that starts at 0x800, a managed frame that holds the end of the bitmap is not marked. |
| Multiboot.PaddedMeaning | memory.c:227 | The mask rounds a tag's size up to the next multiple of 8. |
| Multiboot.EncodedIsWellFormed | multiboot_header.h:189-249 | The encoding of any tags whose fields fit is well formed, and carries its length. |
| Multiboot.StoredEntries | memory.c:151-206 | The entries kept are the first 256 of all memory maps, in order. |
| Multiboot.TotalsWithoutBasic | memory.c:159-163 | Without basic memory information the total is the sum of the lengths of the stored entries, and the available memory that of those of kind 1, modulo 2^64. |
| Multiboot.BasicTotals | memory.c:129-133 | Basic memory information replaces both totals by the bytes it reports, if and only if both parts are below 4 GiB. |
| Multiboot.TotalsAfterBasic | memory.c:129-163 | What is stored after basic memory information is added to the bytes it gives, whatever came before. |
| Multiboot.WalkEntries | memory.c:154-206 | The inner loop adds the entries of one memory map in order, and the totals of those it keeps. |
| Multiboot.ReadTag | memory.c:124-225 | One turn of the outer loop has the effect of the tag, whatever its kind. |
| Multiboot.MemoryDetect | memory.c:91-228 | On well-formed boot information the walk terminates with the effect of its tags in order; a null or unaligned address yields nothing. |
| Multiboot.DetectEncoded | memory.c:91-228 | The walk recovers from an encoding the entries that were encoded. |
| Boot.SetUpMemory | kernel.c:227-257 | The allocator manages the region chosen from the first 256 entries that the boot information describes, and starts in the state that the specification of initialisation gives for them. |
| Keyboard.PushAppends | keyboard.c:44-50 | A push appends to what is unread, unless 255 characters are waiting; it overwrites nothing unread. |
| Keyboard.AdvanceDropsFirst | keyboard.c:58-60 | Reading takes the oldest character and leaves the others in order. |
| Keyboard.Driver.BufferPush | keyboard.c:44-50 | The buffer after a push. |
| Keyboard.Driver.GetcharNonblock | keyboard.c:53-61 | The oldest unread character is removed and returned, and NUL exactly when nothing was waiting. |
| Keyboard.Driver.BufferCount | keyboard.c:63-69 | The number of unread characters, which fits 8 bits. |
| Keyboard.Driver.ClearBuffer | keyboard.c:153-156 | Nothing is left unread. |
| Keyboard.Driver.Handler | keyboard.c:83-137 | A scancode updates the modifiers or pushes the character it stands for. |
| KeyLayout.ModifiersAfter | keyboard.c:87-111 | After any scancodes shift is held if and only if the last code of either shift key was a press, ctrl and alt likewise, and caps lock is the parity of its presses; no other code matters. |
| KeyLayout.DecodeMeaning | keyboard.c:113-136 | A code types the character whose key it is in the US layout, its other character with shift, and the capital of a letter with caps lock alone; so distinct keys type distinct characters. |
| KeyLayout.KeyTypes | keyboard.c:7-13 | Every character that has a key is typed by it. |
| KeyLayout.CapitalsExactly | keyboard.c:121-129 | Capitals come from letter keys under shift or caps lock, and from nothing else. |
| KeyLayout.SilentCodes | keyboard.c:113-120 | Releases, modifier keys and codes past the tables type nothing. |
| Keyboard.NextKeepsInv | keyboard.c:44-80 | Every step of the handler or the reader, in either order of loading the two positions, keeps accepted = delivered or discarded, then unread, and what the reader has noted. |
| Keyboard.RunKeepsInv | keyboard.c:44-80 | So does every interleaving. |
| Keyboard.RunKeepsHistory | keyboard.c:44-80 | Neither what was accepted nor what became of it is ever rewritten. |
| Keyboard.NothingDiscarded | keyboard.c:153-156 | Only clearing the buffer discards a character. |
| Keyboard.DeliveredInOrder | keyboard.c:44-80 | In every interleaving the accepted characters meet their fate in order and the others are all still waiting; as long as the buffer is not cleared, those delivered are the first of those accepted. |
| Terminal.PutKeepsOk | terminal.c:44-66 | A character adds at most one row to the page and touches no row but the cursor's. |
| Terminal.ScrolledShows | terminal.c:32-42 | Scrolling moves the window one row down the page. |
| Terminal.WrittenShows | terminal.c:27-30 | Writing a cell of the screen writes that cell of the page. |
| Terminal.PlainTextWraps | terminal.c:60-65 | Character `k` of a text without control characters stands at row `k / 80`, column `k % 80` of the page. |
| TerminalText.TextIsTypeset | terminal.c:44-66 | Any lines joined by newlines, in any colour on a fresh page: line `i` starts on the row after the lines before it, each of which takes a row for every 80 characters and one more; its character `j` stands `j / 80` rows below that, in column `j % 80`; the cursor stands after the last; every other cell is blank. |
| TerminalText.ColoredText | terminal.c:23-25 | A text after a colour change is the text in that colour. |
| TerminalText.PlainMeaning | terminal.c:60-65 | On any page a plain character fills the cell at the cursor, which moves on, to the next row after column 79; every other cell stays. |
| TerminalText.NewlineMeaning | terminal.c:45-50 | On any page a newline goes to the first column of the next row and changes nothing shown. |
| TerminalText.BackspaceMeaning | terminal.c:52-58 | On any page a backspace blanks the cell before the cursor and returns to it; in column 0 it does nothing. |
| TerminalText.BackspaceAfter | terminal.c:52-65 | A backspace takes away a plain character that did not end its row; after one that did it does nothing. |
| Terminal.Screen.constructor | terminal.c:10-21 | The screen shows a fresh page. |
| Terminal.Screen.SetColor | terminal.c:23-25 | A colour change leaves what is shown as it is. |
| Terminal.Screen.PutChar | terminal.c:44-66 | The screen shows the last 25 rows of the page after the character. |
| Terminal.Screen.Write | terminal.c:85-88 | The same for a string. |
| Terminal.Screen.Show | terminal.c:23-66 | For every stream of characters and colour changes the screen shows the last 25 rows of the page after them all. |
| Terminal.Screen.PrintDec | terminal.c:109-127 | The decimal digits are printed, and the 21-byte buffer suffices for every 64-bit number. |
| Terminal.DecimalDenotes | terminal.c:109-127 | The digits denote the number, without a leading zero. |
| CString.StrLen | string.c:5-10 | The number of characters before the first NUL. |
| CString.StrCmp | string.c:13-19 | Zero exactly for equal strings, and otherwise the sign of their dictionary order. |
| CString.MemMove | string.c:99-111 | The bytes arrive intact even when the ranges overlap, and no other byte changes. |
| Shell.Tokens | shell.c:155-199 | At most `n` arguments, none of them empty. |
| Shell.TokensOfLine | shell.c:162-198 | Tokenising inverts typing: of arguments set off by blanks, each quoted or bare, the first `n` come back exactly. |
| Shell.Console.ParseCommand | shell.c:155-199 | The strings left in the parse buffer are the tokens of the original text: no NUL that is written damages one. |
| Shell.Remember | shell.c:43-60 | The history never exceeds ten commands. |
| Shell.HistoryIsLastTen | shell.c:43-60 | The history is always the last ten of all commands without empty lines and immediate repeats. |
| Shell.Console.AddToHistory | shell.c:43-60 | The array and its count after one more command. |
| Shell.EditAll | shell.c:116-151 | The edited line stays within the buffer, and holds no NUL. |
| Shell.TypedComesBack | shell.c:143-148 | Up to 255 printable keys come back as typed. |
| Shell.BackspaceTakesLast | shell.c:132-141 | A backspace takes away exactly the last character, if there is one. |
| Shell.KeyAdds | shell.c:143-150 | A printable key is added at the end of a line shorter than 255; every other key does nothing. |
| Shell.Console.ReadLine | shell.c:110-152 | The line is what the keys before Enter edit, it is terminated in the buffer, and it is remembered. |

## Left out

- Heap.KernelHeap.Krealloc: a copy that does not fit, of which only the overwritten header is described (`OverrunHeader`). For a pointer to a listed block that is free the result is stated but not the copied bytes. That no magic number is forged is stated when more bytes are asked of the list than the old block has; with fewer, a wrapped request may leave old bytes after the copy.
- Heap.KernelHeap.Krealloc: like `Kfree`, it takes a pointer at whose header address no payload bytes pose as a header; `MagicMarksBlocks` shows that this is every pointer as long as no payload spells the magic number.
- Heap.KernelHeap.Memcpy: a destination that starts inside the source, which krealloc never meets when the copy fits; `CString.MemMove` has it.
- Heap.KernelHeap.SplitBlock: a size larger than the block and within 45 of 2^64, for which the sum wraps; kmalloc never passes one.
- Heap.KernelHeap.Kfree: the source reads the magic number before it checks the address, and an address below 29 wraps, so a pointer to unmapped memory faults; the model answers that it is not valid. The same holds of krealloc.
- HeapScript.Play: for a script performed to its end, a payload byte that occurs in the magic number counts as one that may forge it, whatever stands around it; `Act` has the exact condition, and where such bytes do pose as a header the script stops.
- Pmm.FrameAllocator.Init: frame numbers and the counter are unbounded integers, and the bitmap's words are an array of their own rather than bytes of the memory they describe.
- PmmSpec.FreeFramesIsFreeEach: the addresses of the single calls are integers; one past 2^64, which has no frame, does not wrap.
- PmmTheorems.RunFromInit: a reserved entry that starts below the region, or at an unaligned address, reserves only what the code marks of it.
- Multiboot.MemoryDetect: boot information that is not well formed, where the walk may leave the structure or not end.
- Keyboard.Driver.GetcharNonblock: stands for `keyboard_getchar` too once a character is waiting; `hlt`, wake-ups and the liveness of blocking reads depend on hardware. The port that the handler reads is a parameter.
- Shell.Console.ReadLine: the keys are a parameter that holds an Enter; echoing is left to the terminal. History slots are strings rather than rows of characters.
- Alignment of the pointers that `kmalloc_aligned` returns: the code aligns the size only, since a 29-byte header comes before every payload.
- Disjointness of the heap region and the frames that the frame allocator grants: the code does not reserve the heap's range.
- The total that `memory_detect` stores mixes basic memory information with sums over the map; it is computed as the code does, and not claimed to be the sum of the entries.
- The other string functions (`strncmp`, `strncpy`, `strcat`, `strchr`, `memcmp`) and `print_hex`: short loops on which nothing here rests.
- Messages and colours printed by the heap, the frame allocator and the shell; shell command bodies, help text and suggestions; box drawing.
- Boot code, interrupt tables, timer, panic screen and page tables: port input and output, mode switching and fixed register layouts.
- The kernel's own test programs.
