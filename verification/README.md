# The i386 memory manager, verified

This project models the memory manager of a small i386 kernel in Dafny and proves
what it is for. Three allocators sit on top of each other: the frame bitmap, the
page tables reached through a recursive self-map, and the kernel heap, a doubly
linked list of area headers in virtual memory. Two smaller parts of the system
are here as well: the scrolling text terminal and `printf`.

Each layer comes twice: as a value (a set of free frames, a function on physical
memory, a list of areas, a layout of lines, a rendered text) with its theorems,
and as a class or method that does what the C code does, step by step, proved to
have exactly that effect on the value.

| file | content |
|---|---|
| `Words.dfy` | machine words, wrapping arithmetic, page rounding |
| `Areas.dfy`, `AreaTheorems.dfy` | the heap as a list of areas; best fit, cutting, merging |
| `Grants.dfy` | what `kmalloc` and `kpagealloc` grant, in addresses and numbers |
| `HeapRuns.dfy`, `HeapTheorems.dfy` | the five heap operations and all their legal runs |
| `AsWritten.dfy` | exactly which single heap operations go wrong, and a run that ends badly |
| `AsWrittenSafety.dfy` | exactly which whole runs of the heap code as written serve every owner |
| `AsWrittenRuns.dfy` | exactly which of them keep the prev links right as well |
| `StrayWitness.dfy` | two runs as written that meet a stray prev: one does no harm, one overwrites a live block |
| `HeapMemory.dfy` | header words and bytes, the list laid out in memory, the heap's view through the page tables |
| `Merging.dfy` | what `merge_free_areas` reads and stores, stray prev links included |
| `KernelHeap.dfy` | the heap allocator itself, on header words in mapped pages |
| `Frames.dfy` | the frame bitmap and its runs |
| `PageTables.dfy`, `AddressSpace.dfy` | the two-level walk, the self-map, `map_page`, and the role of every frame |
| `PageEntries.dfy` | the words that `map_page` stores, bit by bit, and which pages may be written to |
| `FrameBudgets.dfy` | how many frames it takes to map a range of pages |
| `EarlyInit.dfy` | cleaning the memory map and building the bitmap |
| `Terminal.dfy`, `Printf.dfy` | the screen and the format interpreter |

## The heap, as written and repaired

The heap code departs from its own intent in three places. The class `Heap` and
the functions on lists take a flag `repaired`: `false` is the code as it stands,
`true` has the three repairs.

- R1: splitting off a tail does not let the old successor's `prev` follow
  (`kernel/arch/i386/mem.c:403-407`, `kernel/arch/i386/mem.c:515-519`).
- R2: merging towards the tail only sets `prev` on the header that is absorbed
  (`kernel/arch/i386/mem.c:308-311`).
- R3: the sentinel at `heap_end` is never marked used, so freeing the last area
  takes it for a free neighbour (`kernel/arch/i386/mem.c:300-301`).

What needs no repair is proved for both values of the flag: best fit, cutting,
the forward chain, mapping, page alignment, every method of `Heap`. For the code
as written the project proves from which good lists one operation goes wrong (an
if-and-only-if for R1 and one for R2 and R3 together, in terms of the guards of
the branches), exactly when `kfree` loses a live block, and that some legal run
of nine operations ends with two owners of the same bytes.

R2 also leaves stray links: the `prev` behind an absorbed header goes on naming
it, though it names free space now, and after the next allocation the inside of a
live block. A later `kfree` that follows such a link reads the used bit there, and
if it is clear, stores an address there. The operations on lists therefore take
that bit as a parameter, and the theorems hold for both of its values; the class
reads it from memory. `KFree` states when a live block is overwritten this way: if
and only if the stray `prev` names a word inside it whose used bit is clear (and
which does not hold the address already). `StrayFreeOverwrites` is such a run.

For whole runs of the code as written there are two exact conditions. Every
owner keeps a live area of its own, and the chain of headers reaches the
sentinel, all the way, if and only if each call is harmless (`HarmlessOp`).
Allocations always are. A `kfree`, or the one at the end of a `krealloc`, is
harmless if its area is not the last one, and its stored `prev` does not name a
free header with a live area in between; stray links do no harm to this. The links
are right all the way if and only if each call passes a stricter test (`BenignOp`:
no tail is split off, and no freed area is the last one or merges with its
successor alone); then the run is that of the repaired heap. The other theorems
about whole runs are about the repaired heap.

Other disagreements between the code and its comments:

- Requests above 2^32 - 16 wrap in the rounding (`kernel/arch/i386/mem.c:355`);
  `RoundedExactly` says that these, and no others, get too small a block.
- The comment at `kernel/arch/i386/mem.c:384-388` allows an exception at the end
  of the heap, and there it matters: a block that reaches the sentinel without a
  split gets no pages. `KMalloc` states exactly when a new block is mapped as a
  whole, `MappedAwayFromEnd` proves the comment for every other block, and
  `FreshEndBlockUnmapped` is a request right after `init_heap` that gets unmapped
  memory. `KCalloc` and `KRealloc`, which write to the block, need it mapped.
- The comment at `kernel/arch/i386/mem.c:380-382` speaks of 16-byte alignment;
  headers and payloads are 8-byte aligned.
- The length adjustment of `sanitize_available` for entries that do not start on
  a page boundary (`kernel/arch/i386/early_pmm_init.c:42-45`) is no correct
  rounding; `PageAlignedFitsExactly` says for which entries it stays inside.
- If no frame is free after initialisation, the next frame is named as number 0,
  which is in use (`kernel/arch/i386/early_pmm_init.c:111-112`);
  `InitFrameAllocator` says so.
- The entry of the kernel is chosen without looking at the entry's end or kind
  (`kernel/arch/i386/early_pmm_init.c:79-81`). `KernelEntryExactly` says when the
  available entry around the kernel is the one found, and `WrongEntryFound` is a
  valid map in which a reserved one is.
- The test for room behind the kernel (`kernel/arch/i386/early_pmm_init.c:100`)
  leaves out the part of the entry in front of the kernel. `BitmapFitsExactly` says
  when kernel and bitmap lie in the entry, `BitmapBehindEntry` is a valid map that
  passes the test although they do not.

## Conventions and preconditions

Masks and shifts by powers of two are written as division and remainder; the
bytes of the bitmap are bit-vectors. `uint32_t` arithmetic wraps explicitly where
a comparison or a rounding depends on it. Physical memory is a sequence of 1024-word
frames, and every access of the heap goes through the two-level walk. `memset` and
`memcpy` are loops of single stores. The inlined stretches of the C functions that
carry an invariant of their own are methods here (`CutTail`, `CutFront`,
`CutPages`, `CutBehind`, `MapRange`, `ProvideTable`, `FullBitmap`).

Callers must respect what the code does not check: `kmalloc` gets at most
2^32 - 16 bytes and `kpagealloc` a page count whose size does not wrap; pointers
given to `kfree` and `krealloc` are null or live; there are as many free frames as
the operation takes (`Affordable`, `Virgin`; exactly one for each page and page
table that is missing); `get_page` is called only if a frame is left; the memory
map has sorted, disjoint available entries below 4 GiB that start on page
boundaries (`ValidMap`). Booting leaves a directory that maps itself, distinct
tables, no frame in two roles, and directory entries that allow writing
(`Ownership`, `WellFormed`, `WritableTables`).

## Model

| member | source | states |
|---|---|---|
| HeapTheorems.HeapSafe | kernel/arch/i386/mem.c:296-536 | no legal run of the five operations fails; after it headers tile the heap in ascending 8-aligned order, prev inverts next, no two neighbours are free, live payloads are disjoint, inside the heap, and as large as their owners asked (repaired) |
| HeapTheorems.RunFromSafe | kernel/arch/i386/mem.c:296-536 | the same from any safe state, by induction over the run; blocks that no operation names stay where and as large as they are |
| HeapTheorems.ExtentsStable | kernel/arch/i386/mem.c:349-536 | a live extent does not change until it is freed or reallocated, in every run (repaired) |
| HeapTheorems.AllGivenBack | kernel/arch/i386/mem.c:296-316 | whatever the run and the order of frees, once nothing is owed the heap is the single initial free area, prev links included (repaired) |
| HeapTheorems.AllocateThenFree | kernel/arch/i386/mem.c:389-536 | a successful kmalloc or kpagealloc followed by kfree of its result restores the list (repaired), over all combinations of splits |
| HeapRuns.StepSafe | kernel/arch/i386/mem.c:349-536 | each legal operation keeps tiling, links, coalescing and ownership, and moves no block but the one it names |
| HeapRuns.AllocateCuts | kernel/arch/i386/mem.c:349-525 | as written or repaired, with any prev links: allocation fails exactly if no free area is large enough, else it cuts one block from the best fit, keeps all other live extents and the forward chain; kpagealloc's result is page aligned |
| Grants.MallocExactly | kernel/arch/i386/mem.c:349-413 | as written or repaired, in addresses: kmalloc(size) returns null exactly if size is 0 or no free area has more than size + 8, rounded up to 8, behind its header; else it returns header + 8 of the narrowest such area, lowest address on ties, and the block ends right behind the rounded request if that leaves more than 16 bytes behind the new header's place, and at the next header otherwise |
| Grants.PageMallocExactly | kernel/arch/i386/mem.c:452-525 | the same for kpagealloc(n): with np the first page boundary above the header, an area has room exactly if np + 4096 * n + 16, and 8 more unless the header is right in front of np, lies below the next header; the result is np |
| HeapRuns.RoundedExactly | kernel/arch/i386/mem.c:353-355 | the rounded size is a multiple of 8 that holds header and request, with less than 8 bytes to spare, exactly up to 2^32 - 16 |
| HeapRuns.CallocRejectsExactly | kernel/arch/i386/mem.c:415-420 | the division test rejects exactly empty requests and products of at least 2^32 |
| HeapRuns.MallocGood | kernel/arch/i386/mem.c:349-413 | kmalloc grants a new block of at least the requested size or changes nothing (repaired) |
| HeapRuns.PageMallocGood | kernel/arch/i386/mem.c:452-525 | kpagealloc grants a new page-aligned block of n whole pages or changes nothing (repaired) |
| HeapRuns.ReleaseGood | kernel/arch/i386/mem.c:527-536 | kfree of a live block gives up exactly its extent and keeps the heap good (repaired) |
| HeapRuns.ReallocOfLive | kernel/arch/i386/mem.c:431-450 | krealloc of a live block: null for size 0, the same block if it is large enough, else a kmalloc whose failure leaves the heap alone and whose success is followed by a kfree |
| HeapRuns.ReallocGood | kernel/arch/i386/mem.c:431-450 | krealloc fails and changes nothing, keeps a large enough block, or replaces it by a new one (repaired) |
| HeapRuns.LiveDisjoint | kernel/arch/i386/mem.c:206-209 | two live payloads of a tiled heap have a header's room between them |
| AreaTheorems.BestFitExact | kernel/arch/i386/mem.c:364-378 | the search finds the smallest fitting free area, lowest address on ties, and none exactly if none fits |
| AreaTheorems.PlaceKeepsTiling | kernel/arch/i386/mem.c:389-413 | cutting an area keeps the tiling and all live extents and adds one inside the old free area (as written too) |
| AreaTheorems.PlaceIgnoresPrev | kernel/arch/i386/mem.c:484-522 | where headers and used flags end up depends on no prev link and not on the repairs |
| AreaTheorems.PlaceLinkedExactly | kernel/arch/i386/mem.c:403-407 | a cut keeps prev the inverse of next exactly if it is repaired or splits no tail (R1) |
| AreaTheorems.PlaceThenFree | kernel/arch/i386/mem.c:484-536 | merging after a cut restores the list, for kpagealloc's two splits too |
| AreaTheorems.FreeTiled | kernel/arch/i386/mem.c:296-316 | kfree keeps the forward chain a tiling whatever header the stored prev names |
| AreaTheorems.FreeLinkedExactly | kernel/arch/i386/mem.c:303-315 | kfree keeps prev the inverse of next exactly if it is repaired or does not merge towards the tail alone (R2) |
| AreaTheorems.FreeCoalesced | kernel/arch/i386/mem.c:303-315 | after merging no two neighbours are free |
| AreaTheorems.NothingLive | kernel/arch/i386/mem.c:321-347 | a good heap without live areas is the initial one |
| AsWritten.AllocateAsWrittenExactly | kernel/arch/i386/mem.c:403-407 | from a good heap, allocation as written leaves prev right exactly if there is no tail split, and then equals the repaired one |
| AsWritten.FreeAsWrittenExactly | kernel/arch/i386/mem.c:296-316 | from a good heap, kfree as written leaves prev right exactly for areas that are not last and do not merge towards the tail alone, and then equals the repaired one (R2, R3) |
| AsWritten.AsWrittenOverlaps | kernel/arch/i386/mem.c:349-536 | a legal run of the code as written hands the same bytes to two owners |
| AsWrittenSafety.RunHarmlessExactly | kernel/arch/i386/mem.c:296-536 | a legal run as written gives every owner a live area of its own and the requested size, in every state, if and only if every call is harmless; the headers still tile the heap then, and untouched blocks stay |
| AsWrittenSafety.HarmlessRunsAreSafe | kernel/arch/i386/mem.c:296-536 | the same from the initial heap; harmless runs end without two owners of one byte |
| AsWrittenSafety.StepHarmlessExactly | kernel/arch/i386/mem.c:349-536 | the same for one call of any of the five operations on a tiled heap with any prev links; a harmless call moves no block but the one it names |
| AsWrittenSafety.FreeAtExactly | kernel/arch/i386/mem.c:296-316 | from any tiled list, stray prev or not and whatever it names, kfree as written keeps the tiling and gives up the freed extent alone if and only if the stored prev does not name a free header with a live area in between |
| AsWrittenSafety.ReleaseExactly | kernel/arch/i386/mem.c:296-316 | kfree as written keeps ownership exactly if it is harmless, whatever it reads through a stray prev |
| AsWrittenSafety.ReallocExactly | kernel/arch/i386/mem.c:431-450 | krealloc as written keeps ownership exactly if the kfree behind its kmalloc is harmless in the new list |
| AsWrittenSafety.OwnersApart | kernel/arch/i386/mem.c:206-209 | owners of a tiled heap do not overlap |
| AreaTheorems.StrayLive | kernel/arch/i386/mem.c:296-316 | merging with a stray prev costs no live area, whatever the word it names holds |
| StrayWitness.StrayFreeIsHarmless | kernel/arch/i386/mem.c:296-316 | a legal run as written that frees a block with a stray prev and is harmless for both values of the bit read |
| StrayWitness.StrayFreeOverwrites | kernel/arch/i386/mem.c:296-316 | a legal run as written behind which freeing a block stores an address into the cleared bytes of another owner |
| AsWrittenRuns.RunAsWrittenExactly | kernel/arch/i386/mem.c:296-536 | a legal run as written keeps prev the inverse of next throughout if and only if every call passes the test BenignOp, and then equals the repaired run |
| AsWrittenRuns.StepAsWrittenExactly | kernel/arch/i386/mem.c:349-536 | the same for one call of any of the five operations on a safe heap |
| AsWrittenRuns.ReallocAsWrittenExactly | kernel/arch/i386/mem.c:431-450 | krealloc as written leaves prev right exactly if its kmalloc and the kfree after it both pass |
| AsWrittenRuns.WrongPrevSurvives | kernel/arch/i386/mem.c:296-316 | the wrong prev behind a tail split as written is not mended by freeing another block |
| HeaderWords.SettersAreIndependent | kernel/arch/i386/mem.c:246-286 | each packed setter sets its own field and keeps the address and the other flags |
| HeaderWords.HeaderBits | kernel/arch/i386/mem.c:246-286 | used is bit 0 of the word, epsilon is bit 1, the address is all but the low three bits; the setters in numbers |
| HeapLayout.InsertHolds | kernel/arch/i386/mem.c:403-407 | the words that a split stores encode the list with the new header |
| HeapLayout.SpliceHolds | kernel/arch/i386/mem.c:303-315 | the words that a merge stores encode the list without the absorbed headers |
| HeapLayout.BlocksKept | kernel/arch/i386/mem.c:389-410 | stores to headers and free space leave the contents of every live block alone |
| HeapView.StoreChangesOneWord | kernel/arch/i386/mem.c:26-44 | a store to a heap word changes that word and no other heap word, no page table and no frame's role |
| HeapView.StoreKeepsRange | kernel/arch/i386/mem.c:250-286 | every mapped heap page may be written to, and a store keeps it so |
| HeapView.GrowAddsPage | kernel/arch/i386/mem.c:397-401 | map_page(get_page(), p, flags) on an unmapped heap page succeeds, adds the words of that page and keeps all others |
| HeapView.GrowKeepsRange | kernel/arch/i386/mem.c:397-401 | mapping with a writable flag keeps all heap pages and page tables writable and changes the flags of no other page |
| KernelHeap.ComparesSizes | kernel/arch/i386/mem.c:372 | the comparison of wrapping differences compares the area sizes |
| KernelHeap.NeedAboveSize | kernel/arch/i386/mem.c:462-475 | none of kpagealloc's comparisons wraps although full_size varies: together they say that the area fits and is smaller than the best so far |
| KernelHeap.FullSizeWithoutWrap | kernel/arch/i386/mem.c:467-469 | full_size does not wrap and exceeds size |
| KernelHeap.BlockMappedExactly | kernel/arch/i386/mem.c:384-408 | a new block is mapped as a whole exactly if its tail was split off or its area was mapped before |
| KernelHeap.FreshEndBlockUnmapped | kernel/arch/i386/mem.c:384-389 | in the heap that init_heap leaves, with the code's bounds, one request takes the last area without a split although its pages are not mapped |
| KernelHeap.Heap.MappedAwayFromEnd | kernel/arch/i386/mem.c:384-388 | a block that does not reach the sentinel is mapped as a whole without any check |
| KernelHeap.Heap.SearchBytes | kernel/arch/i386/mem.c:364-378 | the loop of kmalloc ends at the sentinel with the best fit |
| KernelHeap.Heap.SearchPages | kernel/arch/i386/mem.c:456-480 | the loop of kpagealloc ends at the sentinel with the smallest area above its own full_size |
| KernelHeap.Heap.AreaFacts | kernel/arch/i386/mem.c:246-294 | the header accessors read the list back from memory; sizes do not wrap |
| FrameBudgets.MissingAfter | kernel/arch/i386/mem.c:61-82 | every frame that mapping a page takes makes one page or page table of a range less missing |
| FrameBudgets.BothPages | kernel/arch/i386/mem.c:325-326 | the two pages that init_heap maps take exactly the frames that both lacked before, even if they share a table |
| KernelHeap.Heap.MapNew | kernel/arch/i386/mem.c:397-401 | mapping a missing page never fails, keeps one role per frame and all mapped heap words, gives the new page the flags, and takes one frame, or two if the table is missing |
| KernelHeap.Heap.MapRange | kernel/arch/i386/mem.c:397-401 | the mapping loop leaves all pages of its range mapped and takes exactly one frame for each page and page table that was missing |
| KernelHeap.Heap.InsertHeader | kernel/arch/i386/mem.c:403-407 | the stores of a split turn the memory of a list into that of the split list |
| Merging.OverwritesExactly | kernel/arch/i386/mem.c:303-315 | the store through a stray prev changes a block exactly if that prev names a word inside it whose used bit is clear and whose address part differs |
| Merging.StrayLaid | kernel/arch/i386/mem.c:303-315 | with a stray prev the stores of a merge towards the root change the prev of one header of the list, and else one word outside all headers |
| KernelHeap.Heap.MergeFreeAreas | kernel/arch/i386/mem.c:296-316 | all branches do to memory what Merge or, for a stray prev, MergeStray does to the list; no area changes but for the store through the stray prev |
| KernelHeap.Heap.KMalloc | kernel/arch/i386/mem.c:349-413 | the heap in memory becomes that of Malloc, same result, which is the block that Grants.MallocExactly describes; live blocks keep their contents; pages mapped in addition carry the flags 0x103; the new block is mapped exactly if RoomMapped; as many frames are spent as pages and tables were missing |
| KernelHeap.Heap.BytesGrowth | kernel/arch/i386/mem.c:393-401 | an allocation that leaves a tail takes the frames that the pages from the header's to that of the end of the block lack, and none otherwise |
| KernelHeap.Heap.KPageAlloc | kernel/arch/i386/mem.c:452-525 | the same for kpagealloc, PageMalloc, Grants.PageMallocExactly, and the flags 0x3 |
| KernelHeap.Heap.PagesGrowthExactly | kernel/arch/i386/mem.c:504-514 | the same for kpagealloc, from the page of the block on |
| KernelHeap.Heap.KCalloc | kernel/arch/i386/mem.c:415-427 | the same for kcalloc, and every byte of the result is zero; calls whose product does not fit in 32 bits return null and change nothing |
| KernelHeap.Heap.KRealloc | kernel/arch/i386/mem.c:431-450 | the same for krealloc; a moved block starts with the old block's contents and no live block changes, up to its final kfree, which changes what KFree says, and nothing if repaired; failure changes no live block; null for size 0, and a large enough block stays |
| KernelHeap.Heap.KFree | kernel/arch/i386/mem.c:527-536 | the heap in memory becomes that of Release for the bit that is read there; a live block changes if and only if it is overwritten through a stray prev, and never if repaired |
| KernelHeap.Heap.InitHeap | kernel/arch/i386/mem.c:321-347 | runs once and lays down the initial list; exactly the first and the last page of the heap are mapped in addition, and exactly the frames they lacked are taken |
| PageTables.RecursiveMap | kernel/arch/i386/mem.c:33-38 | under the hardware's walk the window addresses are exactly directory entry pd and table entry pt of it |
| PageTables.MapPageAddsOne | kernel/arch/i386/mem.c:46-85 | map_page fails exactly on unaligned addresses and mapped pages and then changes nothing; else the page translates to pa, every other page below the window as before, and the self-map and distinct tables survive |
| PageEntries.MapPageStores | kernel/arch/i386/mem.c:46-85 | for an address outside the window: the error code in numbers, and every word of memory behind map_page: the entry, a new directory entry that is present and writable, a zeroed new table, and no other change |
| PageEntries.EntryBits | kernel/arch/i386/mem.c:80 | bit 0 of the stored entry is set, bits 1 to 11 are those of the flags, and the rest is the physical address |
| PageEntries.MapPageWritable | kernel/arch/i386/mem.c:61-80 | the mapped page may be written to exactly if the flags allow it; that of all other pages below the window, and their entries, do not change |
| PageTables.WithTableKeeps | kernel/arch/i386/mem.c:61-72 | a new zeroed table changes no translation below the window |
| PageTables.TableWriteKeeps | kernel/arch/i386/mem.c:74-78 | writing a table entry changes that one translation |
| FrameRoles.MapPageRoles | kernel/arch/i386/mem.c:61-82 | map_page gives the page its backing and a missing table the spare frame; all other roles stay |
| FrameRoles.GrowKeepsOwnership | kernel/arch/i386/mem.c:61-82 | growth keeps one role per frame and every frame with a role in use |
| AddressSpaces.AddressSpace.GetPhysaddr | kernel/arch/i386/mem.c:26-44 | the result is the two-level translation, null for unmapped addresses |
| AddressSpaces.AddressSpace.ProvideTable | kernel/arch/i386/mem.c:59-72 | a missing table is allocated, entered and zeroed through the window |
| AddressSpaces.AddressSpace.MapPage | kernel/arch/i386/mem.c:46-85 | error code, memory and frame allocator end as the function MapPage and at most one get_page say, and word by word as PageEntries.MapPageStores says; no store meets a page that does not allow it |
| FrameRuns.RunConserves | kernel/arch/i386/mem.c:142-170 | over every run frames are neither lost nor duplicated, and the next frame is never one still handed out |
| FrameRuns.ExactlyAllFrames | kernel/arch/i386/mem.c:142-160 | without frees exactly as many get_page calls succeed as frames are free |
| Frames.FrameAllocator.GetPage | kernel/arch/i386/mem.c:142-160 | returns the address of the next frame, sets its bit and no other, and then names the first frame whose bit is clear, or the end if there is none |
| Frames.FrameAllocator.FreePage | kernel/arch/i386/mem.c:162-170 | clears the frame's bit and no other, and names this frame next |
| Frames.FrameAllocator.GetPageState | kernel/arch/i386/mem.c:134-140 | true exactly for frames in use |
| Frames.FirstZeroInByte | kernel/arch/i386/mem.c:111-121 | the lowest clear bit, 8 exactly for a full byte |
| Bits.MaskValues | kernel/arch/i386/mem.c:142-144 | bit k of a bitmap byte has the value of the k-th power of 2 |
| Frames.OffsetsRoundTrip | kernel/arch/i386/mem.c:123-132 | the conversions between addresses and bitmap offsets are inverse |
| Frames.LowestIsNext | kernel/arch/i386/mem.c:149-157 | the first clear bit of the first byte that is not full is the lowest free frame |
| MemoryMap.ClippedIsMinimum | kernel/arch/i386/early_pmm_init.c:30-41 | the clipped length is the minimum of the length and the distance to the lowest reserved start inside, whatever the order of the list |
| MemoryMap.ClippingExcludesExactly | kernel/arch/i386/early_pmm_init.c:30-41 | after clipping a reserved range still overlaps exactly if it starts at or before the entry and reaches into it |
| MemoryMap.AdjustedLength | kernel/arch/i386/early_pmm_init.c:42-45 | what the adjustment makes of q pages and r bytes that start off a page boundary: q - 1 pages and twice r bytes, modulo 2^64 |
| MemoryMap.PageAlignedFitsExactly | kernel/arch/i386/early_pmm_init.c:42-45 | for which unaligned entries the adjusted pages stay inside the entry |
| EarlyFrames.SanitizeAvailable | kernel/arch/i386/early_pmm_init.c:26-46 | the loop replaces one entry of the map by its clipped and aligned form |
| EarlyFrames.ScanMap | kernel/arch/i386/early_pmm_init.c:75-91 | the first pass cleans every entry and finds the kernel's entry and the end of memory |
| EarlyFrames.KernelEntryExactly | kernel/arch/i386/early_pmm_init.c:79-81 | in a valid map the available entry around the kernel is the one found exactly if no later reserved entry passes the same test |
| EarlyFrames.FoundContainsExactly | kernel/arch/i386/early_pmm_init.c:79-81 | the entry found is an available one around the kernel exactly if there is one without such a reserved entry behind it |
| EarlyFrames.WrongEntryFound | kernel/arch/i386/early_pmm_init.c:79-81 | a valid map in which a reserved entry is taken for the kernel's |
| EarlyFrames.BitmapFitsExactly | kernel/arch/i386/early_pmm_init.c:93-105 | kernel and bitmap lie in the entry exactly if there is room behind the part in front of the kernel; the test made is necessary, and sufficient for a kernel at the start of its entry |
| EarlyFrames.BitmapBehindEntry | kernel/arch/i386/early_pmm_init.c:93-105 | a valid map that passes the test although the bitmap lies behind the entry |
| EarlyFrames.ClearEntry | kernel/arch/i386/early_pmm_init.c:124-146 | the inner loop frees exactly the allowed pages of one entry and counts them |
| EarlyFrames.InitFrameAllocator | kernel/arch/i386/early_pmm_init.c:49-149 | a frame's bit is clear exactly if it lies wholly in an available entry of the cleaned map, not below 0x100000, and not in the pages of the kernel and the bitmap, whose numbers are given; free_pages counts them, next is the lowest; it gives up exactly if no entry passes for the kernel's or that entry has fewer pages |
| EarlyFrames.WantedIsCleared | kernel/arch/i386/early_pmm_init.c:122-148 | the frames that the loops free, in numbers |
| EarlyFrames.ClearedInBytes | kernel/arch/i386/early_pmm_init.c:128-132 | no byte of such a frame lies below 0x100000, in the kernel, or in the bitmap on the pages behind it, and each lies in an available entry |
| EarlyFrames.WantedIsHarmless | kernel/arch/i386/early_pmm_init.c:122-148 | unless a reserved range overhangs an available one from below, every byte of such a frame is available, and none is reserved, low, the kernel's or the bitmap's |
| EarlyFrames.ReservedNeverHandedOut | kernel/arch/i386/early_pmm_init.c:122-148 | then no run of get_page and free_page on handed-out frames hands out a byte that is reserved, low, the kernel's or the bitmap's |
| Layout.PutAllIsLines | kernel/arch/i386/tty.c:61-84 | putting characters one by one builds the layout that breaks the text at newlines and after every 80th character |
| Layout.LinesShowText | kernel/arch/i386/tty.c:61-78 | every line of the layout of a text has at most 80 characters and no newline, the last one fewer; and the text can be read off it, a newline behind each line that is neither last nor full |
| Layout.LinesOfText | kernel/arch/i386/tty.c:61-78 | there is no other such layout of the text |
| Layout.AnyWritesAreLaidOut | kernel/arch/i386/tty.c:80-86 | any sequence of writes leaves the layout of the joined text |
| Terminals.Terminal.Screen | kernel/arch/i386/tty.c:40-78 | the low byte of each of the 25 by 80 cells is the character of the last 25 lines of the layout, or a space, and the high byte is the colour; row and column are where the layout ends |
| Terminals.Terminal.PutChar | kernel/arch/i386/tty.c:61-78 | the screen shows the last 25 lines of the layout, blank padded, and the cursor its end |
| Terminals.Terminal.Scroll | kernel/arch/i386/tty.c:52-59 | every row moves up by one and the last one is blank |
| Terminals.Terminal.Write | kernel/arch/i386/tty.c:80-82 | the layout grows by the text and the screen still shows its window |
| Terminals.Terminal.constructor | kernel/arch/i386/tty.c:23-34 | the screen starts blank, with an empty layout |
| Rendering.RenderLaws | libc/stdio/printf.c:25-84 | one equation in character codes for each way a format can begin |
| Rendering.ChunkRenders | libc/stdio/printf.c:28-45 | what the first branch consumes renders as what it emits |
| Printf.Console.Printf | libc/stdio/printf.c:19-88 | emits the rendering and returns its length; returns -1 exactly if that exceeds INT_MAX, with a prefix emitted |
| Printf.Console.Print | libc/stdio/printf.c:9-17 | emits all bytes in order |

## Left out

- `unmap_page` (`kernel/arch/i386/mem.c:87-99`): it stores an entry whose present bit is set, so it removes no translation.
- TLB flushes, the user and global bits, accessed and dirty bits, large pages: the walk knows present entries of 4 KiB pages and whether they allow writing; the other flags are stored and kept.
- `late_pmm_init` and `get_early_pmm`: they depend on linker symbols; the bitmap is taken as accessible.
- The Multiboot header, its checks and the stride of packed entries: the map is an array of parsed entries.
- KernelHeap.Heap.KMalloc: running out of frames during growth is not modelled, because the code does not check for it and get_page then writes behind the bitmap; `Affordable` asks for exactly the frames that are taken.
- KernelHeap.Heap.KPageAlloc: like KMalloc it asks for the frames that it takes.
- KernelHeap.Heap.KFree: not for pointers that name no block, and as written not for the last area, where the code follows the sentinel's null next and cuts the chain of headers off.
- KernelHeap.Heap.KCalloc: only for blocks that are mapped as a whole; elsewhere the stores of memset would fault.
- KernelHeap.Heap.KRealloc: only for blocks that are mapped as a whole, like KCalloc; the copy goes word by word, as block sizes are multiples of 8.
- HeapRuns.StepSafe: about the repaired heap; `AsWrittenSafety` and `AsWrittenRuns` say for which calls it holds of the code as written.
- AsWrittenSafety.StepHarmlessExactly: freeing the last area as written counts as a failure, because the chain of headers no longer reaches the sentinel then; what later calls do with the broken chain is not modelled.
- EarlyFrames.InitFrameAllocator: only for maps whose available entries are sorted, disjoint, below 4 GiB and start on page boundaries.
- Printf.Console.Print: output never fails, so the EOF branches are there but never taken.
- The message of `init_heap` and `iprint`: output without effect on the heap.
- `terminal_setcolor` and the mapping of the video memory: the colour is fixed, the buffer is an array.
- The string functions of the C library as results of their own, interrupts, PIC, PCI, port I/O, descriptor tables, `kernel_main`: plumbing that would only add easy members.
