# osdev64: a verified model of the memory management core

This project models the parts of the osdev64 kernel that manage memory, and three smaller
pieces with real loops: the number and string formatter, the scrolling text screen and the
block-wise string length. `dafny verify dfyconfig.toml` checks all of it.

**Page tables** (`Words`, `Paging`, `Tables`, `Mapping`, `MapRuns`, `PageZero`, `PageAddress`,
`Mmu`, `Bootstrap`, `BootWindow`). Physical memory is a function from 64-bit addresses to
64-bit words, and the four-level hardware walk is a function of that memory and CR3. The
kernel reads and writes tables only through virtual addresses that are themselves translated
by the hardware walk.
`Levels` gives every table frame one level; it is the invariant that makes slot 0x180, where
the PML4 is its own child, harmless.

**Page frames** (`Rings`, `Frames`, `FrameRuns`, `Concurrency`, `Contention`, `Sizes`, `Marking`,
`MarkRuns`, `PageRuns`, `Layout`, `MemoryMap`, `Allocator`). List nodes are pointers into a link
memory that `list.h` rewrites field by field. The lists are cycles of that memory, and each operation is proved to refine
an operation on sequences of page numbers. `Concurrency` takes the two allocator functions
apart into single loads and stores and lets any number of processors interleave them.

**Boot** (`Boot`, `FirstMapping`). `pmm_init`, `mmu_bootstrap` and `mmu_init` put together: from a
memory map to a memory manager whose invariants hold and whose page array can be reached, and
from there to the first mapping.

**Text** (`Screen`, `Strings`, `Digits`, `Format`, `Directives`). Video memory, the digit buffer and
the output buffer are arrays that loops rewrite in place, each specified by a function on
sequences. What these functions give is stated once more without them: where lines break,
which bytes of video memory hold which character, and what each directive prints.

## What holds only under a condition

Some properties that the code suggests are false as it stands. Each has its exact condition.

- `page_init` computes how much to map before it moves the page array up by three pages, and
  `mmu_bootstrap` has one directory, so part of the array can be left without a translation.
  All of it is translated if and only if the mapping is at most 1 GB and the three pages fit
  below the next 2 MB boundary (`BootWindow.ArrayAtPlaceIff`; machines with 319 MB and 128 GB on
  which it fails: `BootWindow.BootstrapCanMissArrayEnd`, `BootWindow.BootstrapCanWrap`). Room for
  the three pages is therefore among the conditions of the boot, and the machine with 319 MB
  meets all the others (`Boot.BootArrayIff`, `Boot.RoomIsNeeded`).
- Without bootstrap tables the kernel keeps those of the boot loader, and `pmm_init` can put
  them on the free list. Exactly when is read off the memory map and the kernel's end
  (`MemoryMap.BootTablesNotFreeIff`; a machine with 128 MB: `MemoryMap.BootPml4CanBeFree`). Those
  that the page array covers are not free, but `page_init` writes over them: they stay usable
  if and only if the structs also miss them (`MemoryMap.BootTablesIntactIff`; a machine with
  187 MB whose PML4 is overwritten: `MemoryMap.BootPml4CanBeOverwritten`).
- After the boot a mapping works if and only if the free frames that it turns into tables lie
  below the end of the bootstrap mapping (`FirstMapping.MappableAfterBoot`). An address that no
  table covers needs three. There are three only if three pages between the end of the array and
  that of the mapping are free, which is also enough for a map in ascending order
  (`FirstMapping.MappableByMap`, `FirstMapping.RoomAboveArray`; a machine with 315 MB that has
  none: `FirstMapping.FullWindow`).
- A free page need not lie in usable memory, since ranges are rounded outwards. It does if and
  only if the edge pages of the usable regions do (`MemoryMap.FreeInUsableIff`), which fails
  whenever the last region is usable and reaches highest (`MemoryMap.LastPageIsFree`).
- `page_request` returns a struct past the array for addresses in one page
  (`Layout.PageRequestOverruns`).
- `page_alloc` breaks the lru ring if its page is already on it, which happens just if a page
  was marked USED and later FREE (`MarkRuns.AllocNeedsCleanPage`,
  `MarkRuns.ReadyIffNothingStale`; in terms of the memory map, `MemoryMap.CleanIff`; two calls
  that do it, `MarkRuns.UsedThenFreeBreaksLru`).
- `page_alloc` tests for emptiness outside the lock. Every interleaving is safe in which a call
  starts only while no other is under way, or while fewer are under way than pages are free
  (`Concurrency.InterleavingsAreSafe`). With two processors or more, all interleavings of k calls
  are safe if and only if k pages are free (`Contention.CallsAreSafeIff`). Of the processors past
  the test, the first ones get the free pages; the next one takes the list head for a page, and
  with it out of place the one after that gets a page that is in use
  (`Contention.WaitersTakeTheHead`; the shortest run, `Contention.LastPageRace`).
- `list_add_tail` keeps a ring just if the entry is not yet on it
  (`Rings.AddTailNeedsOutside`).
- `mmu_req_page` reports success for page 0 although nothing was mapped if a 2 MB page covers
  it (`MapRuns.ReqPageMaps`; tables for which it does, `PageZero.PageZeroNotMapped`).
- `ulltostr` in base 8 with 16 digits is exact just below 2^48 (`Digits.SixtyFourBits`), so `%o`
  prints larger numbers modulo 2^48 (`Directives.PrintsOctalCut`).
- `%+d` prints a minus sign in front of zero (`Directives.PrintsPlus`). Flags stay in force for
  directives that follow at once (`Directives.FlagsCarryOver`, `Directives.MarksCarryOver`), and the
  width for ever (`Directives.WidthStays`).
- The loops of `vsnprintf` count each character twice against the size, so output is cut at
  half the room that is left (`Format.UncutIffAllFit`, `Format.LoneString`).

Where the code and its comments disagree the model follows the code: the comment on
`mmu_bootstrap` speaks of an identity mapping, but no entry for the low addresses is written;
and `ROUND_UP` goes up by a page even from an aligned value, so `page_mark_range` includes
the page at its end (`MarkRuns.CoverageIsInclusive`).

## Model

| member | source | states |
|---|---|---|
| `Words.RecursiveIndices` | src/mmu.c:37-48 | the four index macros recover all indices from `mmu_recursive`, whose result is canonical and page aligned |
| `Words.RecursiveRebuilds` | include/arch/x86_64/mmu.h:16-22 | every canonical address is rebuilt from its four indices, rounded down to a page |
| `Words.ElementIndices` | src/mmu.c:168-205 | indexing the 512 entries of a page-aligned table changes only the page offset |
| `Paging.ReadPml4` | src/mmu.c:168-205 | with the self slot in place, the hardware walk of the fourfold recursive address reaches each PML4 entry |
| `Paging.ReadPdpt` | src/mmu.c:168-205 | the threefold recursive address reaches each entry of the page directory pointer table |
| `Paging.ReadPd` | src/mmu.c:168-205 | the twofold recursive address reaches each entry of the page directory |
| `Paging.ReadPt` | src/mmu.c:168-205 | the recursive address reaches each entry of the page table |
| `Paging.RecursiveViewIsWalk` | src/mmu.c:168-205 | for every address `mmu_virt_to_phys`, reading only through translated recursive addresses, gives the same leaf entry (4 KB, 2 MB or 1 GB) or the same missing level as a physical walk from CR3 |
| `Tables.StoreKeepsTranslations` | src/mmu.c:106-166 | a store over an entry that is not present loses no translation |
| `Tables.LinkKeepsLevels` | src/mmu.c:119-162 | linking a zeroed frame keeps every table at one level, the new one below its parent |
| `Tables.TableEntryFlags` | src/mmu.c:119-162 | the entry of a new table holds its frame, PRESENT and RW, and no other bit |
| `Tables.LinkKeepsMeaning` | src/mmu.c:119-162 | linking an empty table changes no translation outside slot 0x180 |
| `Tables.LinkParents` | src/mmu.c:119-162 | a link adds exactly one parent slot and takes none away |
| `Tables.NoParent` | src/mmu.c:119-162 | nothing names a frame that is no table |
| `Tables.LeafKeepsWalk` | src/mmu.c:106-166 | a leaf store changes exactly the walks that end in that slot |
| `Mapping.DescendSound` | src/mmu.c:119-162 | one step down keeps the self slot, the levels and the spare frames in order, whether the table was there or is new |
| `Mapping.MapPageEffects` | src/mmu.c:106-166 | the mapping changes only for pages whose walk ends in the one slot written; new tables are the next spare frames, one per missing level, with one parent slot each; nothing changes under a 2 MB page |
| `Mapping.MapPageNeeds` | src/mmu.c:106-166 | the call finds the frames it needs if and only if there is one per missing level |
| `MapRuns.ReqPageMaps` | src/mmu.c:213-221 | `mmu_req_page` uses one frame and one per missing level, at most four; after it `mmu_virt_to_phys` gives the frame with the flags and no error, and the processor translates every byte of the page to its place in the frame if PRESENT is among the flags and to nothing if not; exactly when it returns a page, including the false success for page 0 |
| `MapRuns.MapPageMapsTo` | src/mmu.c:163-165 | the same meaning for the leaf that `mmu_map_page` writes, for any frame and flags |
| `MapRuns.RunKeepsTables` | src/mmu.c:106-221 | every run of the two calls keeps one level per table, one parent slot per new table, the self slot, and hands out distinct frames none of which is a table |
| `PageAddress.AddressesDistinct` | src/frame.c:93-98 | distinct page numbers have distinct frame addresses, all page aligned |
| `Mmu.ElementTranslates` | src/mmu.c:106-166 | if a table is translated, so is each of its entries, to the slot in the frame |
| `PageZero.PageZeroNotMapped` | src/mmu.c:213-221 | sound tables with a 2 MB page over page 0, for which the call returns a page and changes no table entry |
| `Mmu.SelfSlotInstalled` | src/mmu.c:69-71 | the entry that `mmu_init` writes is reached through the window, and afterwards the tables are sound and the window is as before |
| `Mmu.MemoryManager.MmuInit` | src/mmu.c:57-72 | the struct is the one `page_request` finds, its page leaves free, used and lru and gets the flags 0x36000, all other flags stay, the self slot is written through the window, and all invariants hold |
| `Mmu.MemoryManager.NextTable` | src/mmu.c:119-134 | the repeated block follows or links one table as the specification step does, returns its window address and flags the frame it took |
| `Mmu.MemoryManager.MapPage` | src/mmu.c:106-166 | run through translated addresses on the real free list, `mmu_map_page` does what the specification does and keeps all invariants; afterwards the page is translated to the frame with the flags, or a 2 MB page is in the way and nothing changed; only frames it took are flagged |
| `Mmu.MemoryManager.ReqPage` | src/mmu.c:213-221 | the same for `mmu_req_page`: the first free page is returned and mapped at the address with the flags |
| `Bootstrap.MmuBootstrap` | src/mmu.c:87-103 | for every size: both upper tables entry by entry, with the one at `PDPTE(physical)`; the directory, where later pages overwrite earlier ones with the same index; nothing else changes |
| `Bootstrap.LargeEntryFlags` | src/mmu.c:98-100 | a directory entry holds the address, PRESENT, RW and PS, and no other bit |
| `Bootstrap.WindowMaps` | src/mmu.c:87-103 | the first gigabyte of the window: each large page is translated to the last one that the loop put at its index, and a large page whose index the loop does not reach is not translated |
| `Bootstrap.BuiltSelfMapped` | src/mmu.c:95 | the self slot resolves the fourfold recursive address to the new PML4 |
| `BootWindow.HighWindowMaps` | src/mmu.c:87-103 | the second gigabyte is translated only if `PDPTE(physical)` happens to be its index |
| `BootWindow.BootstrapTranslates` | src/mmu.c:87-103 | for every address outside slot 0x180: translated by the directory in the gigabytes of the kernel and of `PDPTE(physical)`, and not at all anywhere else |
| `BootWindow.AtPlaceIff` | src/mmu.c:87-103 | below 2 GB, a byte is translated to itself if and only if it is in the first gigabyte and its large page was mapped and not overwritten |
| `BootWindow.AtPlaceBelow` | src/mmu.c:87-103 | for a mapping of at most 1 GB, any byte of physical memory is translated to itself if and only if its large page starts below `physical` |
| `BootWindow.ArrayAtPlaceIff` | src/frame.c:63-91 | after the call that `page_init` makes, every byte of the page array is translated to itself if and only if the mapping is at most 1 GB and there is room for the three tables |
| `BootWindow.BootstrapCanMissArrayEnd` | src/frame.c:63-91 | a machine with 319 MB on which a byte of the array has no translation |
| `BootWindow.BootstrapCanWrap` | src/frame.c:63-91 | a machine with 128 GB on which one has none because the directory is full |
| `Boot.BuiltLeveled` | src/mmu.c:87-103 | the bootstrap tables are each used at one level |
| `Boot.BootArrayIff` | src/frame.c:63-98 | with the other conditions of the boot met, every byte of the page array is translated to itself, before and after `mmu_init`, if and only if there is room for the tables |
| `Boot.BootMeetsInit` | src/kernel.c:48-83 | what `pmm_init` and `mmu_bootstrap` leave is what `mmu_init` needs, and the page array can be reached |
| `Boot.KernelBoot` | src/kernel.c:48-83 | the boot of a machine with bootstrap tables ends with all invariants of the memory manager, every byte of the page array translated to itself, and the lists and tables that the memory map gives |
| `Boot.HalfGigabyteBoots` | src/kernel.c:48-83 | a machine with 512 MB meets the conditions |
| `Boot.RoomIsNeeded` | src/frame.c:63-91 | the machine with 319 MB meets them all but for the room |
| `FirstMapping.PageInWindowIff` | src/mmu.c:87-103 | after the boot a page is in the window if and only if it is below what was mapped |
| `FirstMapping.MappableAfterBoot` | src/mmu.c:106-166 | after the boot any address outside slot 0x180 can be mapped if and only if the first free frames, one per missing table, exist and are below what was mapped |
| `FirstMapping.FirstThreeIff` | src/kernel.c:67-81 | if the first three free frames are below a bound, three free pages of the memory map are; the converse for maps in ascending order |
| `FirstMapping.FreeAboveArray` | src/frame.c:63-112 | with bootstrap tables no page below the end of the page array is free |
| `FirstMapping.RoomAboveArray` | src/frame.c:63-112 | so three free pages below what was mapped need as much room above the array |
| `FirstMapping.MappableByMap` | src/kernel.c:127-129 | an address that no table covers can be mapped after the boot only if the memory map has three free pages below what was mapped, and if and only if it has for a map in ascending order |
| `FirstMapping.HalfGigabyteMaps` | src/kernel.c:127-129 | the machine with 512 MB has them |
| `FirstMapping.FullWindow` | src/kernel.c:127-129 | a machine with 315 MB has none |
| `FirstMapping.FullWindowBoots` | src/kernel.c:48-83 | although it meets the conditions of the boot |
| `FirstMapping.BootAndMapEntry` | src/kernel.c:127-129 | the boot followed by the mapping for the other processors: it succeeds, keeps all invariants, and every address of that page is translated to itself |
| `Rings.SelfLinkedIsRing` | include/list.h:66-69 | a node linked to itself is exactly an empty ring |
| `Rings.DelRefines` | include/list.h:75-82 | deletion removes one entry, also when both neighbours are the head, and touches no other list |
| `Rings.DelAlone` | include/list.h:75-82 | deleting a node that is alone changes nothing |
| `Rings.ReplaceRefines` | include/list.h:85-90 | replacement puts the new node in the place of the old, also on a one-node ring |
| `Rings.AddRefines` | include/list.h:92-104 | adding puts the entry first |
| `Rings.AddTailRefines` | include/list.h:92-111 | adding at the tail puts it last |
| `Rings.AddTailNeedsOutside` | include/list.h:109-111 | the head still heads a ring if and only if the entry was not on it |
| `Rings.MoveWithin` | include/list.h:116-119 | moving to the front of its own ring, also when first already |
| `Rings.MoveAcross` | include/list.h:116-119 | moving to the front of another ring |
| `Rings.MoveTailWithin` | include/list.h:124-127 | moving to the tail of its own ring, also when last already |
| `Rings.MoveTailAcross` | include/list.h:124-127 | moving to the tail of another ring |
| `Rings.MoveTailAlone` | include/list.h:124-127 | moving a node that was on no ring |
| `Rings.ListMemory.ListInit` | include/list.h:66-69 | the node is self-linked and no other self-linked node stops being so |
| `Rings.ListMemory.ListEmpty` | include/list.h:71-73 | true if and only if the ring has no entries |
| `Rings.ListMemory.ListDel` | include/list.h:75-82 | the two writes give the memory that the refinement lemmas speak of |
| `Rings.ListMemory.ListReplace` | include/list.h:85-90 | the same for the four writes of a replacement |
| `Rings.ListMemory.ListAdd` | include/list.h:92-104 | the same for adding |
| `Rings.ListMemory.ListAddTail` | include/list.h:92-111 | the same for adding at the tail |
| `Rings.ListMemory.ListMove` | include/list.h:116-119 | the same for moving to the front |
| `Rings.ListMemory.ListMoveTail` | include/list.h:124-127 | the same for moving to the tail |
| `Rings.ListMemory.ForEach` | include/list.h:35-36 | the loop ends and visits each entry once, in order |
| `Frames.AllocRefines` | src/frame.c:186-188 | the pointer writes of an allocation move the first free page to the front of used and the tail of lru |
| `Frames.FreeRefines` | src/frame.c:203-204 | the pointer writes of a free move the page to the tail of free and off lru |
| `Frames.RetirePage` | src/mmu.c:67-68 | deleting both nodes of a page, used, free or on no list, takes it off every list and keeps the rings |
| `FrameRuns.RunRefines` | src/frame.c:178-209 | over every alloc/free run the three rings stay well formed, free and used are disjoint, lru holds exactly the used pages, and each counter keeps its distance from its ring's length |
| `FrameRuns.FreeListIsQueue` | src/frame.c:178-209 | pages handed out followed by those still free are the pages once free followed by those freed |
| `FrameRuns.FreedPageWaits` | src/frame.c:203-204 | a freed page comes out only after every page that was free then |
| `FrameRuns.LruIsAllocationOrder` | src/frame.c:186-188 | lru is ordered by last allocation, behind what was there at boot |
| `FrameRuns.UsedIsNewestFirst` | src/frame.c:186-204 | over every run the used list is the pages allocated since boot, newest first, and behind them those of the boot, while lru has them the other way round |
| `PageRuns.PagesRunRefines` | src/frame.c:178-209 | whatever lru looks like, over every alloc/free run the free and used rings stay well formed and disjoint and hand out the same pages as the lists |
| `PageRuns.MarkedPagesOk` | src/frame.c:133-170 | every sequence of marking calls leaves the lists in a state from which that holds, also when a page was marked USED and then FREE |
| `Concurrency.StepKeepsInv` | src/frame.c:178-209 | every load, store or test-and-set of any processor keeps the invariant |
| `Concurrency.InterleavingsAreSafe` | src/frame.c:178-209 | in every interleaving of any number of processors with one allocation under way, or no more than pages are free: mutual exclusion, rings well formed whenever the lock is clear, and an allocation never takes the head, nor a page that somebody owns |
| `Contention.WaitersTakeTheHead` | src/frame.c:181-188 | of the processors past the unlocked test, the first get the free pages in order; none takes the head if and only if there is a page for each; the first too many takes it, and leaves the last page handed out as the next to be taken |
| `Contention.CallsAreSafeIff` | src/frame.c:178-194 | with two processors or more and something free, every interleaving of k calls is safe if and only if k pages are free |
| `Contention.LastPageRace` | src/frame.c:178-194 | the run of two processors and one free page in which the second takes the head |
| `Marking.MarkUsedRefines` | src/frame.c:152-161 | a USED mark moves the page to the tails of used and lru, wherever it was |
| `Marking.MarkFreeRefines` | src/frame.c:162-165 | a FREE mark moves the page to the tail of free and leaves lru alone |
| `Marking.MarkAllRefines` | src/frame.c:133-170 | every sequence of marking calls keeps the rings and leaves unmarked pages alone |
| `Marking.RangeCounts` | src/frame.c:148-166 | a range adds its unprotected pages to the one counter, and takes none from the other |
| `Marking.AcceptedWhen` | src/frame.c:135-141 | which calls are rejected: backwards ranges, and all but exactly one of USED and FREE |
| `MarkRuns.MarkAllFate` | src/frame.c:133-170 | the flags, list and lru membership of each page after any calls depend only on the calls that cover it |
| `MarkRuns.LastCallDecides` | src/frame.c:133-170 | an unprotected page is where the last call covering it said, or nowhere |
| `MarkRuns.CoverageIsInclusive` | src/frame.c:144-146 | a range covers the pages from its first to the one that holds its end, inclusive |
| `MarkRuns.ListsInMarkOrder` | src/frame.c:133-170 | each list is ordered by last mark, without repeats |
| `MarkRuns.ReadyIffNothingStale` | src/frame.c:162-165 | the lists are fit for allocation if and only if no page was marked USED and then FREE |
| `MarkRuns.AllocNeedsCleanPage` | src/frame.c:186-188 | an allocation keeps the lru ring if and only if its page was not on it |
| `MarkRuns.UsedThenFreeBreaksLru` | src/frame.c:133-188 | two marking calls after which an allocation leaves no lru ring |
| `MarkRuns.RoundUpMonotone` | include/arch/x86_64/kernel.h:38 | rounding up is monotone and goes to the start of the page after its argument |
| `MarkRuns.RegionCallsFit` | src/kernel.c:68-78 | every marking call for a memory region stays within the page array |
| `MarkRuns.KernelPagesNotFree` | src/kernel.c:68-81 | after `pmm_init` no page up to the kernel end is free, and those not protected are used |
| `MemoryMap.PagesAfter` | src/kernel.c:67-81 | after `pmm_init`, exactly which pages are free, used and on lru, from the last region that marks each page, the kernel's end and the protected flags |
| `MemoryMap.MarksIffTouches` | src/kernel.c:67-79 | on plain numbers, a region marks the pages from that of its base to that of base + len if base + len is at most the highest address, and none if it wraps |
| `MemoryMap.HighestIs` | src/kernel.c:55-65 | the highest address is base + len of the last usable region, or 0 |
| `MemoryMap.RegionDecidesPage` | src/kernel.c:67-81 | the last region that touches an unprotected page above the kernel decides: free with flags 0x1000 if usable, used and on lru with flags 0x2000 if not |
| `MemoryMap.UntouchedPage` | src/kernel.c:67-81 | a page that no region touches is on no list and keeps its flags |
| `MemoryMap.KernelPage` | src/kernel.c:80-81 | a page up to the kernel end is used, on lru, and has flags 0x26000 |
| `MemoryMap.HoleIsUsed` | src/kernel.c:67-81 | on a machine with a reserved gigabyte between usable ones, its second page is used |
| `MemoryMap.CleanIff` | src/kernel.c:67-81 | the lists are fit for allocation if and only if no page that ends free is also marked by a region that is not usable |
| `MemoryMap.FreeInUsableIff` | src/kernel.c:67-81 | every free page lies wholly in usable memory if and only if the edge pages of the usable regions do |
| `MemoryMap.LastPageIsFree` | src/kernel.c:67-81 | for a map that ends in the highest usable region, the page at its end is free and in no usable region |
| `MemoryMap.FreeListAscends` | src/kernel.c:67-81 | for a map whose usable regions are in ascending order and share no page, the free list is in the order of the page numbers |
| `MemoryMap.BootTablesNotFreeIff` | src/kernel.c:67-81 | no table of the boot loader is on the free list if and only if each is in the array, protected, below the kernel's end or not last marked usable; whether it is overwritten is the next row |
| `MemoryMap.BootTablesIntactIff` | src/frame.c:91-98 | no such table is free or overwritten by the structs if and only if, besides, the structs lie wholly below or above all of them |
| `MemoryMap.BootPml4CanBeOverwritten` | src/frame.c:91-98 | a machine with 187 MB on which the structs are written over the PML4 in use |
| `MemoryMap.BootPml4CanBeFree` | src/boot/boot.asm:325-330 | a machine with 128 MB on which the PML4 in use is on the free list |
| `Layout.ArrayIsReserved` | src/frame.c:63-112 | every byte of the page array is in a frame flagged immutable |
| `Layout.FlagsInit` | src/frame.c:63-112 | the flags of every page after `page_init` in plain numbers: 0x3C000 for the array, 0x34000 for the tables, unchanged for all others |
| `Layout.OverwrittenIff` | src/frame.c:91-98 | exactly which pages the loop over the structs writes to |
| `Layout.ReservedNeverHandedOut` | src/frame.c:63-209 | no run of allocs and frees, after any marking calls, returns a frame of the array or of the bootstrap tables |
| `Layout.PageRequestFinds` | src/frame.c:214-220 | every address up to the memory size finds the struct of its page |
| `Layout.PageRequestOverruns` | src/frame.c:214-220 | exactly which addresses give the struct past the end, and which give none |
| `Allocator.FrameAllocator.PageInit` | src/frame.c:59-121 | the array is laid out as planned, every node is alone, and exactly the reserved frames are flagged |
| `Allocator.FrameAllocator.InitNodes` | src/frame.c:91-98 | the loop leaves every list empty and every page alone |
| `Allocator.FrameAllocator.FlagReserved` | src/frame.c:100-112 | exactly the frames of the array and the tables are flagged |
| `Allocator.FrameAllocator.PageMarkRange` | src/frame.c:133-170 | the result code, and the lists after the accepted marks in order |
| `Allocator.FrameAllocator.PageAlloc` | src/frame.c:178-194 | returns the oldest free page or none, and keeps the rings and the counter drift |
| `Allocator.FrameAllocator.PageFree` | src/frame.c:200-209 | puts the page last on free and off used and lru, and keeps the rings and the counter drift |
| `Allocator.FrameAllocator.Retire` | src/mmu.c:66-68 | the page is off free, used and lru, all else on the lists is as before |
| `Allocator.FrameAllocator.PageLru` | src/frame.c:222-229 | lists the addresses of the used pages in lru order |
| `Allocator.FindHighest` | src/kernel.c:55-65 | the end of the last usable region, which need not be the highest |
| `Allocator.MarkMemory` | src/kernel.c:68-81 | the loop makes exactly the marking calls of the specification |
| `Allocator.PmmInit` | src/kernel.c:48-83 | the state that `page_init` leaves, marked by exactly the calls for the memory map; ready for allocation if and only if no page is taken back from a reserved region; no kernel page is free |
| `Screen.LinesKeepText` | src/term.c:115-147 | wrapping at 80 columns loses no character but newlines and changes no order |
| `Screen.NewlineEndsLine` | src/term.c:116-120 | a newline ends a line: the lines of a text are those before it and those after it |
| `Screen.BreaksAtEighty` | src/term.c:139-146 | a text without newlines is broken every 80 characters and nowhere else |
| `Screen.Terminal.ScreenShowsText` | src/term.c:97-147 | byte by byte, which character and attribute of the last 25 lines each cell of video memory holds, and where the cursor is |
| `Screen.Terminal.MemCpy` | src/lib/memcpy.asm:6-9 | a copy downwards is right although source and destination overlap |
| `Screen.Terminal.Clear` | src/term.c:45-55 | shows the empty text |
| `Screen.Terminal.Scroll` | src/term.c:76-88 | every row moves up by one and the last is blank, although the copy runs past the visible rows |
| `Screen.Terminal.KPutc` | src/term.c:97-100 | writes one cell; a character from 0x80 on overwrites its attribute |
| `Screen.Terminal.Putc` | src/term.c:115-147 | the screen stays the last 25 rows of the wrapped text, with the cursor after it |
| `Screen.Terminal.Puts` | src/term.c:107-112 | the same for a string, with the cursor at even x below 160 and y below 25 |
| `Strings.StrLen` | src/lib/strlen.asm:5-17 | the position of the first NUL |
| `Strings.IndexAgainstEmpty` | src/sse.asm:179-197 | comparing a block with zeroes, equal each, finds its first NUL |
| `Strings.SseStrLen` | src/sse.asm:179-197 | block by block gives the same length as byte by byte, whatever follows the NUL |
| `Digits.DigitsDecode` | src/lib/vsnprintf.c:53-70 | the digits are digits of the base and stand for the number modulo base^len |
| `Digits.NumeralDigits` | src/lib/vsnprintf.c:62-66 | every character is 0 to 9 or A to Z with a value below the base |
| `Digits.NumeralExact` | src/lib/vsnprintf.c:53-70 | it is the number written out, in digits of the base and without a leading zero, if and only if len digits suffice, and then there is no digit too many |
| `Digits.SpelledOnce` | src/lib/vsnprintf.c:53-70 | that is the only such string for the number |
| `Digits.SixtyFourBits` | src/lib/vsnprintf.c:104-143 | no 64-bit number is cut in base 16 or 10; in base 8 exactly those from 2^48 on are, to their last 48 bits |
| `Digits.StrRev` | src/lib/vsnprintf.c:41-51 | the string is reversed in place and nothing after it changes |
| `Digits.Ulltostr` | src/lib/vsnprintf.c:53-70 | the buffer holds the numeral and a NUL, its length is returned, and nothing after it changes |
| `Format.EmitCount` | src/lib/vsnprintf.c:174-179 | a loop with k characters at position n writes the lesser of k and half the room rounded up, never past the size |
| `Format.ConvertCount` | src/lib/vsnprintf.c:87-180 | a conversion writes its whole piece if and only if sign, padding and body fit |
| `Format.UncutIffAllFit` | src/lib/vsnprintf.c:72-193 | the output is the concatenation of the pieces, with flags and padding carried over, if and only if each fits; otherwise it is shorter |
| `Format.TwiceTheRoom` | src/lib/vsnprintf.c:72-193 | a size of twice the text is always enough |
| `Format.LoneString` | src/lib/vsnprintf.c:144-149 | exactly how a single `%s` is cut |
| `Directives.PrintsDecimal` | src/lib/vsnprintf.c:113-131 | `%d`, `%u` and `%i` print the argument in decimal, `%i` with a minus sign in front of one with the top bit set |
| `Directives.PrintsHex` | src/lib/vsnprintf.c:104-137 | `%x`, `%X` and `%l` print it in hexadecimal |
| `Directives.PrintsOctal` | src/lib/vsnprintf.c:138-143 | `%o` prints it in octal if it is below 2^48 |
| `Directives.PrintsOctalCut` | src/lib/vsnprintf.c:138-143 | any other modulo 2^48 |
| `Directives.PrintsChar` | src/lib/vsnprintf.c:150-154 | `%c` prints the character with that code, or nothing for 0 |
| `Directives.PrintsText` | src/lib/vsnprintf.c:144-149 | `%s` prints the text |
| `Directives.PrintsSign` | src/lib/vsnprintf.c:87-159 | `%%` prints a percent sign and `%w` a blank |
| `Directives.PrintsPrefix` | src/lib/vsnprintf.c:92-112 | `%#x` prints 0x and sixteen digits |
| `Directives.PrintsOctalPrefix` | src/lib/vsnprintf.c:138-143 | `%#o` prints 0 and sixteen digits |
| `Directives.PrintsPlus` | src/lib/vsnprintf.c:113-119 | the sign of `%+d` |
| `Directives.PlusOnlyForD` | src/lib/vsnprintf.c:99-103 | on all other conversions the plus sign has no effect |
| `Directives.SharpPads` | src/lib/vsnprintf.c:92-97 | on conversions without prefix `#` only sets the width |
| `Directives.SignsNeedRoom` | src/lib/vsnprintf.c:106-126 | prefix and sign are printed if and only if there is room for one character more |
| `Directives.NumberReads` | src/lib/vsnprintf.c:161-171 | a run of digits is read as a decimal number modulo 2^64 |
| `Directives.PadsNumber` | src/lib/vsnprintf.c:174-177 | a width pads numbers with zeroes on the left |
| `Directives.PadsText` | src/lib/vsnprintf.c:174-177 | and texts and characters with blanks |
| `Directives.FourWide` | src/lib/vsnprintf.c:174-177 | `%4d` of 7 is 0007, and `%4s` of two letters has two blanks in front |
| `Directives.CopiesText` | src/lib/vsnprintf.c:183-187 | other characters are copied and end the flags |
| `Directives.NumberInText` | src/kernel.c:116 | a number in the middle of a text |
| `Directives.FlagsCarryOver` | src/lib/vsnprintf.c:72-193 | width and blanks stay in force for a directive that follows at once |
| `Directives.MarksCarryOver` | src/lib/vsnprintf.c:72-193 | so do prefix and sign |
| `Directives.TextEndsFlags` | src/lib/vsnprintf.c:183-187 | after some text they do not |
| `Directives.WidthStays` | src/lib/vsnprintf.c:72-193 | but the width is kept for the next directive that pads |
| `Format.EmitFill` | src/lib/vsnprintf.c:174-177 | the padding loop writes what the rule says |
| `Format.EmitBuffer` | src/lib/vsnprintf.c:178-179 | the copying loop does |
| `Format.WriteText` | src/lib/strncpy.asm:5-27 | at most the given number of characters and zeros after them |
| `Format.WriteConversion` | src/lib/vsnprintf.c:87-173 | each case leaves its string in the buffer, its sign or prefix in the output and its flags |
| `Format.ParseOptions` | src/lib/vsnprintf.c:86-103 | from the percent sign to the conversion character, with the flags and width on the way |
| `Format.ParseWidth` | src/lib/vsnprintf.c:161-171 | the digit loop reads a width modulo 2^64 |
| `Format.Vsnprintf` | src/lib/vsnprintf.c:72-193 | ends, writes the specified output, returns its length, at most the size, and changes nothing behind it |

## Left out

- Translation caches, and what the access rights in an entry allow: the walk is of memory alone, and the kernel writes tables as supervisor. Which rights are written is stated.
- Weak memory order: the interleavings are of sequentially consistent loads and stores.
- Progress of the spin lock: the interleavings are about safety only.
- Overflow of the two counters and of `temp` in `vga_scroll`: counters are unbounded, and the cursor never gets far enough for `temp` to wrap.
- The page structs are kept apart from the modelled physical memory, so that a stray mapping of the array is not modelled; `data` is kept only where it is read back.
- The truncation of page numbers to `int` in the loops of `page_init` and the debug prints of all functions.
- Allocator.FrameAllocator.PageInit: assumes that every byte of the page array can be reached and lies over no table in use; `BootWindow.ArrayAtPlaceIff` and `MemoryMap.BootTablesIntactIff` tell exactly when. It requires that the page array fits below the end of memory, because otherwise the code writes flags past its own array.
- Allocator.FrameAllocator.PageMarkRange: requires the range to stay within the page array, which the code asserts and `pmm_init` observes.
- Allocator.FrameAllocator.PageFree: requires a used page; the code frees whatever it is given.
- Allocator.PmmInit: assumes the same of the page array, and requires the kernel to end below the highest address, and region bases that are 64-bit values.
- Concurrency.InterleavingsAreSafe: no more calls of `page_alloc` under way than pages are free, since with more the property is false as `Contention.CallsAreSafeIff` says exactly.
- Contention.WaitersTakeTheHead: the 16 bytes in front of the free head, which the code takes for a page's lru node, are kept apart from all lists; what lies there is up to the linker. What happens after the second wrong page is not followed.
- Paging.RecursiveViewIsWalk: requires bit 7 of a present PML4 entry to be clear; the processor reserves that bit and faults on it.
- Mapping.MapPageEffects: requires zeroed free frames, no 1 GB page on the path and an address outside slot 0x180; the code follows a 1 GB entry as if it named a table.
- Mmu.MemoryManager.MapPage: requires also that the tables, and the frames that this call will turn into tables, are reachable through the higher-half window, that remapping a page does not take a table out of it, and that the frames needed are free, which the code asserts. `FirstMapping.MappableAfterBoot` tells exactly when that holds after the boot.
- Mmu.MemoryManager.ReqPage: the same, and a first free frame.
- Mmu.MemoryManager.MmuInit: requires the free frames other than the PML4 to be zero and no tables; where the tables below the PML4 are free at boot, which `MemoryMap.BootTablesNotFreeIff` tells exactly, the kernel goes on with tables that it will hand out.
- Bootstrap.MmuBootstrap: three distinct frames and physical addresses of 52 bits.
- BootWindow.ArrayAtPlaceIff: zeroed tables, and a kernel that ends in the 4 MB mapped by the boot loader, as an assertion in `page_init` means to check.
- FirstMapping.BootAndMapEntry: the mappings that the ACPI and local APIC code makes in between are not modelled; `FirstMapping.MappableAfterBoot` covers whichever comes first.
- FirstMapping.FirstThreeIff: for a map that is not in ascending order three free pages below the bound are not enough, since others can come first on the list; there `FirstMapping.MappableAfterBoot` speaks of the list itself.
- Boot.KernelBoot: machines that get bootstrap tables; the tables that the boot loader builds are not modelled, only where they are.
- Screen.Terminal.Putc: tab and backspace, because a tab can leave the screen without scrolling and a backspace at column 0 wraps; also cursor port output, recolouring and the lock of the screen.
- Digits.StrRev: the empty string, on which the code swaps with the byte in front; `ulltostr` never passes it.
- Format.Vsnprintf: formats that are not well formed, on which the code loops for ever; sizes below 21, which do not hold a number; strings that do not fit in the local buffer. The result has no NUL at its end, as in the code. Negative numbers are printed as unsigned, as in the code.
- Directives.PrintsDecimal: this and the other lemmas on single directives are for buffers with twice the room that the text takes; what is cut in smaller ones is the subject of `Format.UncutIffAllFit`, `Format.EmitCount` and `Format.LoneString`.
- The wrappers `snprintf`, `printf` and `kernel_log`, and the ctype functions: they add only calls.
- Interrupt controllers, timer, serial port, PCI, real-time clock, ACPI tables, the ELF loader, boot and entry assembly, descriptor tables and system calls: device access or register plumbing with little logic.
- The other routines of `sse.asm`: they do not refine their simple forms.
