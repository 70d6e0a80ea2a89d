/** From the memory map to a working memory manager: `pmm_init`, the bootstrap tables and
    `mmu_init` put together. */
module Boot {
  import Sizes
  import opened Words
  import opened Paging
  import opened Tables
  import opened PageAddress
  import opened Bootstrap
  import opened BootWindow
  import opened Mmu
  import opened MemoryMap
  import Allocator
  import Frames
  import Rings
  import Layout
  import Marking
  import MarkRuns

  // ----- the bootstrap tables are sound -----

  ghost function BootLevels(pml4: bv64, pdpt: bv64, pd: bv64): Levels {
    t => if t == pml4 then 4 else if t == pdpt then 3 else if t == pd then 2 else 0
  }

  lemma ZeroFits(level: Levels, k: nat)
    ensures EntryFits(0, level, k)
  {
  }

  lemma Pml4Fits(before: Memory, mem: Memory, pml4: bv64, pdpt: bv64, pd: bv64, low: bv64, i: bv64)
    requires ThreeFrames(pml4, pdpt, pd) && Upper(before, mem, pml4, pdpt, pd, low) && ZeroFrame(before, pml4)
    requires IsIndex(i) && i != MMU_RE
    ensures EntryFits(mem(Slot(pml4, i)), BootLevels(pml4, pdpt, pd), 4)
  {
    hide Slot, Present, Large, Frame, IsFrame, IsIndex, TableEntry;
    if i == LAST {
      TableEntryBits(pdpt);
    } else {
      assert mem(Slot(pml4, i)) == before(Slot(pml4, i)) == 0;
      ZeroFits(BootLevels(pml4, pdpt, pd), 4);
    }
  }

  lemma PdptFits(before: Memory, mem: Memory, pml4: bv64, pdpt: bv64, pd: bv64, low: bv64, i: bv64)
    requires ThreeFrames(pml4, pdpt, pd) && Upper(before, mem, pml4, pdpt, pd, low) && ZeroFrame(before, pdpt)
    requires IsIndex(i)
    ensures EntryFits(mem(Slot(pdpt, i)), BootLevels(pml4, pdpt, pd), 3)
  {
    hide Slot, Present, Large, Frame, IsFrame, IsIndex, TableEntry;
    if i == KERNEL || i == low {
      TableEntryBits(pd);
    } else {
      assert mem(Slot(pdpt, i)) == before(Slot(pdpt, i)) == 0;
      ZeroFits(BootLevels(pml4, pdpt, pd), 3);
    }
  }

  lemma PdFits(before: Memory, mem: Memory, pd: bv64, n: nat, level: Levels, i: bv64)
    requires Directory(before, mem, pd, n) && ZeroFrame(before, pd) && IsIndex(i)
    ensures EntryFits(mem(Slot(pd, i)), level, 2)
  {
    hide Slot, Present, Large, Frame, IsIndex, ToWord, DirectoryEntry;
    assert mem(Slot(pd, i)) == before(Slot(pd, i)) || LargeLeaf(mem(Slot(pd, i)));
    ZeroFits(level, 2);
  }

  /** Every table that `mmu_bootstrap` builds is used at one level. */
  lemma BuiltLeveled(before: Memory, mem: Memory, physical: nat, pml4: bv64, pdpt: bv64, pd: bv64)
    requires ThreeFrames(pml4, pdpt, pd) && Cleared(before, pml4, pdpt, pd)
    requires Built(before, mem, physical, pml4, pdpt, pd)
    ensures Leveled(mem, pml4, BootLevels(pml4, pdpt, pd))
  {
    hide Slot, IsFrame, IsIndex, EntryFits, Upper, Directory, OnlyTables, ZeroFrame, ToWord, Pdpte;
    var level := BootLevels(pml4, pdpt, pd);
    forall t, i {:trigger Slot(t, i)} | level(t) >= 2 && IsIndex(i) && !(t == pml4 && i == MMU_RE)
      ensures EntryFits(mem(Slot(t, i)), level, level(t))
    {
      if t == pml4 {
        Pml4Fits(before, mem, pml4, pdpt, pd, Pdpte(ToWord(physical)), i);
      } else if t == pdpt {
        PdptFits(before, mem, pml4, pdpt, pd, Pdpte(ToWord(physical)), i);
      } else {
        PdFits(before, mem, pd, Rounds(physical), level, i);
      }
    }
  }

  lemma {:induction false} AddressOfByte(page: nat)
    ensures ToWord(page * Sizes.PAGE_SIZE) == Address(page)
  {
    assert page * Sizes.PAGE_SIZE == page * 0x1000 + 0;
    hide ToWord;
    SplitAt12(page, 0);
    ZeroWord();
    BitsOrZero(ToWord(page) << 12);
  }

  /** A page that is at its place is in the window. */
  lemma PageInWindow(before: Memory, mem: Memory, physical: nat, pml4: bv64, pdpt: bv64, pd: bv64, page: nat)
    requires ThreeFrames(pml4, pdpt, pd) && Cleared(before, pml4, pdpt, pd)
    requires Built(before, mem, physical, pml4, pdpt, pd) && physical <= GIGABYTE
    requires page * Sizes.PAGE_SIZE < physical
    ensures InWindow(mem, pml4, Address(page))
  {
    hide ThreeFrames, Cleared, Built, ToWord, P2V, Address, Translate;
    AtPlaceIff(before, mem, physical, pml4, pdpt, pd, page * Sizes.PAGE_SIZE);
    AddressOfByte(page);
  }

  /** The three tables, in consecutive pages from `page` on, are as `mmu_init` needs them. */
  lemma BuiltTables(before: Memory, mem: Memory, physical: nat, page: nat)
    requires var (pml4, pdpt, pd) := (Address(page), Address(page + 1), Address(page + 2));
             Cleared(before, pml4, pdpt, pd) && Built(before, mem, physical, pml4, pdpt, pd)
    requires (page + 3) * Sizes.PAGE_SIZE <= physical <= GIGABYTE
    ensures ThreeFrames(Address(page), Address(page + 1), Address(page + 2))
    ensures BootTables(mem, Address(page), BootLevels(Address(page), Address(page + 1), Address(page + 2)))
  {
    var pml4, pdpt, pd := Address(page), Address(page + 1), Address(page + 2);
    hide Address, Built, Cleared, IsFrame, Leveled, InWindow, Frame, WindowOk, BootLevels;
    PagesAreFrames(page);
    BuiltLeveled(before, mem, physical, pml4, pdpt, pd);
    PageInWindow(before, mem, physical, pml4, pdpt, pd, page);
    PageInWindow(before, mem, physical, pml4, pdpt, pd, page + 1);
    PageInWindow(before, mem, physical, pml4, pdpt, pd, page + 2);
    TablesInWindow(mem, pml4, pdpt, pd);
  }

  lemma TablesInWindow(mem: Memory, pml4: bv64, pdpt: bv64, pd: bv64)
    requires IsFrame(pml4) && InWindow(mem, pml4, pdpt) && InWindow(mem, pml4, pd)
    ensures WindowOk(mem, pml4, BootLevels(pml4, pdpt, pd), [])
  {
    assert Frame(pml4) == pml4;
    hide Frame, IsFrame, InWindow;
  }

  lemma PagesAreFrames(page: nat)
    requires page + 2 < 0x100_0000_0000
    ensures ThreeFrames(Address(page), Address(page + 1), Address(page + 2))
  {
    hide Address, IsFrame;
    AddressIsFrame(page);
    AddressIsFrame(page + 1);
    AddressIsFrame(page + 2);
    if Address(page) == Address(page + 1) { AddressInjective(page, page + 1); }
    if Address(page) == Address(page + 2) { AddressInjective(page, page + 2); }
    if Address(page + 1) == Address(page + 2) { AddressInjective(page + 1, page + 2); }
  }

  // ----- the free pages are usable -----

  /** The machine, the kernel and the memory contents that the boot works for: those below, with
      room for the tables in front of the page array. */
  ghost predicate Bootable(regions: seq<MarkRuns.Region>, kernelEnd: nat, flags: nat -> bv64, mem: Memory) {
    && BootConditions(regions, kernelEnd, flags, mem)
    && Layout.RoomForTables(Layout.PlanFor(MarkRuns.HighestAddress(regions), kernelEnd))
  }

  /** Bootstrap tables are needed and fit in one directory, the kernel ends in the memory mapped
      by the boot loader, no reserved page is taken back, and the frames that will be tables are
      zero. */
  ghost predicate BootConditions(regions: seq<MarkRuns.Region>, kernelEnd: nat, flags: nat -> bv64, mem: Memory) {
    var highest := MarkRuns.HighestAddress(regions);
    var plan := Layout.PlanFor(highest, kernelEnd);
    var page := plan.tables / Sizes.PAGE_SIZE;
    && (forall r :: r in regions ==> r.base < Sizes.WORD)
    && kernelEnd < highest < MEMORY_LIMIT
    && plan.structs / Sizes.PAGE_SIZE + plan.frames <= plan.numpages
    && plan.bootstrap && plan.mapped <= GIGABYTE
    && plan.tables + 3 * Sizes.PAGE_SIZE <= Layout.INITIAL_TOP
    && (forall p: nat :: !Reclaimed(regions, kernelEnd, p))
    && Cleared(mem, Address(page), Address(page + 1), Address(page + 2))
    && (forall p: nat :: FreeByMap(regions, kernelEnd, p) ==> ZeroFrame(mem, Address(p)))
  }

  /** The tables lie below what is mapped, and within the page array. */
  lemma TablePages(memory: nat, kernelEnd: nat)
    requires kernelEnd < memory < MEMORY_LIMIT && Layout.PlanFor(memory, kernelEnd).bootstrap
    requires var plan := Layout.PlanFor(memory, kernelEnd);
             plan.structs / Sizes.PAGE_SIZE + plan.frames <= plan.numpages
    ensures var plan := Layout.PlanFor(memory, kernelEnd);
            var page := plan.tables / Sizes.PAGE_SIZE;
            && plan.tables == page * Sizes.PAGE_SIZE && (page + 3) * Sizes.PAGE_SIZE <= plan.mapped
            && page + 3 <= plan.numpages && page == kernelEnd / Sizes.PAGE_SIZE + 1
            && plan.mapped % Layout.LARGE_PAGE == 0 && plan.structs == (page + 3) * Sizes.PAGE_SIZE
  {
    hide Layout.PlanFor;
    Layout.PlanIs(memory, kernelEnd);
  }

  lemma {:induction false} FreePagesBounded(regions: seq<MarkRuns.Region>, kernelEnd: nat, p: nat)
    requires FreeByMap(regions, kernelEnd, p)
    ensures p <= MarkRuns.HighestAddress(regions) / Sizes.PAGE_SIZE
  {
    hide LastRegion, MarkRuns.HighestAddress;
    var highest := MarkRuns.HighestAddress(regions);
    var r := LastFreeRegion(regions, highest, p);
    MarkBound(r, highest, p);
  }

  lemma MarkBound(r: MarkRuns.Region, highest: nat, p: nat)
    requires Marks(r, highest, p)
    ensures p <= highest / Sizes.PAGE_SIZE
  {
  }

  /** A free frame that is no table keeps its zeroes, and has no level. */
  lemma FreeFrameOk(before: Memory, mem: Memory, page: nat, p: nat)
    requires page + 2 < 0x100_0000_0000 && p < 0x100_0000_0000 && !(page <= p < page + 3)
    requires OnlyTables(before, mem, Address(page), Address(page + 1), Address(page + 2)) &&
             ZeroFrame(before, Address(p))
    ensures IsFrame(Address(p)) && ZeroFrame(mem, Address(p))
    ensures BootLevels(Address(page), Address(page + 1), Address(page + 2))(Address(p)) == 0
  {
    hide Address, IsFrame, IsIndex, Slot;
    AddressIsFrame(p);
    if Address(p) == Address(page) { AddressInjective(p, page); }
    if Address(p) == Address(page + 1) { AddressInjective(p, page + 1); }
    if Address(p) == Address(page + 2) { AddressInjective(p, page + 2); }
  }

  /** All free frames are as `mmu_init` needs them. */
  lemma FreeFramesOk(before: Memory, mem: Memory, page: nat, free: seq<nat>)
    requires page + 2 < 0x100_0000_0000 && Rings.Distinct(free)
    requires OnlyTables(before, mem, Address(page), Address(page + 1), Address(page + 2))
    requires forall i :: 0 <= i < |free| ==>
               free[i] < 0x100_0000_0000 && !(page <= free[i] < page + 3) && ZeroFrame(before, Address(free[i]))
    ensures SpareOk(mem, BootLevels(Address(page), Address(page + 1), Address(page + 2)), Addresses(free))
  {
    hide Address, IsFrame, ZeroFrame, OnlyTables, BootLevels, Rings.Distinct;
    AddressesDistinct(free);
    forall f | f in Addresses(free)
      ensures IsFrame(f) && ZeroFrame(mem, f) && BootLevels(Address(page), Address(page + 1), Address(page + 2))(f) == 0
    {
      var i :| 0 <= i < |free| && Addresses(free)[i] == f;
      FreeFrameOk(before, mem, page, free[i]);
    }
  }

  /** After `pmm_init` the page of the PML4 is on no list, and no free page is a table. */
  lemma {:induction false} ListsOk(regions: seq<MarkRuns.Region>, kernelEnd: nat, flags: nat -> bv64, mem: Memory,
                                   s: Frames.Pool)
    requires BootConditions(regions, kernelEnd, flags, mem)
    requires Marking.Placed(s.m, MarkRuns.EMPTY, Sizes.RoundUp(MarkRuns.HighestAddress(regions)) / Sizes.PAGE_SIZE)
    requires forall p: nat :: s.flags(p) ==
               Layout.InitialFlags(Layout.PlanFor(MarkRuns.HighestAddress(regions), kernelEnd), flags)(p)
    ensures var page := Layout.PlanFor(MarkRuns.HighestAddress(regions), kernelEnd).tables / Sizes.PAGE_SIZE;
            var l := ListsAfter(s, regions, kernelEnd);
            && (forall p :: page <= p < page + 3 ==> p !in l.free && p !in l.used && p !in l.lru)
            && (forall p :: p in l.free ==> p < 0x100_0000_0000 && ZeroFrame(mem, Address(p)))
  {
    var plan := Layout.PlanFor(MarkRuns.HighestAddress(regions), kernelEnd);
    var page, l := plan.tables / Sizes.PAGE_SIZE, ListsAfter(s, regions, kernelEnd);
    hide Marking.Placed, ListsAfter, Marking.Protected, Sizes.RoundUp, MarkRuns.HighestAddress, Layout.PlanFor,
      Reclaimed, FreeByMap, UsedByMap, LruByMap, Cleared, ZeroFrame, Address;
    forall p: nat | page <= p < page + 3 ensures p !in l.free && p !in l.used && p !in l.lru {
      Layout.ReservedIsProtected(plan, flags, p);
      PagesAfter(s, regions, kernelEnd, p);
    }
    forall p | p in l.free ensures p < 0x100_0000_0000 && ZeroFrame(mem, Address(p)) {
      PagesAfter(s, regions, kernelEnd, p);
      FreePagesBounded(regions, kernelEnd, p);
    }
  }

  lemma BootPageRetirable(m: Rings.Links, l: Frames.Lists, n: nat, page: nat)
    requires Marking.Placed(m, l, n) && page < n && page !in l.free && page !in l.used && page !in l.lru
    ensures Frames.Retirable(m, l, page) && Frames.WithoutPage(l, page) == l
  {
    hide Rings.Ring, Frames.Remove;
    Frames.RemoveAbsent(l.free, page);
    Frames.RemoveAbsent(l.used, page);
    Frames.RemoveAbsent(l.lru, page);
  }

  lemma ListsDistinct(m: Rings.Links, l: Frames.Lists, n: nat)
    requires Marking.Placed(m, l, n)
    ensures Rings.Distinct(l.free)
  {
    Frames.RepresentsDistinct(m, l);
  }

  lemma {:induction false} BootableUnfolds(regions: seq<MarkRuns.Region>, kernelEnd: nat, flags: nat -> bv64,
                                           mem: Memory, plan: Layout.Plan, page: nat)
    requires BootConditions(regions, kernelEnd, flags, mem)
    requires plan == Layout.PlanFor(MarkRuns.HighestAddress(regions), kernelEnd) &&
             page == plan.tables / Sizes.PAGE_SIZE
    ensures plan.tables == page * Sizes.PAGE_SIZE && (page + 3) * Sizes.PAGE_SIZE <= plan.mapped <= GIGABYTE
    ensures plan.mapped % Layout.LARGE_PAGE == 0 && plan.structs == (page + 3) * Sizes.PAGE_SIZE
    ensures page == kernelEnd / Sizes.PAGE_SIZE + 1 && plan.bootstrap
    ensures page + 3 <= plan.numpages == Sizes.RoundUp(MarkRuns.HighestAddress(regions)) / Sizes.PAGE_SIZE
    ensures Cleared(mem, Address(page), Address(page + 1), Address(page + 2))
  {
    assert plan.numpages == Sizes.RoundUp(MarkRuns.HighestAddress(regions)) / Sizes.PAGE_SIZE;
    hide MarkRuns.HighestAddress, Layout.PlanFor, Cleared, Address, Reclaimed, FreeByMap, ZeroFrame, Sizes.RoundUp;
    TablePages(MarkRuns.HighestAddress(regions), kernelEnd);
  }

  lemma {:induction false} BootableSplits(regions: seq<MarkRuns.Region>, kernelEnd: nat, flags: nat -> bv64,
                                          mem: Memory)
    requires Bootable(regions, kernelEnd, flags, mem)
    ensures BootConditions(regions, kernelEnd, flags, mem)
    ensures Layout.RoomForTables(Layout.PlanFor(MarkRuns.HighestAddress(regions), kernelEnd))
  {
  }

  /** Memory after the store of `mmu_init`. */
  function WithSelfSlot(mem: Memory, cr3: bv64): Memory {
    Store(mem, Slot(cr3, MMU_RE), TableEntry(cr3))
  }

  /** That store changes no translation of a window address. */
  lemma WindowKept(mem: Memory, cr3: bv64, level: Levels, x: bv64)
    requires IsFrame(cr3) && Leveled(mem, cr3, level)
    ensures Translate(WithSelfSlot(mem, cr3), cr3, P2V(x)) == Translate(mem, cr3, P2V(x))
  {
    assert Frame(cr3) == cr3;
    BitsWindowPml4e(x);
    hide Leveled, Translate, Frame, IsFrame, Store, Slot, TableEntry;
    assert Pml4e(P2V(x)) != MMU_RE;
    SelfSlotMeaning(mem, cr3, level, TableEntry(cr3), P2V(x));
  }

  lemma ArrayKept(mem: Memory, cr3: bv64, level: Levels, plan: Layout.Plan)
    requires IsFrame(cr3) && Leveled(mem, cr3, level)
    ensures ArrayAtPlace(WithSelfSlot(mem, cr3), cr3, plan) <==> ArrayAtPlace(mem, cr3, plan)
  {
    hide Leveled, Translate, IsFrame, WithSelfSlot, P2V, ToWord;
    forall b: nat ensures AtPlace(WithSelfSlot(mem, cr3), cr3, b) <==> AtPlace(mem, cr3, b) {
      WindowKept(mem, cr3, level, ToWord(b));
    }
  }

  /** Once everything else is in order, the structs that `page_init` writes can all be reached, and
      still can after `mmu_init`, if and only if there is room for the tables. */
  lemma {:induction false} BootArrayIff(regions: seq<MarkRuns.Region>, kernelEnd: nat, flags: nat -> bv64,
                                        mem: Memory, mem1: Memory, plan: Layout.Plan, page: nat)
    requires BootConditions(regions, kernelEnd, flags, mem)
    requires plan == Layout.PlanFor(MarkRuns.HighestAddress(regions), kernelEnd) &&
             page == plan.tables / Sizes.PAGE_SIZE
    requires Built(mem, mem1, plan.mapped, Address(page), Address(page + 1), Address(page + 2))
    ensures ArrayAtPlace(mem1, Address(page), plan) <==> Layout.RoomForTables(plan)
    ensures ArrayAtPlace(WithSelfSlot(mem1, Address(page)), Address(page), plan) <==> Layout.RoomForTables(plan)
  {
    ConditionBounds(regions, kernelEnd, flags, mem);
    hide *;
    BootableUnfolds(regions, kernelEnd, flags, mem, plan, page);
    BuiltTables(mem, mem1, plan.mapped, page);
    BootTablesLeveled(mem1, Address(page), BootLevels(Address(page), Address(page + 1), Address(page + 2)));
    ArrayAtPlaceIff(MarkRuns.HighestAddress(regions), kernelEnd, mem, mem1, Address(page), Address(page + 1),
                    Address(page + 2));
    ArrayKept(mem1, Address(page), BootLevels(Address(page), Address(page + 1), Address(page + 2)), plan);
  }

  lemma {:induction false} ConditionBounds(regions: seq<MarkRuns.Region>, kernelEnd: nat, flags: nat -> bv64,
                                           mem: Memory)
    requires BootConditions(regions, kernelEnd, flags, mem)
    ensures kernelEnd < MarkRuns.HighestAddress(regions) < MEMORY_LIMIT
    ensures var plan := Layout.PlanFor(MarkRuns.HighestAddress(regions), kernelEnd);
            plan.tables + 3 * Sizes.PAGE_SIZE <= Layout.INITIAL_TOP
  {
  }

  lemma BootTablesLeveled(mem: Memory, cr3: bv64, level: Levels)
    requires BootTables(mem, cr3, level)
    ensures IsFrame(cr3) && Leveled(mem, cr3, level)
  {
  }

  /** What `mmu_init` asks for is what `pmm_init` and `mmu_bootstrap` leave. */
  lemma {:induction false} BootMeetsInit(regions: seq<MarkRuns.Region>, kernelEnd: nat, flags: nat -> bv64,
                                         mem: Memory, s: Frames.Pool, m: Rings.Links, l: Frames.Lists, mem1: Memory,
                                         plan: Layout.Plan, page: nat)
    requires Bootable(regions, kernelEnd, flags, mem)
    requires plan == Layout.PlanFor(MarkRuns.HighestAddress(regions), kernelEnd) &&
             page == plan.tables / Sizes.PAGE_SIZE
    requires Marking.Placed(s.m, MarkRuns.EMPTY, plan.numpages) && Marking.Placed(m, l, plan.numpages)
    requires forall p: nat :: s.flags(p) == Layout.InitialFlags(plan, flags)(p)
    requires Built(mem, mem1, plan.mapped, Address(page), Address(page + 1), Address(page + 2))
    requires l == ListsAfter(s, regions, kernelEnd)
    ensures plan.tables == page * Sizes.PAGE_SIZE && ToWord(plan.tables) == Address(page) && page < plan.numpages
    ensures Frames.Retirable(m, l, page) && Frames.WithoutPage(l, page) == l
    ensures var level := BootLevels(Address(page), Address(page + 1), Address(page + 2));
            BootTables(mem1, Address(page), level) && SpareOk(mem1, level, Addresses(l.free))
    ensures ArrayAtPlace(WithSelfSlot(mem1, Address(page)), Address(page), plan)
  {
    hide *;
    BootableSplits(regions, kernelEnd, flags, mem);
    BootArrayIff(regions, kernelEnd, flags, mem, mem1, plan, page);
    BootableUnfolds(regions, kernelEnd, flags, mem, plan, page);
    ListsOk(regions, kernelEnd, flags, mem, s);
    AddressOfByte(page);
    MeetsInit(mem, mem1, plan.mapped, page, m, l, plan.numpages);
  }

  lemma MeetsInit(mem: Memory, mem1: Memory, physical: nat, page: nat, m: Rings.Links, l: Frames.Lists, n: nat)
    requires Cleared(mem, Address(page), Address(page + 1), Address(page + 2))
    requires Built(mem, mem1, physical, Address(page), Address(page + 1), Address(page + 2))
    requires (page + 3) * Sizes.PAGE_SIZE <= physical <= GIGABYTE && page + 3 <= n && Marking.Placed(m, l, n)
    requires forall p :: page <= p < page + 3 ==> p !in l.free && p !in l.used && p !in l.lru
    requires forall p :: p in l.free ==> p < 0x100_0000_0000 && ZeroFrame(mem, Address(p))
    ensures Frames.Retirable(m, l, page) && Frames.WithoutPage(l, page) == l
    ensures var level := BootLevels(Address(page), Address(page + 1), Address(page + 2));
            BootTables(mem1, Address(page), level) && SpareOk(mem1, level, Addresses(l.free))
  {
    assert page + 2 < 0x100_0000_0000;
    hide *;
    BootPageRetirable(m, l, n, page);
    BuiltTables(mem, mem1, physical, page);
    ListsDistinct(m, l, n);
    BuiltOnlyTables(mem, mem1, physical, Address(page), Address(page + 1), Address(page + 2));
    assert forall i :: 0 <= i < |l.free| ==> l.free[i] in l.free;
    FreeFramesOk(mem, mem1, page, l.free);
  }

  lemma BuiltOnlyTables(before: Memory, mem: Memory, physical: nat, pml4: bv64, pdpt: bv64, pd: bv64)
    requires Built(before, mem, physical, pml4, pdpt, pd)
    ensures OnlyTables(before, mem, pml4, pdpt, pd)
  {
    hide Upper, Directory, OnlyTables;
  }

  /** What `pmm_init` needs is among the conditions. */
  lemma {:induction false} BootNeeds(regions: seq<MarkRuns.Region>, kernelEnd: nat, flags: nat -> bv64, mem: Memory)
    requires BootConditions(regions, kernelEnd, flags, mem)
    ensures forall r :: r in regions ==> r.base < Sizes.WORD
    ensures kernelEnd < MarkRuns.HighestAddress(regions) < MEMORY_LIMIT < Sizes.WORD - Sizes.PAGE_SIZE
    ensures var plan := Layout.PlanFor(MarkRuns.HighestAddress(regions), kernelEnd);
            plan.structs / Sizes.PAGE_SIZE + plan.frames <= plan.numpages
    ensures forall p: nat :: !Reclaimed(regions, kernelEnd, p)
  {
    hide Layout.PlanFor, MarkRuns.HighestAddress, Reclaimed, FreeByMap, Cleared, ZeroFrame, Address;
  }

  lemma FindsTable(n: nat, root: nat, page: nat)
    requires root == page * Sizes.PAGE_SIZE && page < n
    ensures Layout.PageRequest(n, root).Some? && root / Sizes.PAGE_SIZE == page
  {
  }

  /** The pool that `page_init` leaves, and the memory that `mmu_bootstrap` leaves. */
  ghost predicate BootState(regions: seq<MarkRuns.Region>, kernelEnd: nat, flags: nat -> bv64, mem: Memory,
                            s: Frames.Pool, mem1: Memory) {
    var plan := Layout.PlanFor(MarkRuns.HighestAddress(regions), kernelEnd);
    var page := plan.tables / Sizes.PAGE_SIZE;
    && Marking.Placed(s.m, MarkRuns.EMPTY, plan.numpages)
    && (forall p: nat :: s.flags(p) == Layout.InitialFlags(plan, flags)(p))
    && Built(mem, mem1, plan.mapped, Address(page), Address(page + 1), Address(page + 2))
  }

  /** The boot of a machine that needs bootstrap tables ends with a memory manager whose
      invariants hold: the tables are sound and in the window, the free list is fit for
      allocation, and every byte of the page array can be reached.  The pool `s` is the one
      before marking, and `mem1` is memory after `mmu_bootstrap`. */
  method KernelBoot(regions: seq<MarkRuns.Region>, kernelEnd: nat, m: Rings.Links, flags: nat -> bv64, mem: Memory)
    returns (mm: MemoryManager, ghost s: Frames.Pool, ghost mem1: Memory)
    requires Bootable(regions, kernelEnd, flags, mem)
    ensures fresh(mm) && fresh(mm.frames) && fresh(mm.frames.links) && mm.Valid()
    ensures mm.cr3 == ToWord(Layout.PlanFor(MarkRuns.HighestAddress(regions), kernelEnd).tables)
    ensures ArrayAtPlace(mm.mem, mm.cr3, Layout.PlanFor(MarkRuns.HighestAddress(regions), kernelEnd))
    ensures BootState(regions, kernelEnd, flags, mem, s, mem1)
    ensures var page := Layout.PlanFor(MarkRuns.HighestAddress(regions), kernelEnd).tables / Sizes.PAGE_SIZE;
            && mm.cr3 == Address(page) && mm.mem == WithSelfSlot(mem1, mm.cr3)
            && mm.level == BootLevels(Address(page), Address(page + 1), Address(page + 2))
            && mm.frames.lists == ListsAfter(s, regions, kernelEnd)
  {
    hide MarkRuns.HighestAddress, Layout.PlanFor, Built, BootTables, SpareOk, Address, ToWord, BootLevels, Cleared,
      Frames.Retirable, Frames.WithoutPage, Marking.Placed, ListsAfter, Reclaimed, Marking.Protected, ZeroFrame,
      FreeByMap, Marking.MarkAll, MarkRuns.PmmCalls, Layout.InitialFlags, Addresses, Frames.Represents, Frames.Clean,
      ArrayAtPlace, Store, Slot, TableEntry, Bootable, BootConditions, Layout.PageRequest, IsFrame;
    BootableSplits(regions, kernelEnd, flags, mem);
    BootNeeds(regions, kernelEnd, flags, mem);
    var highest := Allocator.FindHighest(regions);
    var plan := Layout.PlanFor(highest, kernelEnd);
    var page := plan.tables / Sizes.PAGE_SIZE;
    var a: Allocator.FrameAllocator;
    a, s := Allocator.PmmInit(regions, kernelEnd, m, flags);
    BootableUnfolds(regions, kernelEnd, flags, mem, plan, page);
    PagesAreFrames(page);
    FindsTable(plan.numpages, plan.tables, page);
    var built := MmuBootstrap(mem, plan.mapped, Address(page), Address(page + 1), Address(page + 2));
    mem1 := built;
    BootMeetsInit(regions, kernelEnd, flags, mem, s, a.links.View(), a.lists, mem1, plan, page);
    ghost var level := BootLevels(Address(page), Address(page + 1), Address(page + 2));
    mm := new MemoryManager.MmuInit(a, built, plan.tables, level);
  }

  const HALF_GIGABYTE: seq<MarkRuns.Region> := [MarkRuns.Region(0x10_0000, 0x2000_0000, true)]

  /** A machine with 512 MB and a kernel that ends at 0x110000 boots. */
  lemma HalfGigabyteBoots()
    ensures Bootable(HALF_GIGABYTE, 0x11_0000, _ => 0, _ => 0)
  {
    HalfGigabytePlan();
    hide Address, Layout.PlanFor, Layout.RoomForTables, FreeByMap;
    assert forall p: nat :: !Reserved(HALF_GIGABYTE, MarkRuns.HighestAddress(HALF_GIGABYTE), p);
  }

  lemma HalfGigabytePlan()
    ensures MarkRuns.HighestAddress(HALF_GIGABYTE) == 0x2010_0000
    ensures var plan := Layout.PlanFor(0x2010_0000, 0x11_0000);
            && plan.bootstrap && plan.mapped == 0xA0_0000 && plan.tables == 0x11_1000
            && plan.structs == 0x11_4000 && plan.frames == 0x805 && plan.numpages == 0x2_0101
            && Layout.RoomForTables(plan)
  {
    hide Layout.PlanFor;
    Layout.PlanIs(0x2010_0000, 0x11_0000);
  }

  const TIGHT_MAP: seq<MarkRuns.Region> := [MarkRuns.Region(0x10_0000, 0x13E2_3000, true)]

  /** The machine of `BootstrapCanMissArrayEnd`, with 319 MB and a kernel that ends at 0x101FFF,
      meets every condition but the last: without it the boot would use structs that it cannot
      reach. */
  lemma RoomIsNeeded()
    ensures BootConditions(TIGHT_MAP, 0x10_1FFF, _ => 0, _ => 0) && !Bootable(TIGHT_MAP, 0x10_1FFF, _ => 0, _ => 0)
  {
    TightPlan();
    hide Address, Layout.PlanFor, Layout.RoomForTables, FreeByMap;
    assert forall p: nat :: !Reserved(TIGHT_MAP, MarkRuns.HighestAddress(TIGHT_MAP), p);
  }

  lemma TightPlan()
    ensures MarkRuns.HighestAddress(TIGHT_MAP) == 0x13F2_3000
    ensures var plan := Layout.PlanFor(0x13F2_3000, 0x10_1FFF);
            && plan.bootstrap && plan.mapped == 0x60_0000 && plan.tables == 0x10_2000
            && plan.structs / Sizes.PAGE_SIZE + plan.frames <= plan.numpages && !Layout.RoomForTables(plan)
  {
    hide Layout.PlanFor;
    Layout.PlanIs(0x13F2_3000, 0x10_1FFF);
  }
}
