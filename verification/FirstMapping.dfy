/** The first mapping after the boot: `mmu_map_page` must reach, through the window, the free
    frames that it turns into tables, and only those below `mapped` are there. */
module FirstMapping {
  import Sizes
  import opened Words
  import opened Paging
  import opened Tables
  import opened Mapping
  import opened PageAddress
  import opened Bootstrap
  import opened BootWindow
  import opened Mmu
  import opened MemoryMap
  import opened Boot
  import Frames
  import Rings
  import Layout
  import Marking
  import MarkRuns

  // ----- which free frames are in the window -----

  /** The frames for the next `n` tables are below `bound`. */
  predicate FirstBelow(free: seq<nat>, n: nat, bound: nat) {
    |free| >= n && forall i :: 0 <= i < n ==> free[i] * Sizes.PAGE_SIZE < bound
  }

  /** A page is in the window after `mmu_init` if and only if it is below what was mapped. */
  lemma PageInWindowIff(before: Memory, mem1: Memory, physical: nat, pml4: bv64, pdpt: bv64, pd: bv64, p: nat)
    requires ThreeFrames(pml4, pdpt, pd) && Cleared(before, pml4, pdpt, pd)
    requires Built(before, mem1, physical, pml4, pdpt, pd)
    requires physical <= GIGABYTE && physical % Layout.LARGE_PAGE == 0 && p * Sizes.PAGE_SIZE < MEMORY_LIMIT
    ensures InWindow(WithSelfSlot(mem1, pml4), pml4, Address(p)) <==> p * Sizes.PAGE_SIZE < physical
  {
    assert IsFrame(pml4) && (p * Sizes.PAGE_SIZE / Layout.LARGE_PAGE < Rounds(physical) <==>
           p * Sizes.PAGE_SIZE < physical);
    assert InWindow(WithSelfSlot(mem1, pml4), pml4, Address(p)) <==>
           Translate(WithSelfSlot(mem1, pml4), pml4, P2V(Address(p))) == Some(Address(p));
    assert AtPlace(mem1, pml4, p * Sizes.PAGE_SIZE) <==>
           Translate(mem1, pml4, P2V(ToWord(p * Sizes.PAGE_SIZE))) == Some(ToWord(p * Sizes.PAGE_SIZE));
    hide *;
    BuiltLeveled(before, mem1, physical, pml4, pdpt, pd);
    AtPlaceBelow(before, mem1, physical, pml4, pdpt, pd, p * Sizes.PAGE_SIZE);
    AddressOfByte(p);
    WindowKept(mem1, pml4, BootLevels(pml4, pdpt, pd), Address(p));
  }

  /** The tables cover only the last slot of the PML4. */
  lemma NothingElseMapped(before: Memory, mem1: Memory, physical: nat, pml4: bv64, pdpt: bv64, pd: bv64, va: bv64)
    requires ThreeFrames(pml4, pdpt, pd) && Cleared(before, pml4, pdpt, pd)
    requires Built(before, mem1, physical, pml4, pdpt, pd) && Pml4e(va) != LAST && Pml4e(va) != MMU_RE
    ensures Walk(WithSelfSlot(mem1, pml4), pml4, va) == Missing(4)
  {
    assert Frame(pml4) == pml4;
    IndexBounds(va);
    SelfSlotReads(mem1, pml4, TableEntry(pml4));
    TableEntryBits(0);
    hide Slot, Frame, IsFrame, IsIndex, Pml4e, TableEntry, Directory, OnlyTables, Store;
    assert mem1(Slot(pml4, Pml4e(va))) == before(Slot(pml4, Pml4e(va))) == 0;
  }

  /** There is no table of the last level yet, and no 1 GB page. */
  lemma BootLeaves(before: Memory, mem1: Memory, physical: nat, pml4: bv64, pdpt: bv64, pd: bv64, va: bv64)
    requires ThreeFrames(pml4, pdpt, pd) && Cleared(before, pml4, pdpt, pd)
    requires Built(before, mem1, physical, pml4, pdpt, pd) && IsFrame(pml4) && Pml4e(va) != MMU_RE
    requires Leveled(WithSelfSlot(mem1, pml4), pml4, BootLevels(pml4, pdpt, pd))
    ensures var o := Walk(WithSelfSlot(mem1, pml4), pml4, va); o.Leaf? ==> o.level == 2
  {
    var level := BootLevels(pml4, pdpt, pd);
    assert forall t :: level(t) != 1 && (level(t) == 3 ==> t == pdpt);
    assert IsFrame(pdpt) && IsFrame(pd) && pdpt != pml4 && ZeroFrame(before, pdpt);
    assert Upper(before, mem1, pml4, pdpt, pd, Pdpte(ToWord(physical)));
    hide *;
    IndexBounds(va);
    PdptEntries(before, mem1, pml4, pdpt, pd, Pdpte(ToWord(physical)), Pdpte(va));
    SelfSlotElsewhere(mem1, pml4, pdpt, Pdpte(va));
    NoOtherLeaf(WithSelfSlot(mem1, pml4), pml4, level, pdpt, va);
  }

  lemma SelfSlotElsewhere(mem: Memory, cr3: bv64, t: bv64, i: bv64)
    requires IsFrame(cr3) && IsFrame(t) && t != cr3 && IsIndex(i)
    ensures WithSelfSlot(mem, cr3)(Slot(t, i)) == mem(Slot(t, i))
  {
    hide Slot, IsFrame, IsIndex, Store, TableEntry;
    SelfSlotReads(mem, cr3, TableEntry(cr3));
  }

  lemma NoOtherLeaf(mem: Memory, cr3: bv64, level: Levels, pdpt: bv64, va: bv64)
    requires IsFrame(cr3) && Leveled(mem, cr3, level) && Pml4e(va) != MMU_RE
    requires forall t :: level(t) != 1 && (level(t) == 3 ==> t == pdpt)
    requires !Large(mem(Slot(pdpt, Pdpte(va)))) || !Present(mem(Slot(pdpt, Pdpte(va))))
    ensures var o := Walk(mem, cr3, va); o.Leaf? ==> o.level == 2
  {
    assert Frame(cr3) == cr3;
    hide Slot, Frame, IsFrame, Pml4e, Pdpte, Pde, Pte, Leveled, Present, Large;
    var e4 := mem(Slot(cr3, Pml4e(va)));
    var e3 := mem(Slot(Frame(e4), Pdpte(va)));
    WalkLevels(mem, cr3, level, va, e4, e3, mem(Slot(Frame(e3), Pde(va))));
  }

  lemma PdptEntries(before: Memory, mem: Memory, pml4: bv64, pdpt: bv64, pd: bv64, low: bv64, i: bv64)
    requires Upper(before, mem, pml4, pdpt, pd, low) && ZeroFrame(before, pdpt) && IsFrame(pd) && IsIndex(i)
    ensures !Large(mem(Slot(pdpt, i))) || !Present(mem(Slot(pdpt, i)))
  {
    TableEntryBits(pd);
    hide Slot, IsIndex, IsFrame, Frame, TableEntry;
    assert mem(Slot(pdpt, i)) == TableEntry(pd) || mem(Slot(pdpt, i)) == before(Slot(pdpt, i)) == 0;
  }

  /** When nothing is mapped over, a mapping needs as many frames in the window as tables. */
  lemma MappableFresh(mem: Memory, cr3: bv64, level: Levels, spare: seq<bv64>, va: bv64)
    requires Sound(mem, cr3, level, spare) && WindowOk(mem, cr3, level, []) && Pml4e(va) != MMU_RE
    requires var o := Walk(mem, cr3, va); o.Leaf? ==> o.level == 2
    ensures var n := Needed(Walk(mem, cr3, va));
            Mappable(mem, cr3, level, spare, va) <==>
            |spare| >= n && forall i :: 0 <= i < n ==> InWindow(mem, cr3, spare[i])
  {
    var n := Needed(Walk(mem, cr3, va));
    hide Sound, Walk, Pml4e, InWindow, Frame, Needed;
    if |spare| >= n {
      assert forall i :: 0 <= i < n ==> spare[..n][i] == spare[i];
      WindowOkIff(mem, cr3, level, spare[..n]);
    }
  }

  lemma WindowOkIff(mem: Memory, cr3: bv64, level: Levels, near: seq<bv64>)
    requires WindowOk(mem, cr3, level, [])
    ensures WindowOk(mem, cr3, level, near) <==> forall i :: 0 <= i < |near| ==> InWindow(mem, cr3, near[i])
  {
    hide InWindow, Frame;
    if WindowOk(mem, cr3, level, near) {
      forall i | 0 <= i < |near| ensures InWindow(mem, cr3, near[i]) {
        assert Usable(level, near, Frame(cr3), near[i]);
      }
    }
    forall f | Usable(level, near, Frame(cr3), f) ensures Usable(level, [], Frame(cr3), f) || f in near {
    }
  }

  /** After the boot an address can be mapped if and only if there is a free frame for every
      table that is missing, and these first free frames are below `mapped`. */
  lemma {:induction false} MappableAfterBoot(regions: seq<MarkRuns.Region>, kernelEnd: nat, flags: nat -> bv64,
                                             mem: Memory, s: Frames.Pool, mem1: Memory, page: nat, va: bv64)
    requires BootConditions(regions, kernelEnd, flags, mem) && BootState(regions, kernelEnd, flags, mem, s, mem1)
    requires page == Layout.PlanFor(MarkRuns.HighestAddress(regions), kernelEnd).tables / Sizes.PAGE_SIZE
    requires Pml4e(va) != MMU_RE && Rings.Distinct(ListsAfter(s, regions, kernelEnd).free)
    ensures var free, mem' := ListsAfter(s, regions, kernelEnd).free, WithSelfSlot(mem1, Address(page));
            Mappable(mem', Address(page), BootLevels(Address(page), Address(page + 1), Address(page + 2)),
                     Addresses(free), va) <==>
            FirstBelow(free, Needed(Walk(mem', Address(page), va)),
                       Layout.PlanFor(MarkRuns.HighestAddress(regions), kernelEnd).mapped)
    ensures Pml4e(va) != LAST ==> Needed(Walk(WithSelfSlot(mem1, Address(page)), Address(page), va)) == 3
  {
    var plan := Layout.PlanFor(MarkRuns.HighestAddress(regions), kernelEnd);
    var free := ListsAfter(s, regions, kernelEnd).free;
    StateUnfolds(regions, kernelEnd, flags, mem, s, mem1, plan, page);
    hide *;
    BootableUnfolds(regions, kernelEnd, flags, mem, plan, page);
    ListsOk(regions, kernelEnd, flags, mem, s);
    FreeBounded(regions, kernelEnd, flags, mem, s);
    MappableBuilt(mem, mem1, plan.mapped, page, free, va);
  }

  lemma {:induction false} StateUnfolds(regions: seq<MarkRuns.Region>, kernelEnd: nat, flags: nat -> bv64,
                                        mem: Memory, s: Frames.Pool, mem1: Memory, plan: Layout.Plan, page: nat)
    requires BootState(regions, kernelEnd, flags, mem, s, mem1)
    requires plan == Layout.PlanFor(MarkRuns.HighestAddress(regions), kernelEnd) &&
             page == plan.tables / Sizes.PAGE_SIZE
    ensures plan.numpages == Sizes.RoundUp(MarkRuns.HighestAddress(regions)) / Sizes.PAGE_SIZE
    ensures Marking.Placed(s.m, MarkRuns.EMPTY, plan.numpages)
    ensures forall p: nat :: s.flags(p) == Layout.InitialFlags(plan, flags)(p)
    ensures Built(mem, mem1, plan.mapped, Address(page), Address(page + 1), Address(page + 2))
  {
    assert plan.numpages == Sizes.RoundUp(MarkRuns.HighestAddress(regions)) / Sizes.PAGE_SIZE;
    hide Layout.PlanFor, MarkRuns.HighestAddress, Marking.Placed, Layout.InitialFlags, Built, Address;
  }

  lemma {:induction false} FreeBounded(regions: seq<MarkRuns.Region>, kernelEnd: nat, flags: nat -> bv64, mem: Memory,
                                       s: Frames.Pool)
    requires BootConditions(regions, kernelEnd, flags, mem)
    requires Marking.Placed(s.m, MarkRuns.EMPTY, Sizes.RoundUp(MarkRuns.HighestAddress(regions)) / Sizes.PAGE_SIZE)
    ensures forall p :: p in ListsAfter(s, regions, kernelEnd).free ==> p * Sizes.PAGE_SIZE < MEMORY_LIMIT
  {
    ConditionBounds(regions, kernelEnd, flags, mem);
    hide BootConditions, Marking.Placed, ListsAfter, Marking.Protected, Sizes.RoundUp, MarkRuns.HighestAddress,
      FreeByMap, UsedByMap, LruByMap;
    forall p | p in ListsAfter(s, regions, kernelEnd).free ensures p * Sizes.PAGE_SIZE < MEMORY_LIMIT {
      PagesAfter(s, regions, kernelEnd, p);
      FreePagesBounded(regions, kernelEnd, p);
    }
  }

  lemma {:induction false} MappableBuilt(mem: Memory, mem1: Memory, physical: nat, page: nat, free: seq<nat>, va: bv64)
    requires Cleared(mem, Address(page), Address(page + 1), Address(page + 2))
    requires Built(mem, mem1, physical, Address(page), Address(page + 1), Address(page + 2))
    requires (page + 3) * Sizes.PAGE_SIZE <= physical <= GIGABYTE && physical % Layout.LARGE_PAGE == 0
    requires Rings.Distinct(free) && forall p :: page <= p < page + 3 ==> p !in free
    requires forall p :: p in free ==> p < 0x100_0000_0000 && ZeroFrame(mem, Address(p))
    requires forall p :: p in free ==> p * Sizes.PAGE_SIZE < MEMORY_LIMIT
    requires Pml4e(va) != MMU_RE
    ensures var mem' := WithSelfSlot(mem1, Address(page));
            Mappable(mem', Address(page), BootLevels(Address(page), Address(page + 1), Address(page + 2)),
                     Addresses(free), va) <==>
            FirstBelow(free, Needed(Walk(mem', Address(page), va)), physical)
    ensures Pml4e(va) != LAST ==> Needed(Walk(WithSelfSlot(mem1, Address(page)), Address(page), va)) == 3
  {
    var pml4, pdpt, pd := Address(page), Address(page + 1), Address(page + 2);
    var level, spare, mem' := BootLevels(pml4, pdpt, pd), Addresses(free), WithSelfSlot(mem1, pml4);
    hide *;
    BuiltTables(mem, mem1, physical, page);
    BootSound(mem, mem1, physical, page, free);
    BootLeaves(mem, mem1, physical, pml4, pdpt, pd, va);
    if Pml4e(va) != LAST {
      NothingElseMapped(mem, mem1, physical, pml4, pdpt, pd, va);
      AllMissing();
    }
    MappableFresh(mem', pml4, level, spare, va);
    FreeInWindow(mem, mem1, physical, pml4, pdpt, pd, free, Needed(Walk(mem', pml4, va)));
  }

  lemma AllMissing()
    ensures Needed(Missing(4)) == 3
  {
  }

  lemma FreeInWindow(mem: Memory, mem1: Memory, physical: nat, pml4: bv64, pdpt: bv64, pd: bv64, free: seq<nat>, n: nat)
    requires ThreeFrames(pml4, pdpt, pd) && Cleared(mem, pml4, pdpt, pd)
    requires Built(mem, mem1, physical, pml4, pdpt, pd)
    requires physical <= GIGABYTE && physical % Layout.LARGE_PAGE == 0
    requires forall p :: p in free ==> p * Sizes.PAGE_SIZE < MEMORY_LIMIT
    ensures FirstBelow(free, n, physical) <==>
            |Addresses(free)| >= n &&
            forall i :: 0 <= i < n ==> InWindow(WithSelfSlot(mem1, pml4), pml4, Addresses(free)[i])
  {
    hide *;
    AddressesAre(free);
    BelowUnfolds(free, n, physical);
    forall i | 0 <= i < |free|
      ensures InWindow(WithSelfSlot(mem1, pml4), pml4, Addresses(free)[i]) <==> free[i] * Sizes.PAGE_SIZE < physical
    {
      assert free[i] in free;
      PageInWindowIff(mem, mem1, physical, pml4, pdpt, pd, free[i]);
    }
  }

  lemma AddressesAre(free: seq<nat>)
    ensures |Addresses(free)| == |free| && forall i :: 0 <= i < |free| ==> Addresses(free)[i] == Address(free[i])
  {
    hide Address;
  }

  lemma BelowUnfolds(free: seq<nat>, n: nat, bound: nat)
    ensures FirstBelow(free, n, bound) <==> |free| >= n && forall i :: 0 <= i < n ==> free[i] * Sizes.PAGE_SIZE < bound
  {
  }

  lemma BootSound(mem: Memory, mem1: Memory, physical: nat, page: nat, free: seq<nat>)
    requires Cleared(mem, Address(page), Address(page + 1), Address(page + 2))
    requires Built(mem, mem1, physical, Address(page), Address(page + 1), Address(page + 2))
    requires (page + 3) * Sizes.PAGE_SIZE <= physical <= GIGABYTE
    requires Rings.Distinct(free) && forall p :: page <= p < page + 3 ==> p !in free
    requires forall p :: p in free ==> p < 0x100_0000_0000 && ZeroFrame(mem, Address(p))
    ensures var level := BootLevels(Address(page), Address(page + 1), Address(page + 2));
            var mem' := WithSelfSlot(mem1, Address(page));
            && Sound(mem', Address(page), level, Addresses(free)) && WindowOk(mem', Address(page), level, [])
            && Leveled(mem', Address(page), level)
  {
    var level := BootLevels(Address(page), Address(page + 1), Address(page + 2));
    assert page + 2 < 0x100_0000_0000 && forall i :: 0 <= i < |free| ==> free[i] in free;
    SelfSlotIs(mem1, Address(page));
    hide *;
    BuiltTables(mem, mem1, physical, page);
    BuiltOnlyTables(mem, mem1, physical, Address(page), Address(page + 1), Address(page + 2));
    FreeFramesOk(mem, mem1, page, free);
    SelfSlotInstalled(mem1, Address(page), level, Addresses(free));
    BootTablesLeveled(mem1, Address(page), level);
    SelfSlotLevels(mem1, Address(page), level, TableEntry(Address(page)));
  }

  lemma SelfSlotIs(mem: Memory, cr3: bv64)
    ensures WithSelfSlot(mem, cr3) == Store(mem, Slot(cr3, MMU_RE), TableEntry(cr3))
  {
  }

  // ----- the first three free frames, from the memory map -----

  /** The page is free after `pmm_init`. */
  predicate FreePage(regions: seq<MarkRuns.Region>, kernelEnd: nat, flags: nat -> bv64, p: nat) {
    var plan := Layout.PlanFor(MarkRuns.HighestAddress(regions), kernelEnd);
    !Marking.Protected(Layout.InitialFlags(plan, flags)(p)) && FreeByMap(regions, kernelEnd, p)
  }

  /** There are three free pages below `bound`. */
  ghost predicate ThreeFreeBelow(regions: seq<MarkRuns.Region>, kernelEnd: nat, flags: nat -> bv64, bound: nat) {
    exists p: nat, q: nat, r: nat :: p < q < r && r * Sizes.PAGE_SIZE < bound && FreePage(regions, kernelEnd, flags, p)
      && FreePage(regions, kernelEnd, flags, q) && FreePage(regions, kernelEnd, flags, r)
  }

  lemma ThreeDistinct(free: seq<nat>)
    requires Rings.Distinct(free) && |free| >= 3
    ensures free[0] != free[1] && free[0] != free[2] && free[1] != free[2]
  {
  }

  /** In an ascending list the smallest come first. */
  lemma SmallestFirst(free: seq<nat>, p: nat, q: nat, r: nat)
    requires Ascending(free) && p < q < r && p in free && q in free && r in free
    ensures |free| >= 3 && free[0] <= r && free[1] <= r && free[2] <= r
  {
    var i :| 0 <= i < |free| && free[i] == p;
    var j :| 0 <= j < |free| && free[j] == q;
    var k :| 0 <= k < |free| && free[k] == r;
    assert i < j < k;
  }

  /** If the first three free frames are below a bound, so are three free pages of the map.
      The converse holds for a map in ascending order, whose lowest free pages come first. */
  lemma {:induction false} FirstThreeIff(s: Frames.Pool, regions: seq<MarkRuns.Region>, kernelEnd: nat,
                                         flags: nat -> bv64, bound: nat)
    requires kernelEnd <= MarkRuns.HighestAddress(regions) < Sizes.WORD - Sizes.PAGE_SIZE
    requires Marking.Placed(s.m, MarkRuns.EMPTY, Sizes.RoundUp(MarkRuns.HighestAddress(regions)) / Sizes.PAGE_SIZE)
    requires var plan := Layout.PlanFor(MarkRuns.HighestAddress(regions), kernelEnd);
             forall p: nat :: s.flags(p) == Layout.InitialFlags(plan, flags)(p)
    requires Rings.Distinct(ListsAfter(s, regions, kernelEnd).free)
    ensures FirstBelow(ListsAfter(s, regions, kernelEnd).free, 3, bound) ==>
            ThreeFreeBelow(regions, kernelEnd, flags, bound)
    ensures AscendingMap(regions, MarkRuns.HighestAddress(regions)) ==>
            (ThreeFreeBelow(regions, kernelEnd, flags, bound) ==>
             FirstBelow(ListsAfter(s, regions, kernelEnd).free, 3, bound))
  {
    var free := ListsAfter(s, regions, kernelEnd).free;
    hide Marking.Placed, ListsAfter, Marking.Protected, Sizes.RoundUp, MarkRuns.HighestAddress, Layout.PlanFor,
      Layout.InitialFlags, FreeByMap, UsedByMap, LruByMap, Rings.Distinct, AscendingMap, Ascending;
    forall p: nat ensures p in free <==> FreePage(regions, kernelEnd, flags, p) {
      PagesAfter(s, regions, kernelEnd, p);
    }
    hide FreePage;
    if FirstBelow(free, 3, bound) {
      ThreeDistinct(free);
      var (p, q, r) := Sorted(free[0], free[1], free[2]);
      assert p in free && q in free && r in free;
    }
    if AscendingMap(regions, MarkRuns.HighestAddress(regions)) && ThreeFreeBelow(regions, kernelEnd, flags, bound) {
      FreeListAscends(s, regions, kernelEnd);
      var p: nat, q: nat, r: nat :| p < q < r && r * Sizes.PAGE_SIZE < bound && FreePage(regions, kernelEnd, flags, p)
        && FreePage(regions, kernelEnd, flags, q) && FreePage(regions, kernelEnd, flags, r);
      SmallestFirst(free, p, q, r);
    }
  }

  function Sorted(a: nat, b: nat, c: nat): (nat, nat, nat) {
    if a < b then (if b < c then (a, b, c) else if a < c then (a, c, b) else (c, a, b))
    else (if a < c then (b, a, c) else if b < c then (b, c, a) else (c, b, a))
  }

  /** With bootstrap tables, no page below the end of the page array is free. */
  lemma {:induction false} FreeAboveArray(regions: seq<MarkRuns.Region>, kernelEnd: nat, flags: nat -> bv64,
                                          mem: Memory, p: nat)
    requires BootConditions(regions, kernelEnd, flags, mem) && FreePage(regions, kernelEnd, flags, p)
    ensures var plan := Layout.PlanFor(MarkRuns.HighestAddress(regions), kernelEnd);
            p >= plan.structs / Sizes.PAGE_SIZE + plan.frames
  {
    var plan := Layout.PlanFor(MarkRuns.HighestAddress(regions), kernelEnd);
    var page := plan.tables / Sizes.PAGE_SIZE;
    hide BootConditions, Layout.PlanFor, MarkRuns.HighestAddress, Layout.InitialFlags, Marking.Protected, LastRegion;
    BootableUnfolds(regions, kernelEnd, flags, mem, plan, page);
    if Layout.HoldsArray(plan, p) || Layout.HoldsTable(plan, p) {
      Layout.ReservedIsProtected(plan, flags, p);
    }
  }

  /** So a first mapping needs three pages between the end of the array and that of the window. */
  lemma {:induction false} RoomAboveArray(regions: seq<MarkRuns.Region>, kernelEnd: nat, flags: nat -> bv64,
                                          mem: Memory)
    requires BootConditions(regions, kernelEnd, flags, mem)
    requires ThreeFreeBelow(regions, kernelEnd, flags,
                            Layout.PlanFor(MarkRuns.HighestAddress(regions), kernelEnd).mapped)
    ensures var plan := Layout.PlanFor(MarkRuns.HighestAddress(regions), kernelEnd);
            (plan.structs / Sizes.PAGE_SIZE + plan.frames + 3) * Sizes.PAGE_SIZE <= plan.mapped
  {
    var plan := Layout.PlanFor(MarkRuns.HighestAddress(regions), kernelEnd);
    hide BootConditions, Layout.PlanFor, MarkRuns.HighestAddress, FreePage;
    var p: nat, q: nat, r: nat :| p < q < r && r * Sizes.PAGE_SIZE < plan.mapped
      && FreePage(regions, kernelEnd, flags, p) && FreePage(regions, kernelEnd, flags, q)
      && FreePage(regions, kernelEnd, flags, r);
    FreeAboveArray(regions, kernelEnd, flags, mem, p);
    BootableUnfolds(regions, kernelEnd, flags, mem, plan, plan.tables / Sizes.PAGE_SIZE);
    hide *;
    PagesBelow(plan.structs / Sizes.PAGE_SIZE + plan.frames, r, plan.mapped);
  }

  lemma PagesBelow(end: nat, r: nat, mapped: nat)
    requires end + 2 <= r && r * Sizes.PAGE_SIZE < mapped && mapped % Layout.LARGE_PAGE == 0
    ensures (end + 3) * Sizes.PAGE_SIZE <= mapped
  {
  }

  /** An address that no table covers can be mapped after the boot only if three free pages are
      below `mapped`, and for a map in ascending order that is enough. */
  lemma {:induction false} MappableByMap(regions: seq<MarkRuns.Region>, kernelEnd: nat, flags: nat -> bv64,
                                         mem: Memory, s: Frames.Pool, mem1: Memory, page: nat, va: bv64)
    requires BootConditions(regions, kernelEnd, flags, mem) && BootState(regions, kernelEnd, flags, mem, s, mem1)
    requires page == Layout.PlanFor(MarkRuns.HighestAddress(regions), kernelEnd).tables / Sizes.PAGE_SIZE
    requires Pml4e(va) != LAST && Pml4e(va) != MMU_RE && Rings.Distinct(ListsAfter(s, regions, kernelEnd).free)
    ensures var mappable := Mappable(WithSelfSlot(mem1, Address(page)), Address(page),
                                     BootLevels(Address(page), Address(page + 1), Address(page + 2)),
                                     Addresses(ListsAfter(s, regions, kernelEnd).free), va);
            var room := ThreeFreeBelow(regions, kernelEnd, flags,
                                       Layout.PlanFor(MarkRuns.HighestAddress(regions), kernelEnd).mapped);
            && (mappable ==> room)
            && (AscendingMap(regions, MarkRuns.HighestAddress(regions)) ==> (mappable <==> room))
    ensures Needed(Walk(WithSelfSlot(mem1, Address(page)), Address(page), va)) == 3
  {
    var plan := Layout.PlanFor(MarkRuns.HighestAddress(regions), kernelEnd);
    ConditionBounds(regions, kernelEnd, flags, mem);
    assert MEMORY_LIMIT <= Sizes.WORD - Sizes.PAGE_SIZE;
    hide *;
    StateUnfolds(regions, kernelEnd, flags, mem, s, mem1, plan, page);
    MappableAfterBoot(regions, kernelEnd, flags, mem, s, mem1, page, va);
    FirstThreeIff(s, regions, kernelEnd, flags, plan.mapped);
  }

  // ----- two machines -----

  /** With 512 MB there are three free frames in the window. */
  lemma HalfGigabyteMaps()
    ensures Bootable(HALF_GIGABYTE, 0x11_0000, _ => 0, _ => 0)
    ensures AscendingMap(HALF_GIGABYTE, MarkRuns.HighestAddress(HALF_GIGABYTE))
    ensures ThreeFreeBelow(HALF_GIGABYTE, 0x11_0000, _ => 0,
                           Layout.PlanFor(MarkRuns.HighestAddress(HALF_GIGABYTE), 0x11_0000).mapped)
  {
    HalfGigabyteBoots();
    HalfGigabytePlan();
    assert HALF_GIGABYTE[..0] == [];
    hide Bootable, Layout.PlanFor;
    HalfGigabyteFree(0x919);
    HalfGigabyteFree(0x91A);
    HalfGigabyteFree(0x91B);
  }

  lemma HalfGigabyteFree(p: nat)
    requires 0x919 <= p <= 0x91B
    ensures FreePage(HALF_GIGABYTE, 0x11_0000, _ => 0, p)
  {
    HalfGigabytePlan();
    assert !Marking.Protected(0);
    hide Layout.PlanFor, Marking.Protected;
    assert LastRegion(HALF_GIGABYTE, 0x2010_0000, p) == MarkRuns.OnFree;
    var plan := Layout.PlanFor(0x2010_0000, 0x11_0000);
    assert !Layout.HoldsArray(plan, p) && !Layout.HoldsTable(plan, p);
  }

  const FULL_MAP: seq<MarkRuns.Region> := [MarkRuns.Region(0x10_0000, 0x139E_0000, true)]

  /** A machine with 315 MB boots, but the array and the tables fill the window: then no address
      that no table covers can be mapped. */
  lemma FullWindow(flags: nat -> bv64, mem: Memory)
    requires BootConditions(FULL_MAP, 0x11_0000, flags, mem)
    ensures !ThreeFreeBelow(FULL_MAP, 0x11_0000, flags,
                            Layout.PlanFor(MarkRuns.HighestAddress(FULL_MAP), 0x11_0000).mapped)
  {
    FullPlan();
    hide BootConditions, Layout.PlanFor, ThreeFreeBelow;
    if ThreeFreeBelow(FULL_MAP, 0x11_0000, flags,
                      Layout.PlanFor(MarkRuns.HighestAddress(FULL_MAP), 0x11_0000).mapped) {
      RoomAboveArray(FULL_MAP, 0x11_0000, flags, mem);
    }
  }

  lemma FullWindowBoots()
    ensures Bootable(FULL_MAP, 0x11_0000, _ => 0, _ => 0)
  {
    FullPlan();
    hide Address, Layout.PlanFor, Layout.RoomForTables, FreeByMap;
    assert forall p: nat :: !Reserved(FULL_MAP, MarkRuns.HighestAddress(FULL_MAP), p);
  }

  lemma FullPlan()
    ensures MarkRuns.HighestAddress(FULL_MAP) == 0x13AE_0000
    ensures var plan := Layout.PlanFor(0x13AE_0000, 0x11_0000);
            && plan.bootstrap && plan.mapped == 0x60_0000 && plan.tables == 0x11_1000
            && plan.structs / Sizes.PAGE_SIZE + plan.frames <= plan.numpages && Layout.RoomForTables(plan)
            && (plan.structs / Sizes.PAGE_SIZE + plan.frames) * Sizes.PAGE_SIZE >= plan.mapped
  {
    hide Layout.PlanFor;
    Layout.PlanIs(0x13AE_0000, 0x11_0000);
  }

  // ----- the boot and the page for the other processors -----

  const AP_ENTRY: bv64 := 0x8000

  lemma BitsEntryPage(va: bv64)
    requires va & !(0x1000 - 1) == 0x8000
    ensures (va >> 39) & 0x1FF == 0 && (va >> 30) & 0x1FF == 0 && (va >> 21) & 0x1FF == 0 && (va >> 12) & 0x1FF == 8
    ensures va >> 47 == 0 && 0x8000 | (va & 0xFFF) == va
  {
  }

  lemma EntryPage(va: bv64)
    requires PageBase(va) == AP_ENTRY
    ensures Canonical(va) && AP_ENTRY | Offset(va) == va
  {
    BitsEntryPage(va);
  }

  lemma EntryFlags()
    ensures PageBase(AP_ENTRY) == AP_ENTRY && IsFrame(AP_ENTRY)
    ensures PRESENT | RW < 0x1000 && (PRESENT | RW) & PRESENT != 0
  {
  }

  /** All of the page is then found at its own address. */
  lemma EntryMapped(mem: Memory, mem': Memory, cr3: bv64, data: bv64)
    requires Needed(Walk(mem, cr3, AP_ENTRY)) == 3
    requires Mapped(mem, mem', cr3, AP_ENTRY, AP_ENTRY, PRESENT | RW, data)
    ensures data == AP_ENTRY && forall va :: PageBase(va) == AP_ENTRY ==> Translate(mem', cr3, va) == Some(va)
  {
    assert !CoveredBy2M(mem, cr3, AP_ENTRY) by {
      hide Walk;
    }
    EntryFlags();
    hide Walk, Translate, VirtToPhys, Canonical, PageBase, Offset, IsFrame, CoveredBy2M, Frame;
    forall va | PageBase(va) == AP_ENTRY ensures Translate(mem', cr3, va) == Some(va) {
      EntryPage(va);
    }
  }

  /** The boot, and then the mapping of the page for the other processors as if it were the
      first: with three free frames in the window it succeeds, and the page is found at its own
      address. */
  method BootAndMapEntry(regions: seq<MarkRuns.Region>, kernelEnd: nat, m: Rings.Links, flags: nat -> bv64,
                         mem: Memory)
    returns (mm: MemoryManager, data: bv64)
    requires Bootable(regions, kernelEnd, flags, mem) && AscendingMap(regions, MarkRuns.HighestAddress(regions))
    requires ThreeFreeBelow(regions, kernelEnd, flags,
                            Layout.PlanFor(MarkRuns.HighestAddress(regions), kernelEnd).mapped)
    ensures fresh(mm) && mm.Valid() && data == AP_ENTRY
    ensures forall va :: PageBase(va) == AP_ENTRY ==> Translate(mm.mem, mm.cr3, va) == Some(va)
  {
    hide Bootable, AscendingMap, ThreeFreeBelow, MarkRuns.HighestAddress, Layout.PlanFor, BootConditions, BootState,
      ArrayAtPlace, ListsAfter, Address, BootLevels, WithSelfSlot, Mappable, Sound, WindowOk, Walk, Needed, Translate,
      PageBase, LeafEntry, Effects, Mapped, Flagged, Mapping.MapPage, Frames.Represents, Frames.Clean,
      Rings.Distinct, ToWord;
    ghost var s, mem1, slot, taken;
    mm, s, mem1 := KernelBoot(regions, kernelEnd, m, flags, mem);
    ghost var page := Layout.PlanFor(MarkRuns.HighestAddress(regions), kernelEnd).tables / Sizes.PAGE_SIZE;
    BootableSplits(regions, kernelEnd, flags, mem);
    FreeDistinct(mm.frames);
    BitsEntryPage(AP_ENTRY);
    MappableByMap(regions, kernelEnd, flags, mem, s, mem1, page, AP_ENTRY);
    ghost var mem0 := mm.mem;
    data, slot, taken := mm.MapPage(AP_ENTRY, AP_ENTRY, PRESENT | RW);
    EntryMapped(mem0, mm.mem, mm.cr3, data);
  }
}
