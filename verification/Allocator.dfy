/** The allocator as the kernel runs it: methods that update the page structs in
    place, proved to do what the functions on `Pool` and on `Lists` say. */
module Allocator {
  import opened Sizes
  import Words
  import opened Rings
  import opened Frames
  import opened FrameRuns
  import opened Marking
  import opened MarkRuns
  import opened Layout
  import opened MemoryMap

  lemma FreshIsPlaced(m: Links, n: nat)
    requires SelfLinked(m, FreeHead) && SelfLinked(m, UsedHead) && SelfLinked(m, LruHead)
    requires forall p: nat :: p < n ==> SelfLinked(m, PagesOf(p)) && SelfLinked(m, LruOf(p))
    ensures Placed(m, EMPTY, n)
  {
    SelfLinkedIsRing(m, FreeHead);
    SelfLinkedIsRing(m, UsedHead);
    SelfLinkedIsRing(m, LruHead);
    assert Pages([]) == [] && Lrus([]) == [];
    forall p: nat | p < n ensures Ring(m, PagesOf(p), []) && Ring(m, LruOf(p), []) {
      SelfLinkedIsRing(m, PagesOf(p));
      SelfLinkedIsRing(m, LruOf(p));
    }
  }

  class FrameAllocator {
    const links: ListMemory
    const numpages: nat
    var flags: nat -> bv64
    var numUsed: int
    var numFree: int
    var locked: bool
    ghost var lists: Lists

    ghost function View(): Pool
      reads this, links
    {
      Pool(links.View(), flags, numUsed, numFree)
    }

    /** The marking phase: every page is on the lists that `lists` says, or alone. */
    ghost predicate InMarking()
      reads this, links
    {
      !locked && Placed(links.View(), lists, numpages)
    }

    /** The allocation phase: lru is exactly the used pages. */
    ghost predicate Ready()
      reads this, links
    {
      !locked && Represents(links.View(), lists) && Clean(lists)
    }

    /** `page_init`, over structs with any previous contents. */
    constructor PageInit(memory: nat, table: nat, m: Links, before: nat -> bv64)
      requires table < memory < WORD - PAGE_SIZE
      requires var plan := PlanFor(memory, table); plan.structs / PAGE_SIZE + plan.frames <= plan.numpages
      ensures fresh(links) && InMarking() && lists == EMPTY && numUsed == numFree == 0
      ensures numpages == PlanFor(memory, table).numpages
      ensures forall p: nat :: flags(p) == InitialFlags(PlanFor(memory, table), before)(p)
    {
      var plan := PlanFor(memory, table);
      links := new ListMemory(m);
      numpages := plan.numpages;
      flags, numUsed, numFree, locked := before, 0, 0, false;
      lists := EMPTY;
      new;
      hide Placed, PlanFor, InitialFlags;
      InitNodes();
      FlagReserved(plan);
    }

    /** The part of `page_init` that flags the frames in use. */
    method FlagReserved(plan: Plan)
      modifies this`flags
      ensures forall p: nat :: flags(p) == InitialFlags(plan, old(flags))(p)
    {
      if plan.bootstrap {
        FlagRange(plan.tables / PAGE_SIZE, 3, P_IMMUTABLE | P_VIRT | P_KERNEL);
      }
      assert forall p: nat :: HoldsTable(plan, p) ==> flags(p) == P_IMMUTABLE | P_VIRT | P_KERNEL;
      assert forall p: nat :: !HoldsTable(plan, p) ==> flags(p) == old(flags)(p);
      FlagRange(plan.structs / PAGE_SIZE, plan.frames, P_IMMUTABLE | P_PHYS | P_KERNEL);
    }

    /** The loop of `page_init` that links every node to itself. */
    method InitNodes()
      modifies links
      ensures Placed(links.View(), EMPTY, numpages)
    {
      hide SelfLinked, Init, Placed;
      links.ListInit(FreeHead);
      links.ListInit(UsedHead);
      links.ListInit(LruHead);
      for i := 0 to numpages
        invariant SelfLinked(links.View(), FreeHead) && SelfLinked(links.View(), UsedHead) &&
                  SelfLinked(links.View(), LruHead)
        invariant forall p: nat :: p < i ==> SelfLinked(links.View(), PagesOf(p)) && SelfLinked(links.View(), LruOf(p))
      {
        links.ListInit(LruOf(i));
        links.ListInit(PagesOf(i));
      }
      FreshIsPlaced(links.View(), numpages);
    }

    /** One of the loops that flag frames. */
    method FlagRange(first: nat, count: nat, f: bv64)
      modifies this`flags
      ensures forall p: nat :: flags(p) == if first <= p < first + count then f else old(flags)(p)
    {
      for i := 0 to count
        invariant forall p: nat :: flags(p) == if first <= p < first + i then f else old(flags)(p)
      {
        flags := SetFlags(flags, first + i, f);
      }
    }

    method LockAcquire()
      requires !locked
      modifies this`locked
      ensures locked
    {
      locked := true;
    }

    method LockRelease()
      modifies this`locked
      ensures !locked
    {
      locked := false;
    }

    /** `page_mark_range`.  The bound on the range is what the source asserts. */
    method PageMarkRange(start: nat, end: nat, f: bv64) returns (r: int)
      requires InMarking() && start < WORD && end < WORD
      requires PastPage(Call(start, end, f)) <= numpages
      modifies this, links
      ensures r == if Accepted(Call(start, end, f)) then 0 else -1
      ensures InMarking() && View() == MarkRange(old(View()), Call(start, end, f))
      ensures lists == ApplyMarks(old(lists), LogRange(old(View()), Call(start, end, f)))
    {
      hide Placed, MarkPage, LogPages, ApplyMarks, RoundUp, RoundDown;
      ghost var c := Call(start, end, f);
      OneMark(lists, []);
      if start > end {
        return -1;
      } else if f & (P_USED | P_FREE) == P_USED | P_FREE {
        return -1;
      } else if f & (P_USED | P_FREE) == 0 {
        return -1;
      }
      var s := RoundDown(start) / PAGE_SIZE;
      var e := RoundUp(end) / PAGE_SIZE;
      ghost var log := LogRange(View(), c);
      MarkPagesRefines(View(), lists, numpages, s, e, f);
      LockAcquire();
      while s < e
        invariant locked && lists == old(lists)
        invariant MarkPages(View(), s, e, f) == MarkRange(old(View()), c)
        decreases e - s
      {
        MarkOne(s, f);
        s := s + 1;
      }
      LockRelease();
      lists := ApplyMarks(lists, log);
      return 0;
    }

    /** The body of the loop of `page_mark_range`. */
    method MarkOne(p: nat, f: bv64)
      modifies this`flags, this`numUsed, this`numFree, links
      ensures View() == MarkPage(old(View()), p, f)
    {
      if flags(p) & (P_PHYS | P_VIRT) != 0 {
        return;
      }
      flags := SetFlags(flags, p, f);
      if f & P_USED != 0 {
        links.ListMoveTail(UsedHead, PagesOf(p));
        links.ListMoveTail(LruHead, LruOf(p));
        numUsed := numUsed + 1;
      } else {
        links.ListMoveTail(FreeHead, PagesOf(p));
        numFree := numFree + 1;
      }
    }

    /** `page_alloc`: the first page of the free list, or nothing when there is none. */
    method PageAlloc() returns (r: Words.Option<nat>)
      requires Ready()
      modifies this, links
      ensures Ready() && flags == old(flags)
      ensures r == if old(lists.free) == [] then Words.None else Words.Some(old(lists.free)[0])
      ensures lists == if r.None? then old(lists) else TakeFirst(old(lists))
      ensures r.Some? ==> [r.value] + lists.free == old(lists.free) && lists.used == [r.value] + old(lists.used) &&
                          lists.lru == old(lists.lru) + [r.value]
      ensures numUsed - old(numUsed) == old(numFree) - numFree == if r.Some? then 1 else 0
      ensures View() == Frames.PageAlloc(old(View())).0
      ensures SameDrift(old(View()), old(lists), View(), lists)
    {
      hide Ring, AddTail, Move;
      ghost var s, l := View(), lists;
      AllocStep(s, l);
      HeadLinks(s.m, FreeHead, Pages(l.free));
      if links.next(FreeHead) == FreeHead {
        return Words.None;
      }
      LockAcquire();
      var p := links.next(FreeHead).page;
      links.ListAddTail(LruHead, LruOf(p));
      links.ListMove(UsedHead, PagesOf(p));
      numUsed := numUsed + 1;
      numFree := numFree - 1;
      lists := TakeFirst(lists);
      LockRelease();
      return Words.Some(p);
    }

    /** `page_free` of a page that is in use. */
    method PageFree(p: nat)
      requires Ready() && p in lists.used
      modifies this, links
      ensures Ready() && flags == old(flags)
      ensures lists == GiveBack(old(lists), p) && lists.free == old(lists.free) + [p]
      ensures numFree - old(numFree) == old(numUsed) - numUsed == 1
      ensures View() == Frames.PageFree(old(View()), p)
      ensures SameDrift(old(View()), old(lists), View(), lists)
    {
      FreeStep(View(), lists, p);
      LockAcquire();
      links.ListMoveTail(FreeHead, PagesOf(p));
      links.ListDel(LruOf(p));
      numUsed := numUsed - 1;
      numFree := numFree + 1;
      lists := GiveBack(lists, p);
      LockRelease();
    }

    /** The part of `mmu_init` that takes the page of the PML4 off the lists for good. */
    method Retire(p: nat, f: bv64)
      requires Ready() && Retirable(links.View(), lists, p)
      modifies this, links
      ensures Ready() && lists == WithoutPage(old(lists), p)
      ensures flags == SetFlags(old(flags), p, f)
    {
      hide Represents, Clean, Retirable, WithoutPage, Del;
      RetirePage(links.View(), lists, p);
      flags := SetFlags(flags, p, f);
      links.ListDel(PagesOf(p));
      links.ListDel(LruOf(p));
      lists := WithoutPage(lists, p);
    }

    /** `page_lru`: the page addresses that it prints, in lru order. */
    method PageLru() returns (addresses: seq<nat>)
      requires Ready()
      ensures |addresses| == |lists.lru|
      ensures forall i :: 0 <= i < |lists.lru| ==> addresses[i] == lists.lru[i] * PAGE_SIZE
    {
      var visited := links.ForEach(LruHead, Lrus(lists.lru));
      addresses := seq(|visited|, i requires 0 <= i < |visited| && visited[i].LruOf? => visited[i].page * PAGE_SIZE);
    }
  }

  lemma {:induction false} RegionCallsPrefix(regions: seq<Region>, i: nat, highest: nat)
    requires i < |regions|
    ensures HighestAddress(regions[..i + 1]) ==
            if regions[i].usable then End(regions[i]) else HighestAddress(regions[..i])
    ensures RegionCalls(regions[..i + 1], highest) ==
              if End(regions[i]) > highest then RegionCalls(regions[..i], highest)
              else RegionCalls(regions[..i], highest) + [CallFor(regions[i])]
  {
    assert regions[..i + 1][..i] == regions[..i];
  }

  /** The first loop of `pmm_init`. */
  method FindHighest(regions: seq<Region>) returns (highest: nat)
    ensures highest == HighestAddress(regions)
  {
    highest := 0;
    for i := 0 to |regions|
      invariant highest == HighestAddress(regions[..i])
    {
      RegionCallsPrefix(regions, i, 0);
      if regions[i].usable {
        highest := End(regions[i]);
      }
    }
    assert regions[..|regions|] == regions;
  }

  /** The second loop of `pmm_init` and the call after it. */
  method MarkMemory(a: FrameAllocator, regions: seq<Region>, highest: nat, kernelEnd: nat)
    requires a.InMarking() && a.lists == EMPTY && a.numpages == RoundUp(highest) / PAGE_SIZE
    requires forall r :: r in regions ==> r.base < WORD
    requires kernelEnd <= highest < WORD - PAGE_SIZE
    modifies a, a.links
    ensures a.InMarking()
    ensures a.View() == MarkAll(old(a.View()), PmmCalls(regions, highest, kernelEnd))
    ensures a.lists == ApplyMarks(EMPTY, LogAll(old(a.View()), PmmCalls(regions, highest, kernelEnd)))
  {
    hide MarkRange, LogRange, Placed, RoundUp, MarkAll, LogAll, RegionCalls, Protected;
    ghost var s := a.View();
    RegionCallsFit(regions, highest);
    NoRegions(s, highest);
    assert regions[..0] == [];
    for i := 0 to |regions|
      invariant a.InMarking()
      invariant a.View() == MarkAll(s, RegionCalls(regions[..i], highest))
      invariant a.lists == ApplyMarks(EMPTY, LogAll(s, RegionCalls(regions[..i], highest)))
    {
      var r := regions[i];
      RegionCallsPrefix(regions, i, highest);
      if End(r) <= highest {
        var f := if r.usable then P_FREE else P_USED;
        ghost var c := CallFor(r);
        RoundUpMonotone(End(r), highest);
        MarkAllAppend(s, EMPTY, RegionCalls(regions[..i], highest), c);
        var _ := a.PageMarkRange(r.base, End(r), f);
      }
    }
    assert regions[..|regions|] == regions;
    RoundUpMonotone(kernelEnd, highest);
    MarkAllAppend(s, EMPTY, RegionCalls(regions, highest), Call(0, kernelEnd, P_KERNEL | P_IMMUTABLE | P_USED));
    var _ := a.PageMarkRange(0, kernelEnd, P_KERNEL | P_IMMUTABLE | P_USED);
  }

  lemma {:induction false} NoRegions(s: Pool, highest: nat)
    ensures MarkAll(s, RegionCalls([], highest)) == s
    ensures ApplyMarks(EMPTY, LogAll(s, RegionCalls([], highest))) == EMPTY
  {
  }

  /** `pmm_init`: finds the highest usable address, sets up the page array behind the
      kernel, marks every region of the memory map that lies below that address, and last of
      all the kernel itself.  `s` is the state that `page_init` leaves.  No page up to the
      kernel's end is free, and the lists are fit for allocation just if the memory map takes
      no page back that it had reserved. */
  method PmmInit(regions: seq<Region>, kernelEnd: nat, m: Links, before: nat -> bv64)
    returns (a: FrameAllocator, ghost s: Pool)
    requires forall r :: r in regions ==> r.base < WORD
    requires kernelEnd < HighestAddress(regions) < WORD - PAGE_SIZE
    requires var plan := PlanFor(HighestAddress(regions), kernelEnd);
             plan.structs / PAGE_SIZE + plan.frames <= plan.numpages
    ensures a.InMarking() && fresh(a) && fresh(a.links)
    ensures a.numpages == RoundUp(HighestAddress(regions)) / PAGE_SIZE && Placed(s.m, EMPTY, a.numpages)
    ensures forall p: nat :: s.flags(p) == InitialFlags(PlanFor(HighestAddress(regions), kernelEnd), before)(p)
    ensures a.View() == MarkAll(s, PmmCalls(regions, HighestAddress(regions), kernelEnd))
    ensures a.lists == ListsAfter(s, regions, kernelEnd)
    ensures a.Ready() <==> forall p: nat :: Protected(s.flags(p)) || !Reclaimed(regions, kernelEnd, p)
    ensures forall p: nat :: p <= kernelEnd / PAGE_SIZE ==>
              p !in a.lists.free && (p in a.lists.used <==> !Protected(s.flags(p)))
  {
    var highest := FindHighest(regions);
    a := new FrameAllocator.PageInit(highest, kernelEnd, m, before);
    assert PlanFor(highest, kernelEnd).numpages == RoundUp(highest) / PAGE_SIZE;
    hide PlanFor, InitialFlags, MarkAll, LogAll, ApplyMarks, RoundUp, Reclaimed, PmmCalls, Protected, Clean;
    s := a.View();
    MarkMemory(a, regions, highest, kernelEnd);
    CleanIff(s, regions, kernelEnd);
    forall p: nat | p <= kernelEnd / PAGE_SIZE
      ensures p !in a.lists.free && (p in a.lists.used <==> !Protected(s.flags(p)))
    {
      KernelPagesNotFree(s, regions, kernelEnd, p);
    }
  }
}
