/** Where every page is after `pmm_init`, read off the memory map and the kernel's end. */
module MemoryMap {
  import opened Sizes
  import opened Rings
  import opened Frames
  import opened Marking
  import opened MarkRuns
  import opened Layout

  /** The region is marked, and page `p` is one of those it marks: from the page of its
      base to the page of its end. */
  predicate Marks(r: Region, highest: nat, p: nat) {
    r.base <= End(r) <= highest && r.base / PAGE_SIZE <= p <= End(r) / PAGE_SIZE
  }

  /** The place that the last region marking the page gives it. */
  function LastRegion(regions: seq<Region>, highest: nat, p: nat): Place
    decreases |regions|
  {
    if regions == [] then Nowhere else
    var r := regions[|regions| - 1];
    if Marks(r, highest, p) then (if r.usable then OnFree else OnUsed)
    else LastRegion(regions[..|regions| - 1], highest, p)
  }

  /** Some region that is not usable marks the page. */
  predicate Reserved(regions: seq<Region>, highest: nat, p: nat) {
    exists r :: r in regions && !r.usable && Marks(r, highest, p)
  }

  /** Some call that covers the page marks it USED. */
  predicate EverUsed(calls: seq<Call>, p: nat)
    decreases |calls|
  {
    calls != [] &&
    (EverUsed(calls[..|calls| - 1], p) || (Covers(calls[|calls| - 1], p) && MarksUsed(calls[|calls| - 1].flags)))
  }

  lemma {:induction false} LruFate(x: Fate, calls: seq<Call>, p: nat)
    requires !Protected(x.flags) && !x.inLru
    requires forall c :: c in calls ==> !Protected(c.flags)
    ensures !Protected(FateAfter(x, calls, p).flags) && (FateAfter(x, calls, p).inLru <==> EverUsed(calls, p))
    decreases |calls|
  {
    hide Protected, MarksUsed, Covers;
    if calls != [] {
      LruFate(x, calls[..|calls| - 1], p);
    }
  }

  lemma FlagBits()
    ensures MarksUsed(P_USED) && !MarksUsed(P_FREE) && !Protected(P_USED) && !Protected(P_FREE)
    ensures MarksUsed(P_KERNEL | P_IMMUTABLE | P_USED) && !Protected(P_KERNEL | P_IMMUTABLE | P_USED)
  {
  }

  lemma AcceptedIff(c: Call)
    requires c.flags == P_USED || c.flags == P_FREE || c.flags == P_KERNEL | P_IMMUTABLE | P_USED
    ensures Accepted(c) <==> c.start <= c.end
  {
  }

  lemma CallCovers(r: Region, highest: nat, p: nat)
    requires End(r) <= highest < WORD - PAGE_SIZE
    ensures Covers(CallFor(r), p) <==> Marks(r, highest, p)
    ensures MarksUsed(CallFor(r).flags) <==> !r.usable
  {
    hide Protected, MarksUsed, Accepted, FirstPage, PastPage;
    FlagBits();
    AcceptedIff(CallFor(r));
    if r.base <= End(r) {
      CoverageIsInclusive(CallFor(r), p);
    }
  }

  lemma {:induction false} LastAppend(calls: seq<Call>, c: Call, p: nat)
    ensures LastCovering(calls + [c], p) ==
            if Covers(c, p) then (if MarksUsed(c.flags) then OnUsed else OnFree) else LastCovering(calls, p)
    ensures EverUsed(calls + [c], p) <==> EverUsed(calls, p) || (Covers(c, p) && MarksUsed(c.flags))
  {
    hide Covers, MarksUsed;
    assert (calls + [c])[..|calls|] == calls;
  }

  lemma {:induction false} RegionAppend(regions: seq<Region>, r: Region, highest: nat, p: nat)
    ensures LastRegion(regions + [r], highest, p) ==
            if Marks(r, highest, p) then (if r.usable then OnFree else OnUsed) else LastRegion(regions, highest, p)
    ensures Reserved(regions + [r], highest, p) <==>
            Reserved(regions, highest, p) || (!r.usable && Marks(r, highest, p))
    ensures RegionCalls(regions + [r], highest) ==
            RegionCalls(regions, highest) + if End(r) <= highest then [CallFor(r)] else []
  {
    hide Marks, End;
    assert (regions + [r])[..|regions|] == regions;
  }

  /** The calls for the regions put each page where the last region that marks it says, and
      on lru if a region that is not usable ever marked it. */
  lemma {:induction false} RegionsDecide(regions: seq<Region>, highest: nat, p: nat)
    requires highest < WORD - PAGE_SIZE
    ensures LastCovering(RegionCalls(regions, highest), p) == LastRegion(regions, highest, p)
    ensures EverUsed(RegionCalls(regions, highest), p) <==> Reserved(regions, highest, p)
    decreases |regions|
  {
    hide Protected, MarksUsed, Covers, End, Accepted;
    if regions != [] {
      var before, r := regions[..|regions| - 1], regions[|regions| - 1];
      assert regions == before + [r];
      RegionsDecide(before, highest, p);
      DecideStep(before, r, highest, p);
    }
  }

  lemma {:induction false} DecideStep(regions: seq<Region>, r: Region, highest: nat, p: nat)
    requires highest < WORD - PAGE_SIZE
    requires LastCovering(RegionCalls(regions, highest), p) == LastRegion(regions, highest, p)
    requires EverUsed(RegionCalls(regions, highest), p) <==> Reserved(regions, highest, p)
    ensures LastCovering(RegionCalls(regions + [r], highest), p) == LastRegion(regions + [r], highest, p)
    ensures EverUsed(RegionCalls(regions + [r], highest), p) <==> Reserved(regions + [r], highest, p)
  {
    hide Protected, MarksUsed, Covers, End, Accepted, LastCovering, EverUsed, LastRegion, Reserved, RegionCalls;
    var calls := RegionCalls(regions, highest);
    RegionAppend(regions, r, highest, p);
    assert calls + [] == calls;
    if End(r) <= highest {
      LastAppend(calls, CallFor(r), p);
      CallCovers(r, highest, p);
    }
  }

  // ----- after pmm_init -----

  ghost function ListsAfter(s: Pool, regions: seq<Region>, kernelEnd: nat): Lists {
    ApplyMarks(EMPTY, LogAll(s, PmmCalls(regions, HighestAddress(regions), kernelEnd)))
  }

  /** The memory map makes the page free, unless it is protected. */
  predicate FreeByMap(regions: seq<Region>, kernelEnd: nat, p: nat) {
    p > kernelEnd / PAGE_SIZE && LastRegion(regions, HighestAddress(regions), p) == OnFree
  }

  predicate UsedByMap(regions: seq<Region>, kernelEnd: nat, p: nat) {
    p <= kernelEnd / PAGE_SIZE || LastRegion(regions, HighestAddress(regions), p) == OnUsed
  }

  predicate LruByMap(regions: seq<Region>, kernelEnd: nat, p: nat) {
    p <= kernelEnd / PAGE_SIZE || Reserved(regions, HighestAddress(regions), p)
  }

  /** Every page after `pmm_init`: protected pages are on no list, and all others where the
      map and the kernel's end put them. */
  lemma {:induction false} PagesAfter(s: Pool, regions: seq<Region>, kernelEnd: nat, p: nat)
    requires kernelEnd <= HighestAddress(regions) < WORD - PAGE_SIZE
    requires Placed(s.m, EMPTY, RoundUp(HighestAddress(regions)) / PAGE_SIZE)
    ensures var l := ListsAfter(s, regions, kernelEnd);
            && (p in l.free <==> !Protected(s.flags(p)) && FreeByMap(regions, kernelEnd, p))
            && (p in l.used <==> !Protected(s.flags(p)) && UsedByMap(regions, kernelEnd, p))
            && (p in l.lru <==> !Protected(s.flags(p)) && LruByMap(regions, kernelEnd, p))
  {
    var highest := HighestAddress(regions);
    var calls, n := PmmCalls(regions, highest, kernelEnd), RoundUp(highest) / PAGE_SIZE;
    CallsFit(regions, kernelEnd);
    FateByMap(regions, kernelEnd, p);
    hide Placed, Protected, MarkAll, LogAll, ApplyMarks, FateAfter, PmmCalls, FreeByMap, UsedByMap, LruByMap, RoundUp,
      HighestAddress, LastCovering, EverUsed;
    MarkAllRefines(s, EMPTY, n, calls);
    FreeUsedApart(MarkAll(s, calls).m, ListsAfter(s, regions, kernelEnd), n, p);
    MarkAllFate(s, EMPTY, n, calls, p);
    if Protected(s.flags(p)) {
      ProtectedFate(FateOf(s, EMPTY, p), calls, p);
    } else {
      UnprotectedFate(FateOf(s, EMPTY, p), calls, p);
      LruFate(FateOf(s, EMPTY, p), calls, p);
    }
  }

  lemma FreeUsedApart(m: Links, l: Lists, n: nat, p: nat)
    requires Placed(m, l, n)
    ensures !(p in l.free && p in l.used)
  {
  }

  lemma {:induction false} CallsFit(regions: seq<Region>, kernelEnd: nat)
    requires kernelEnd <= HighestAddress(regions) < WORD - PAGE_SIZE
    ensures forall c :: c in PmmCalls(regions, HighestAddress(regions), kernelEnd) ==>
              PastPage(c) <= RoundUp(HighestAddress(regions)) / PAGE_SIZE && !Protected(c.flags)
  {
    hide Protected, RoundUp, HighestAddress, RegionCalls;
    FlagBits();
    RegionCallsFit(regions, HighestAddress(regions));
    RoundUpMonotone(kernelEnd, HighestAddress(regions));
  }

  lemma {:induction false} FateByMap(regions: seq<Region>, kernelEnd: nat, p: nat)
    requires kernelEnd <= HighestAddress(regions) < WORD - PAGE_SIZE
    ensures var calls := PmmCalls(regions, HighestAddress(regions), kernelEnd);
            && (LastCovering(calls, p) == OnFree <==> FreeByMap(regions, kernelEnd, p))
            && (LastCovering(calls, p) == OnUsed <==> UsedByMap(regions, kernelEnd, p))
            && (EverUsed(calls, p) <==> LruByMap(regions, kernelEnd, p))
  {
    hide Protected, MarksUsed, Accepted, Covers, RegionCalls, LastCovering, EverUsed, LastRegion, Reserved,
      HighestAddress;
    var highest, last := HighestAddress(regions), Call(0, kernelEnd, P_KERNEL | P_IMMUTABLE | P_USED);
    FlagBits();
    AcceptedIff(last);
    CoverageIsInclusive(last, p);
    RegionsDecide(regions, highest, p);
    LastAppend(RegionCalls(regions, highest), last, p);
  }

  /** The lists are fit for allocation if and only if no page above the kernel, free at last,
      is also marked by a region that is not usable. */
  lemma {:induction false} CleanIff(s: Pool, regions: seq<Region>, kernelEnd: nat)
    requires kernelEnd <= HighestAddress(regions) < WORD - PAGE_SIZE
    requires Placed(s.m, EMPTY, RoundUp(HighestAddress(regions)) / PAGE_SIZE)
    ensures Clean(ListsAfter(s, regions, kernelEnd)) <==>
            forall p: nat :: Protected(s.flags(p)) || !Reclaimed(regions, kernelEnd, p)
  {
    hide Placed, ListsAfter, Protected, RoundUp, HighestAddress, FreeByMap, UsedByMap, LruByMap;
    var l := ListsAfter(s, regions, kernelEnd);
    forall p: nat
      ensures p in l.used <==> !Protected(s.flags(p)) && UsedByMap(regions, kernelEnd, p)
      ensures p in l.lru <==> !Protected(s.flags(p)) && LruByMap(regions, kernelEnd, p)
      ensures UsedByMap(regions, kernelEnd, p) ==> LruByMap(regions, kernelEnd, p)
      ensures LruByMap(regions, kernelEnd, p) && !UsedByMap(regions, kernelEnd, p) <==> Reclaimed(regions, kernelEnd, p)
    {
      PagesAfter(s, regions, kernelEnd, p);
      LruOrReclaimed(regions, kernelEnd, p);
    }
  }

  /** A region that is not usable marks the page, and a usable one does so later. */
  predicate Reclaimed(regions: seq<Region>, kernelEnd: nat, p: nat) {
    FreeByMap(regions, kernelEnd, p) && Reserved(regions, HighestAddress(regions), p)
  }

  lemma LruOrReclaimed(regions: seq<Region>, kernelEnd: nat, p: nat)
    ensures UsedByMap(regions, kernelEnd, p) ==> LruByMap(regions, kernelEnd, p)
    ensures LruByMap(regions, kernelEnd, p) && !UsedByMap(regions, kernelEnd, p) <==> Reclaimed(regions, kernelEnd, p)
  {
    hide HighestAddress, Reserved, LastRegion;
    LastIsSome(regions, HighestAddress(regions), p);
  }

  lemma {:induction false} LastIsSome(regions: seq<Region>, highest: nat, p: nat)
    ensures LastRegion(regions, highest, p) == OnUsed ==> Reserved(regions, highest, p)
    ensures Reserved(regions, highest, p) ==> LastRegion(regions, highest, p) != Nowhere
    decreases |regions|
  {
    hide Marks;
    if regions != [] {
      LastIsSome(regions[..|regions| - 1], highest, p);
      assert regions == regions[..|regions| - 1] + [regions[|regions| - 1]];
    }
  }

  // ----- the same on plain numbers -----

  /** The region ends at or below `highest`, and `p` is one of the pages from that of its first
      byte to that of the byte after its last. */
  predicate Touches(r: Region, highest: nat, p: nat) {
    r.base + r.len <= highest && r.base / 0x1000 <= p <= (r.base + r.len) / 0x1000
  }

  predicate SixtyFourBit(regions: seq<Region>) {
    forall r :: r in regions ==> r.base < WORD && r.len < WORD
  }

  /** A region that wraps around marks nothing. */
  lemma MarksIffTouches(r: Region, highest: nat, p: nat)
    requires r.base < WORD && r.len < WORD && highest < WORD
    ensures Marks(r, highest, p) <==> Touches(r, highest, p)
  {
  }

  predicate LastUsable(regions: seq<Region>, i: nat) {
    i < |regions| && regions[i].usable && forall j :: i < j < |regions| ==> !regions[j].usable
  }

  /** The highest address is the end of the last usable region, or 0 if there is none. */
  lemma {:induction false} HighestIs(regions: seq<Region>, i: nat)
    ensures LastUsable(regions, i) ==> HighestAddress(regions) == (regions[i].base + regions[i].len) % WORD
    ensures (forall r :: r in regions ==> !r.usable) ==> HighestAddress(regions) == 0
    decreases |regions|
  {
    if regions != [] {
      var before := regions[..|regions| - 1];
      assert forall j :: 0 <= j < |before| ==> before[j] == regions[j];
      HighestIs(before, i);
    }
  }

  /** Region `i` is the last one that touches the page. */
  predicate LastToTouch(regions: seq<Region>, highest: nat, p: nat, i: nat) {
    i < |regions| && Touches(regions[i], highest, p) &&
    forall j :: i < j < |regions| ==> !Touches(regions[j], highest, p)
  }

  lemma {:induction false} LastRegionIs(regions: seq<Region>, highest: nat, p: nat, i: nat)
    requires SixtyFourBit(regions) && highest < WORD && LastToTouch(regions, highest, p, i)
    ensures LastRegion(regions, highest, p) == if regions[i].usable then OnFree else OnUsed
    decreases |regions|
  {
    var before, r := regions[..|regions| - 1], regions[|regions| - 1];
    assert r in regions;
    hide Touches, Marks;
    MarksIffTouches(r, highest, p);
    if i < |before| {
      assert forall j :: 0 <= j < |before| ==> before[j] == regions[j] && before[j] in regions;
      LastRegionIs(before, highest, p, i);
    }
  }

  lemma {:induction false} NoRegionTouches(regions: seq<Region>, highest: nat, p: nat)
    requires SixtyFourBit(regions) && highest < WORD
    ensures LastRegion(regions, highest, p) == Nowhere <==> forall r :: r in regions ==> !Touches(r, highest, p)
    ensures Reserved(regions, highest, p) <==> exists r :: r in regions && !r.usable && Touches(r, highest, p)
    decreases |regions|
  {
    hide Touches, Marks;
    forall r | r in regions ensures Marks(r, highest, p) <==> Touches(r, highest, p) {
      MarksIffTouches(r, highest, p);
    }
    if regions != [] {
      var before, r := regions[..|regions| - 1], regions[|regions| - 1];
      assert regions == before + [r];
      NoRegionTouches(before, highest, p);
    }
  }

  /** The flags that the calls for the regions leave on an unprotected page. */
  lemma {:induction false} RegionFlags(x: Fate, regions: seq<Region>, highest: nat, p: nat)
    requires highest < WORD - PAGE_SIZE && !Protected(x.flags)
    ensures var f := FateAfter(x, RegionCalls(regions, highest), p).flags;
            && !Protected(f)
            && f == match LastRegion(regions, highest, p)
                    case OnFree => 0x1000
                    case OnUsed => 0x2000
                    case Nowhere => x.flags
    decreases |regions|
  {
    FlagBits();
    if regions != [] {
      var before, r := regions[..|regions| - 1], regions[|regions| - 1];
      RegionFlags(x, before, highest, p);
      hide Protected, MarksUsed, Covers, Marks, End, FateAfter, RegionCalls;
      RegionAppend(before, r, highest, p);
      assert regions == before + [r];
      if End(r) <= highest {
        CallCovers(r, highest, p);
        FateAppend(x, RegionCalls(before, highest), CallFor(r), p);
      } else {
        BeyondMarks(r, highest, p);
        assert RegionCalls(before, highest) + [] == RegionCalls(before, highest);
      }
    }
  }

  lemma BeyondMarks(r: Region, highest: nat, p: nat)
    requires End(r) > highest
    ensures !Marks(r, highest, p)
  {
  }

  lemma {:induction false} FateAppend(x: Fate, calls: seq<Call>, c: Call, p: nat)
    ensures FateAfter(x, calls + [c], p) ==
            if Covers(c, p) then MarkFate(FateAfter(x, calls, p), c.flags) else FateAfter(x, calls, p)
  {
    assert (calls + [c])[..|calls|] == calls;
  }

  ghost function FlagsOnPage(s: Pool, regions: seq<Region>, kernelEnd: nat, p: nat): bv64 {
    MarkAll(s, PmmCalls(regions, HighestAddress(regions), kernelEnd)).flags(p)
  }

  lemma {:induction false} FlagsByMap(s: Pool, regions: seq<Region>, kernelEnd: nat, p: nat)
    requires kernelEnd <= HighestAddress(regions) < WORD - PAGE_SIZE
    requires Placed(s.m, EMPTY, RoundUp(HighestAddress(regions)) / PAGE_SIZE) && !Protected(s.flags(p))
    ensures FlagsOnPage(s, regions, kernelEnd, p) ==
            if p <= kernelEnd / PAGE_SIZE then 0x26000 else
            match LastRegion(regions, HighestAddress(regions), p)
            case OnFree => 0x1000
            case OnUsed => 0x2000
            case Nowhere => s.flags(p)
  {
    var highest := HighestAddress(regions);
    var last := Call(0, kernelEnd, P_KERNEL | P_IMMUTABLE | P_USED);
    assert last.flags == 0x26000;
    FlagBits();
    AcceptedIff(last);
    CallsFit(regions, kernelEnd);
    hide Placed, Protected, MarksUsed, Accepted, MarkAll, LogAll, ApplyMarks, FateAfter, RegionCalls, RoundUp,
      HighestAddress, LastRegion;
    CoverageIsInclusive(last, p);
    MarkAllFate(s, EMPTY, RoundUp(highest) / PAGE_SIZE, PmmCalls(regions, highest, kernelEnd), p);
    RegionFlags(FateOf(s, EMPTY, p), regions, highest, p);
    FateAppend(FateOf(s, EMPTY, p), RegionCalls(regions, highest), last, p);
  }

  /** A page above the kernel goes where the last region that touches it puts it. */
  lemma {:induction false} RegionDecidesPage(s: Pool, regions: seq<Region>, kernelEnd: nat, p: nat, i: nat)
    requires kernelEnd <= HighestAddress(regions) < WORD - PAGE_SIZE && SixtyFourBit(regions)
    requires Placed(s.m, EMPTY, RoundUp(HighestAddress(regions)) / PAGE_SIZE) && !Protected(s.flags(p))
    requires p > kernelEnd / 0x1000 && LastToTouch(regions, HighestAddress(regions), p, i)
    ensures var l := ListsAfter(s, regions, kernelEnd);
            if regions[i].usable
            then p in l.free && p !in l.used && FlagsOnPage(s, regions, kernelEnd, p) == 0x1000
            else p in l.used && p in l.lru && p !in l.free && FlagsOnPage(s, regions, kernelEnd, p) == 0x2000
  {
    assert regions[i] in regions;
    hide Placed, ListsAfter, FlagsOnPage, Protected, RoundUp, HighestAddress, LastRegion, Touches;
    LastRegionIs(regions, HighestAddress(regions), p, i);
    NoRegionTouches(regions, HighestAddress(regions), p);
    PagesAfter(s, regions, kernelEnd, p);
    FlagsByMap(s, regions, kernelEnd, p);
  }

  /** A page above the kernel that no region touches is on no list and keeps its flags. */
  lemma {:induction false} UntouchedPage(s: Pool, regions: seq<Region>, kernelEnd: nat, p: nat)
    requires kernelEnd <= HighestAddress(regions) < WORD - PAGE_SIZE && SixtyFourBit(regions)
    requires Placed(s.m, EMPTY, RoundUp(HighestAddress(regions)) / PAGE_SIZE) && !Protected(s.flags(p))
    requires p > kernelEnd / 0x1000 && forall r :: r in regions ==> !Touches(r, HighestAddress(regions), p)
    ensures var l := ListsAfter(s, regions, kernelEnd);
            p !in l.free && p !in l.used && p !in l.lru && FlagsOnPage(s, regions, kernelEnd, p) == s.flags(p)
  {
    hide Placed, ListsAfter, FlagsOnPage, Protected, RoundUp, HighestAddress, LastRegion, Touches, Reserved;
    NoRegionTouches(regions, HighestAddress(regions), p);
    PagesAfter(s, regions, kernelEnd, p);
    FlagsByMap(s, regions, kernelEnd, p);
  }

  /** A page up to the kernel's end is the kernel's, whatever the map says. */
  lemma {:induction false} KernelPage(s: Pool, regions: seq<Region>, kernelEnd: nat, p: nat)
    requires kernelEnd <= HighestAddress(regions) < WORD - PAGE_SIZE
    requires Placed(s.m, EMPTY, RoundUp(HighestAddress(regions)) / PAGE_SIZE) && !Protected(s.flags(p))
    requires p <= kernelEnd / 0x1000
    ensures var l := ListsAfter(s, regions, kernelEnd);
            p in l.used && p in l.lru && p !in l.free && FlagsOnPage(s, regions, kernelEnd, p) == 0x26000
  {
    hide Placed, ListsAfter, FlagsOnPage, Protected, RoundUp, HighestAddress, LastRegion, Reserved;
    PagesAfter(s, regions, kernelEnd, p);
    FlagsByMap(s, regions, kernelEnd, p);
  }

  const HOLE_MAP: seq<Region> := [
    Region(0x10_0000, 0xBFF0_0000, true), Region(0xC000_0000, 0x4000_0000, false),
    Region(0x1_0000_0000, 0x4000_0000, true)]

  /** A reserved region between two usable ones is used on all its pages, not only its first. */
  lemma HoleIsUsed(s: Pool)
    requires Placed(s.m, EMPTY, RoundUp(HighestAddress(HOLE_MAP)) / PAGE_SIZE) && !Protected(s.flags(0xC0001))
    ensures var l := ListsAfter(s, HOLE_MAP, 0x11_0000); 0xC0001 in l.used && 0xC0001 !in l.free
  {
    HighestIs(HOLE_MAP, 2);
    assert HighestAddress(HOLE_MAP) == 0x1_4000_0000;
    assert LastToTouch(HOLE_MAP, 0x1_4000_0000, 0xC0001, 1);
    hide Placed, ListsAfter, FlagsOnPage, Protected, RoundUp, HighestAddress, LastToTouch;
    RegionDecidesPage(s, HOLE_MAP, 0x11_0000, 0xC0001, 1);
  }

  // ----- free pages and usable memory -----

  /** The page lies wholly in one usable region. */
  predicate InUsable(regions: seq<Region>, p: nat) {
    exists r :: r in regions && r.usable && r.base <= p * PAGE_SIZE && (p + 1) * PAGE_SIZE <= End(r)
  }

  /** A page at the edge of a region: the one that holds its end, and the one that holds
      its base if that is not aligned. */
  predicate EdgeOf(r: Region, p: nat) {
    p == End(r) / PAGE_SIZE || (r.base % PAGE_SIZE != 0 && p == r.base / PAGE_SIZE)
  }

  /** No usable region that is marked has an edge page that becomes free and is not wholly in
      usable memory.  That is a question about two pages for each region. */
  ghost predicate EdgesOk(s: Pool, regions: seq<Region>, kernelEnd: nat) {
    forall r, p: nat :: r in regions && r.usable && r.base <= End(r) <= HighestAddress(regions) && EdgeOf(r, p) ==>
      Protected(s.flags(p)) || !FreeByMap(regions, kernelEnd, p) || InUsable(regions, p)
  }

  lemma {:induction false} LastFreeRegion(regions: seq<Region>, highest: nat, p: nat) returns (r: Region)
    requires LastRegion(regions, highest, p) == OnFree
    ensures r in regions && r.usable && Marks(r, highest, p)
    decreases |regions|
  {
    var last := regions[|regions| - 1];
    if Marks(last, highest, p) {
      r := last;
    } else {
      r := LastFreeRegion(regions[..|regions| - 1], highest, p);
    }
  }

  lemma InnerPage(r: Region, highest: nat, p: nat)
    requires Marks(r, highest, p) && !EdgeOf(r, p)
    ensures r.base <= p * PAGE_SIZE && (p + 1) * PAGE_SIZE <= End(r)
  {
    hide End;
  }

  /** Every free page lies wholly in usable memory if and only if the edge pages do. */
  lemma {:induction false} FreeInUsableIff(s: Pool, regions: seq<Region>, kernelEnd: nat)
    requires kernelEnd <= HighestAddress(regions) < WORD - PAGE_SIZE
    requires Placed(s.m, EMPTY, RoundUp(HighestAddress(regions)) / PAGE_SIZE)
    ensures (forall p :: p in ListsAfter(s, regions, kernelEnd).free ==> InUsable(regions, p)) <==>
            EdgesOk(s, regions, kernelEnd)
  {
    hide Placed, ListsAfter, Protected, RoundUp, HighestAddress, LastRegion, End, Marks, EdgeOf;
    var l, highest := ListsAfter(s, regions, kernelEnd), HighestAddress(regions);
    forall p: nat ensures p in l.free <==> !Protected(s.flags(p)) && FreeByMap(regions, kernelEnd, p) {
      PagesAfter(s, regions, kernelEnd, p);
    }
    if EdgesOk(s, regions, kernelEnd) {
      forall p | p in l.free ensures InUsable(regions, p) {
        var r := LastFreeRegion(regions, highest, p);
        MarkedRegion(r, highest, p);
        if !EdgeOf(r, p) {
          InnerPage(r, highest, p);
        }
      }
    }
  }

  lemma MarkedRegion(r: Region, highest: nat, p: nat)
    requires Marks(r, highest, p)
    ensures r.base <= End(r) <= highest
  {
  }

  /** It fails for every map whose last region is usable and reaches highest: the page that
      starts at its end, or holds it, is free and belongs to no usable region. */
  lemma {:induction false} LastPageIsFree(s: Pool, regions: seq<Region>, kernelEnd: nat)
    requires regions != [] && regions[|regions| - 1].usable
    requires var last := regions[|regions| - 1]; last.base <= End(last) < WORD - PAGE_SIZE
    requires forall r :: r in regions && r.usable ==> End(r) <= HighestAddress(regions)
    requires kernelEnd / PAGE_SIZE < HighestAddress(regions) / PAGE_SIZE
    requires Placed(s.m, EMPTY, RoundUp(HighestAddress(regions)) / PAGE_SIZE)
    requires !Protected(s.flags(HighestAddress(regions) / PAGE_SIZE))
    ensures var p := HighestAddress(regions) / PAGE_SIZE;
            p in ListsAfter(s, regions, kernelEnd).free && !InUsable(regions, p)
  {
    var p := HighestAddress(regions) / PAGE_SIZE;
    assert LastRegion(regions, HighestAddress(regions), p) == OnFree;
    hide Placed, ListsAfter, Protected, RoundUp, LastRegion, End;
    PagesAfter(s, regions, kernelEnd, p);
  }

  // ----- the order of the free list -----

  ghost predicate Ascending(s: seq<nat>) {
    forall i, j :: 0 <= i < j < |s| ==> s[i] < s[j]
  }

  ghost predicate AllBelow(s: seq<nat>, n: nat) {
    forall p :: p in s ==> p < n
  }

  lemma {:induction false} RemoveAscending(s: seq<nat>, x: nat)
    requires Ascending(s)
    ensures Ascending(Remove(s, x)) && forall y :: y in Remove(s, x) ==> y in s
  {
    if s != [] && s[0] != x {
      RemoveAscending(s[1..], x);
      var t := Remove(s[1..], x);
      forall i | 0 <= i < |t| ensures s[0] < t[i] {
        assert t[i] in s[1..];
      }
      assert Remove(s, x) == [s[0]] + t;
    }
  }

  lemma MarkAscends(l: Lists, k: Mark, n: nat)
    requires Ascending(l.free) && AllBelow(l.free, n)
    ensures k.used ==> Ascending(ApplyMark(l, k).free) && AllBelow(ApplyMark(l, k).free, n)
    ensures !k.used && k.page == n ==> Ascending(ApplyMark(l, k).free) && AllBelow(ApplyMark(l, k).free, n + 1)
  {
    hide Remove;
    RemoveAscending(l.free, k.page);
    var t := Remove(l.free, k.page);
    assert forall i :: 0 <= i < |t| ==> t[i] in t;
    assert forall i :: 0 <= i < |t| ==> (t + [k.page])[i] == t[i];
  }

  function Max(a: nat, b: nat): nat {
    if a < b then b else a
  }

  /** Marking pages FREE from `from` on, above all that are free, keeps the list in order. */
  lemma {:induction false} FreeMarksAscend(s: Pool, l: Lists, from: nat, to: nat)
    requires Ascending(l.free) && AllBelow(l.free, from)
    ensures var l' := ApplyMarks(l, LogPages(s, from, to, P_FREE));
            Ascending(l'.free) && AllBelow(l'.free, Max(from, to))
    decreases if from < to then to - from else 0
  {
    if from < to {
      FlagBits();
      LoopStep(s, l, from, to, P_FREE);
      hide ApplyMark, LogPages, ApplyMarks, MarkPage, Protected, MarksUsed;
      var l1 := if Protected(s.flags(from)) then l else ApplyMark(l, Mark(from, MarksUsed(P_FREE)));
      MarkAscends(l, Mark(from, false), from);
      FreeMarksAscend(MarkPage(s, from, P_FREE), l1, from + 1, to);
    }
  }

  /** Marking pages USED only takes pages out of the list. */
  lemma {:induction false} UsedMarksAscend(s: Pool, l: Lists, from: nat, to: nat, f: bv64, n: nat)
    requires Ascending(l.free) && AllBelow(l.free, n) && MarksUsed(f)
    ensures var l' := ApplyMarks(l, LogPages(s, from, to, f)); Ascending(l'.free) && AllBelow(l'.free, n)
    decreases if from < to then to - from else 0
  {
    if from < to {
      LoopStep(s, l, from, to, f);
      hide ApplyMark, LogPages, ApplyMarks, MarkPage, Protected, MarksUsed;
      var l1 := if Protected(s.flags(from)) then l else ApplyMark(l, Mark(from, MarksUsed(f)));
      MarkAscends(l, Mark(from, true), n);
      UsedMarksAscend(MarkPage(s, from, f), l1, from + 1, to, f, n);
    }
  }

  /** The first page above the usable regions that are marked. */
  function Reach(regions: seq<Region>, highest: nat): nat
    decreases |regions|
  {
    if regions == [] then 0 else
    var r, before := regions[|regions| - 1], Reach(regions[..|regions| - 1], highest);
    if r.usable && r.base <= End(r) <= highest then Max(before, End(r) / PAGE_SIZE + 1) else before
  }

  /** The usable regions come in the order of their addresses and share no page. */
  predicate AscendingMap(regions: seq<Region>, highest: nat)
    decreases |regions|
  {
    regions == [] ||
    (var r, before := regions[|regions| - 1], regions[..|regions| - 1];
     && AscendingMap(before, highest)
     && (r.usable && r.base <= End(r) <= highest ==> Reach(before, highest) <= r.base / PAGE_SIZE))
  }

  lemma {:induction false} RegionAscends(s: Pool, l: Lists, r: Region, highest: nat, n: nat)
    requires End(r) <= highest < WORD - PAGE_SIZE && Ascending(l.free) && AllBelow(l.free, n)
    requires r.usable && r.base <= End(r) ==> n <= r.base / PAGE_SIZE
    ensures var l' := ApplyMarks(l, LogRange(s, CallFor(r)));
            && Ascending(l'.free)
            && AllBelow(l'.free, if r.usable && r.base <= End(r) then Max(n, End(r) / PAGE_SIZE + 1) else n)
  {
    FlagBits();
    AcceptedIff(CallFor(r));
    RoundUpIs(End(r));
    assert FirstPage(CallFor(r)) == r.base / PAGE_SIZE && PastPage(CallFor(r)) == End(r) / PAGE_SIZE + 1;
    OneMark(l, []);
    hide ApplyMarks, LogPages, Accepted, Protected, MarksUsed, End, FirstPage, PastPage;
    var from, to := r.base / PAGE_SIZE, End(r) / PAGE_SIZE + 1;
    if r.base <= End(r) {
      if r.usable {
        FreeMarksAscend(s, l, from, to);
      } else {
        UsedMarksAscend(s, l, from, to, P_USED, n);
      }
    }
  }

  lemma {:induction false} RegionsAscend(s: Pool, regions: seq<Region>, highest: nat)
    requires highest < WORD - PAGE_SIZE && AscendingMap(regions, highest)
    ensures var l := ApplyMarks(EMPTY, LogAll(s, RegionCalls(regions, highest)));
            Ascending(l.free) && AllBelow(l.free, Reach(regions, highest))
    decreases |regions|
  {
    hide ApplyMarks, LogRange, MarkAll, Protected, MarksUsed, End, Ascending, AllBelow;
    if regions == [] {
      EmptyAscends(s);
    } else {
      var before, r := regions[..|regions| - 1], regions[|regions| - 1];
      var calls := RegionCalls(before, highest);
      RegionsAscend(s, before, highest);
      if End(r) <= highest {
        MarkAllAppend(s, EMPTY, calls, CallFor(r));
        RegionAscends(MarkAll(s, calls), ApplyMarks(EMPTY, LogAll(s, calls)), r, highest, Reach(before, highest));
      } else {
        assert calls + [] == calls;
      }
    }
  }

  lemma {:induction false} EmptyAscends(s: Pool)
    ensures var l := ApplyMarks(EMPTY, LogAll(s, [])); Ascending(l.free) && AllBelow(l.free, 0)
  {
  }

  /** With such a map the free list after `pmm_init` is in the order of the page numbers. */
  lemma {:induction false} FreeListAscends(s: Pool, regions: seq<Region>, kernelEnd: nat)
    requires kernelEnd <= HighestAddress(regions) < WORD - PAGE_SIZE
    requires AscendingMap(regions, HighestAddress(regions))
    ensures Ascending(ListsAfter(s, regions, kernelEnd).free)
  {
    var highest, last := HighestAddress(regions), Call(0, kernelEnd, P_KERNEL | P_IMMUTABLE | P_USED);
    var calls := RegionCalls(regions, highest);
    FlagBits();
    AcceptedIff(last);
    hide ApplyMarks, LogPages, LogAll, MarkAll, Accepted, Protected, MarksUsed, HighestAddress, RegionCalls,
      AscendingMap, FirstPage, PastPage, Ascending;
    RegionsAscend(s, regions, highest);
    MarkAllAppend(s, EMPTY, calls, last);
    UsedMarksAscend(MarkAll(s, calls), ApplyMarks(EMPTY, LogAll(s, calls)), FirstPage(last), PastPage(last), last.flags,
                    Reach(regions, highest));
  }

  // ----- the tables of the boot loader -----

  /** The boot loader's tables are in the five frames from page 0x3F1 on. */
  predicate BootTable(p: nat) {
    0x3F1 <= p <= 0x3F5
  }

  /** Without bootstrap tables of its own the kernel goes on with those of the boot loader.
      None of them is free after `pmm_init` if and only if each is in the page array, was
      protected before, lies below the kernel's end, or was last marked by a region that is
      not usable or by none. */
  lemma {:induction false} BootTablesNotFreeIff(s: Pool, regions: seq<Region>, kernelEnd: nat, before: nat -> bv64)
    requires kernelEnd <= HighestAddress(regions) < WORD - PAGE_SIZE
    requires Placed(s.m, EMPTY, RoundUp(HighestAddress(regions)) / PAGE_SIZE)
    requires var plan := PlanFor(HighestAddress(regions), kernelEnd);
             !plan.bootstrap && forall p: nat :: s.flags(p) == InitialFlags(plan, before)(p)
    ensures (forall p :: BootTable(p) ==> p !in ListsAfter(s, regions, kernelEnd).free) <==>
            forall p :: BootTable(p) ==>
              || HoldsArray(PlanFor(HighestAddress(regions), kernelEnd), p) || Protected(before(p))
              || !FreeByMap(regions, kernelEnd, p)
  {
    var plan := PlanFor(HighestAddress(regions), kernelEnd);
    hide Placed, ListsAfter, RoundUp, HighestAddress, FreeByMap, HoldsArray, PlanFor;
    forall p: nat | BootTable(p)
      ensures p in ListsAfter(s, regions, kernelEnd).free <==>
              !HoldsArray(plan, p) && !Protected(before(p)) && FreeByMap(regions, kernelEnd, p)
    {
      PagesAfter(s, regions, kernelEnd, p);
      if HoldsArray(plan, p) {
        ReservedIsProtected(plan, before, p);
      }
    }
  }

  /** They are neither free nor overwritten, and so can be used, if and only if the structs lie
      wholly below or above them and each is in the array's unused last frame, was protected
      before, lies below the kernel's end, or was last marked by a region that is not usable or
      by none. */
  lemma {:induction false} BootTablesIntactIff(s: Pool, regions: seq<Region>, kernelEnd: nat, before: nat -> bv64)
    requires kernelEnd <= HighestAddress(regions) < WORD - PAGE_SIZE
    requires Placed(s.m, EMPTY, RoundUp(HighestAddress(regions)) / PAGE_SIZE)
    requires var plan := PlanFor(HighestAddress(regions), kernelEnd);
             !plan.bootstrap && plan.numpages > 0 && forall p: nat :: s.flags(p) == InitialFlags(plan, before)(p)
    ensures var plan := PlanFor(HighestAddress(regions), kernelEnd);
            var last := (plan.structs + plan.numpages * STRUCT_SIZE - 1) / PAGE_SIZE;
            (forall p :: BootTable(p) ==> p !in ListsAfter(s, regions, kernelEnd).free && !Overwritten(plan, p)) <==>
            && (last < 0x3F1 || 0x3F5 < plan.structs / PAGE_SIZE)
            && forall p :: BootTable(p) ==>
                 HoldsArray(plan, p) || Protected(before(p)) || !FreeByMap(regions, kernelEnd, p)
  {
    var plan := PlanFor(HighestAddress(regions), kernelEnd);
    BootTablesNotFreeIff(s, regions, kernelEnd, before);
    hide Placed, ListsAfter, RoundUp, HighestAddress, FreeByMap, HoldsArray, PlanFor, Overwritten, Protected;
    BootTablesOverwritten(plan);
  }

  lemma BootTablesOverwritten(plan: Plan)
    requires plan.numpages > 0
    ensures (forall p :: BootTable(p) ==> !Overwritten(plan, p)) <==>
            (plan.structs + plan.numpages * STRUCT_SIZE - 1) / PAGE_SIZE < 0x3F1 || 0x3F5 < plan.structs / PAGE_SIZE
  {
    var first, last := plan.structs / PAGE_SIZE, (plan.structs + plan.numpages * STRUCT_SIZE - 1) / PAGE_SIZE;
    hide Overwritten;
    forall p: nat ensures Overwritten(plan, p) <==> first <= p <= last {
      OverwrittenIff(plan, p);
    }
    if first <= 0x3F5 && 0x3F1 <= last {
      assert BootTable(if first <= 0x3F1 then 0x3F1 else first);
    }
  }

  /** With 187 MB and a kernel that ends at 0x110000, the structs are written over the PML4 in use. */
  lemma BootPml4CanBeOverwritten()
    ensures var plan := PlanFor(0xBB0_0000, 0x11_0000); !plan.bootstrap && Overwritten(plan, 0x3F1)
  {
    hide PlanFor, Overwritten;
    PlanIs(0xBB0_0000, 0x11_0000);
    OverwrittenIff(PlanFor(0xBB0_0000, 0x11_0000), 0x3F1);
  }

  const SMALL_MAP: seq<Region> := [Region(0x10_0000, 0x7EE_0000, true)]

  /** With 128 MB and a kernel that ends at 0x110000, the PML4 in use is on the free list. */
  lemma BootPml4CanBeFree(s: Pool, before: nat -> bv64)
    requires Placed(s.m, EMPTY, RoundUp(HighestAddress(SMALL_MAP)) / PAGE_SIZE) && !Protected(before(0x3F1))
    requires var plan := PlanFor(HighestAddress(SMALL_MAP), 0x11_0000);
             forall p: nat :: s.flags(p) == InitialFlags(plan, before)(p)
    ensures !PlanFor(HighestAddress(SMALL_MAP), 0x11_0000).bootstrap
    ensures 0x3F1 in ListsAfter(s, SMALL_MAP, 0x11_0000).free
  {
    SmallMachine();
    hide Placed, ListsAfter, Protected, RoundUp, PlanFor;
    PagesAfter(s, SMALL_MAP, 0x11_0000, 0x3F1);
  }

  lemma SmallMachine()
    ensures HighestAddress(SMALL_MAP) == 0x7FE_0000
    ensures var plan := PlanFor(0x7FE_0000, 0x11_0000); !plan.bootstrap && !HoldsArray(plan, 0x3F1)
    ensures FreeByMap(SMALL_MAP, 0x11_0000, 0x3F1)
  {
    hide PlanFor;
    PlanIs(0x7FE_0000, 0x11_0000);
    assert SMALL_MAP[..0] == [];
  }
}
