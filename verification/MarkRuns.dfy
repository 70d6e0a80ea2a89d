/** What a whole marking phase leaves behind, page by page and in list order. */
module MarkRuns {
  import opened Sizes
  import opened Rings
  import opened Frames
  import opened FrameRuns
  import opened Marking

  const EMPTY := Lists([], [], [])

  // ----- page by page -----

  datatype Place = Nowhere | OnFree | OnUsed

  /** What the marking phase knows about one page. */
  datatype Fate = Fate(flags: bv64, place: Place, inLru: bool)

  ghost function FateOf(s: Pool, l: Lists, p: nat): Fate {
    Fate(s.flags(p), if p in l.free then OnFree else if p in l.used then OnUsed else Nowhere, p in l.lru)
  }

  predicate Covers(c: Call, p: nat) {
    Accepted(c) && FirstPage(c) <= p < PastPage(c)
  }

  function MarkFate(x: Fate, f: bv64): Fate {
    if Protected(x.flags) then x
    else Fate(f, if MarksUsed(f) then OnUsed else OnFree, x.inLru || MarksUsed(f))
  }

  /** The history of a single page under a sequence of calls, all other pages
      forgotten. */
  function FateAfter(x: Fate, calls: seq<Call>, p: nat): Fate
    decreases |calls|
  {
    if calls == [] then x else
    var before, c := FateAfter(x, calls[..|calls| - 1], p), calls[|calls| - 1];
    if Covers(c, p) then MarkFate(before, c.flags) else before
  }

  lemma ApplyMarkMembers(l: Lists, k: Mark, p: nat)
    requires Distinct(l.free) && Distinct(l.used) && Distinct(l.lru) && Disjoint(l.free, l.used)
    ensures var l' := ApplyMark(l, k);
            && (p in l'.free <==> if p == k.page then !k.used else p in l.free)
            && (p in l'.used <==> if p == k.page then k.used else p in l.used)
            && (p in l'.lru <==> p in l.lru || (p == k.page && k.used))
  {
    hide Remove;
    RemoveMembers(l.free, k.page);
    RemoveMembers(l.used, k.page);
    RemoveMembers(l.lru, k.page);
  }

  lemma PageFate(s: Pool, l: Lists, n: nat, q: nat, f: bv64, p: nat)
    requires Placed(s.m, l, n)
    ensures var l' := if Protected(s.flags(q)) then l else ApplyMark(l, Mark(q, MarksUsed(f)));
            FateOf(MarkPage(s, q, f), l', p) == if p == q then MarkFate(FateOf(s, l, p), f) else FateOf(s, l, p)
  {
    hide Ring, ApplyMark, MarksUsed, Protected, Distinct;
    RepresentsDistinct(s.m, l);
    ApplyMarkMembers(l, Mark(q, MarksUsed(f)), p);
  }

  lemma {:induction false} LoopFate(s: Pool, l: Lists, n: nat, from: nat, to: nat, f: bv64, p: nat)
    requires Placed(s.m, l, n) && to <= n
    ensures FateOf(MarkPages(s, from, to, f), ApplyMarks(l, LogPages(s, from, to, f)), p)
         == if from <= p < to then MarkFate(FateOf(s, l, p), f) else FateOf(s, l, p)
    decreases if from < to then to - from else 0
  {
    hide Placed, MarkPage, ApplyMark, Protected, MarksUsed, FateOf, MarkFate;
    if from < to {
      var s1 := MarkPage(s, from, f);
      var l1 := if Protected(s.flags(from)) then l else ApplyMark(l, Mark(from, MarksUsed(f)));
      LoopStep(s, l, from, to, f);
      MarkPageRefines(s, l, n, from, f);
      PageFate(s, l, n, from, f, p);
      LoopFate(s1, l1, n, from + 1, to, f, p);
    }
  }

  /** After any sequence of `page_mark_range` calls, each page has the flags, the list
      and the lru membership that its own history gives it. */
  lemma {:induction false} MarkAllFate(s: Pool, l: Lists, n: nat, calls: seq<Call>, p: nat)
    requires Placed(s.m, l, n)
    requires forall c :: c in calls ==> PastPage(c) <= n
    ensures FateOf(MarkAll(s, calls), ApplyMarks(l, LogAll(s, calls)), p) == FateAfter(FateOf(s, l, p), calls, p)
    decreases |calls|
  {
    hide Placed, FateOf, MarkFate, MarkPages, LogPages, FirstPage, PastPage, Accepted;
    if calls != [] {
      var before, c := calls[..|calls| - 1], calls[|calls| - 1];
      var s1, l1 := MarkAll(s, before), ApplyMarks(l, LogAll(s, before));
      MarkAllFate(s, l, n, before, p);
      MarkAllRefines(s, l, n, before);
      ApplyMarksConcat(l, LogAll(s, before), LogRange(s1, c));
      if Accepted(c) {
        LoopFate(s1, l1, n, FirstPage(c), PastPage(c), c.flags, p);
      }
    }
  }

  /** The last accepted call that covers the page. */
  function LastCovering(calls: seq<Call>, p: nat): Place
    decreases |calls|
  {
    if calls == [] then Nowhere else
    var c := calls[|calls| - 1];
    if Covers(c, p) then (if MarksUsed(c.flags) then OnUsed else OnFree)
    else LastCovering(calls[..|calls| - 1], p)
  }

  lemma {:induction false} UnprotectedFate(x: Fate, calls: seq<Call>, p: nat)
    requires !Protected(x.flags) && x.place == Nowhere
    requires forall c :: c in calls ==> !Protected(c.flags)
    ensures var y := FateAfter(x, calls, p); !Protected(y.flags) && y.place == LastCovering(calls, p)
    decreases |calls|
  {
    hide Protected, MarksUsed, Covers;
    if calls != [] {
      UnprotectedFate(x, calls[..|calls| - 1], p);
    }
  }

  lemma {:induction false} ProtectedFate(x: Fate, calls: seq<Call>, p: nat)
    requires Protected(x.flags)
    ensures FateAfter(x, calls, p) == x
    decreases |calls|
  {
    if calls != [] {
      ProtectedFate(x, calls[..|calls| - 1], p);
    }
  }

  /** From freshly initialised lists, a page that neither starts nor is ever marked
      with the bits 0x18000 is on the list that the last call covering it named, and
      on neither list if no call covered it. */
  lemma {:induction false} LastCallDecides(s: Pool, n: nat, calls: seq<Call>, p: nat)
    requires Placed(s.m, EMPTY, n)
    requires forall c :: c in calls ==> PastPage(c) <= n && !Protected(c.flags)
    requires !Protected(s.flags(p))
    ensures FateOf(MarkAll(s, calls), ApplyMarks(EMPTY, LogAll(s, calls)), p).place == LastCovering(calls, p)
  {
    hide Placed, Protected, MarkAll, LogAll, ApplyMarks, FateAfter, LastCovering;
    MarkAllFate(s, EMPTY, n, calls, p);
    UnprotectedFate(FateOf(s, EMPTY, p), calls, p);
  }

  /** A range is rounded outwards to whole pages, and the page that starts exactly at
      an aligned end is part of it. */
  lemma CoverageIsInclusive(c: Call, p: nat)
    requires Accepted(c) && c.end < WORD - PAGE_SIZE
    ensures Covers(c, p) <==> c.start / PAGE_SIZE <= p <= c.end / PAGE_SIZE
  {
    assert (c.end + PAGE_SIZE) / PAGE_SIZE == c.end / PAGE_SIZE + 1;
  }

  // ----- in list order -----

  ghost function MarkedPages(log: seq<Mark>): seq<nat>
    decreases |log|
  {
    if log == [] then [] else MarkedPages(log[..|log| - 1]) + [log[|log| - 1].page]
  }

  ghost function UsedPages(log: seq<Mark>): seq<nat>
    decreases |log|
  {
    if log == [] then [] else
    UsedPages(log[..|log| - 1]) + if log[|log| - 1].used then [log[|log| - 1].page] else []
  }

  ghost predicate DistinctLists(l: Lists) {
    Distinct(l.free) && Distinct(l.used) && Distinct(l.lru)
  }

  /** Moving an element to the end keeps a list in the order of the log that now ends
      with it; removing it keeps the order of any log. */
  lemma {:induction false} OrderAfter(s: seq<nat>, log: seq<nat>, p: nat)
    requires InOrder(s, log) && Distinct(s)
    ensures InOrder(Remove(s, p) + [p], log + [p]) && Distinct(Remove(s, p) + [p])
    ensures InOrder(Remove(s, p), log + [p]) && Distinct(Remove(s, p))
  {
    InOrderRemove(s, log, p);
    RemoveMembers(s, p);
    hide InOrder, Remove;
    InOrderPush(Remove(s, p), log, p);
    InOrderExtend(Remove(s, p), log, p);
  }

  /** Each list is ordered by the last mark of its pages, and the lru list by the last
      mark as used. */
  lemma {:induction false} ListsInMarkOrder(log: seq<Mark>)
    ensures var l := ApplyMarks(EMPTY, log);
            && DistinctLists(l)
            && InOrder(l.free, MarkedPages(log)) && InOrder(l.used, MarkedPages(log))
            && InOrder(l.lru, UsedPages(log))
    decreases |log|
  {
    if log != [] {
      var before, k := log[..|log| - 1], log[|log| - 1];
      ListsInMarkOrder(before);
      hide InOrder, Distinct, Remove;
      var l := ApplyMarks(EMPTY, before);
      OrderAfter(l.free, MarkedPages(before), k.page);
      OrderAfter(l.used, MarkedPages(before), k.page);
      OrderAfter(l.lru, UsedPages(before), k.page);
      assert UsedPages(before) + [] == UsedPages(before);
    }
  }

  // ----- is the allocator ready? -----

  /** A page whose last mark was FREE after an earlier mark as USED. */
  ghost predicate Stale(x: Fate) {
    x.place == OnFree && x.inLru
  }

  lemma {:induction false} UsedImpliesLru(x: Fate, calls: seq<Call>, p: nat)
    requires x.place == OnUsed ==> x.inLru
    requires x.inLru ==> x.place != Nowhere
    ensures var y := FateAfter(x, calls, p); (y.place == OnUsed ==> y.inLru) && (y.inLru ==> y.place != Nowhere)
    decreases |calls|
  {
    if calls != [] {
      UsedImpliesLru(x, calls[..|calls| - 1], p);
    }
  }

  /** The lru list is exactly the used pages, as the allocation phase needs it, if and
      only if no page was marked FREE last after having been marked USED. */
  lemma {:induction false} ReadyIffNothingStale(s: Pool, n: nat, calls: seq<Call>)
    requires Placed(s.m, EMPTY, n)
    requires forall c :: c in calls ==> PastPage(c) <= n
    ensures Clean(ApplyMarks(EMPTY, LogAll(s, calls)))
       <==> forall p: nat :: !Stale(FateAfter(FateOf(s, EMPTY, p), calls, p))
  {
    var s', l := MarkAll(s, calls), ApplyMarks(EMPTY, LogAll(s, calls));
    MarkAllRefines(s, EMPTY, n, calls);
    assert Disjoint(l.free, l.used);
    hide Placed, MarkAll, LogAll, ApplyMarks, FateAfter;
    forall p: nat
      ensures FateAfter(FateOf(s, EMPTY, p), calls, p) == FateOf(s', l, p)
      ensures Stale(FateOf(s', l, p)) <==> p in l.lru && p !in l.used
      ensures p in l.used ==> p in l.lru
    {
      MarkAllFate(s, EMPTY, n, calls, p);
      UsedImpliesLru(FateOf(s, EMPTY, p), calls, p);
    }
  }

  /** A list cannot leave a set of nodes that is closed under `next`. */
  lemma {:induction false} RingStaysInside(m: Links, head: Ptr, t: seq<Ptr>, inside: seq<Ptr>, i: nat)
    requires Ring(m, head, t) && i < |t| && head in inside
    requires forall x :: x in inside ==> m.next(x) in inside
    ensures t[i] in inside
  {
    var c := [head] + t;
    assert m.next(c[i]) == c[i + 1];
    if i > 0 {
      RingStaysInside(m, head, t, inside, i - 1);
    }
  }

  lemma AddTailTouches(m: Links, head: Ptr, s: seq<Ptr>, e: Ptr)
    requires Ring(m, head, s) && e in s
    ensures ChangedOnly(m, AddTail(m, head, e), [head] + s)
    ensures forall x :: x in [head] + s ==> AddTail(m, head, e).next(x) in [head] + s
  {
    HeadLinks(m, head, s);
    var c := [head] + s;
    forall x | x in c ensures m.next(x) in c {
      var i :| 0 <= i < |c| && c[i] == x;
      assert m.next(c[i]) == c[Succ(i, |c|)];
    }
  }

  /** A list of lru nodes after the page has been moved to the used list was already
      there before the move. */
  lemma LruBeforeMove(m: Links, l: Lists, t: seq<Ptr>)
    requires Represents(m, l) && l.free != [] && l.free[0] in l.lru
    requires Ring(AllocLinks(m, l.free[0]), LruHead, t)
    ensures Ring(AddTail(m, LruHead, LruOf(l.free[0])), LruHead, t)
  {
    hide Cycle, AddTail, Move;
    var p, lru := l.free[0], [LruHead] + Lrus(l.lru);
    var m1, m2 := AddTail(m, LruHead, LruOf(p)), AllocLinks(m, p);
    LrusMembers(l.lru);
    AddTailTouches(m, LruHead, Lrus(l.lru), LruOf(p));
    LruApart(l.free, FreeHead, l.lru, p);
    LruApart(l.used, UsedHead, l.lru, p);
    RingApart(m, m1, lru, FreeHead, Pages(l.free));
    RingApart(m, m1, lru, UsedHead, Pages(l.used));
    NodesApart(l);
    MoveAcross(m1, FreeHead, Pages(l.free), 0, UsedHead, Pages(l.used));
    var moved := ([FreeHead] + Pages(l.free)) + ([UsedHead] + Pages(l.used));
    assert Disjoint(lru, moved);
    forall i | 0 <= i < |t| ensures t[i] in lru {
      RingStaysInside(m2, LruHead, t, lru, i);
    }
    assert Agree(m2, m1, [LruHead] + t);
    CycleFrame(m2, m1, [LruHead] + t);
  }

  /** Allocating keeps the lru list well formed exactly when the page it takes was not
      on it: a stale page at the front of the free list breaks the list. */
  lemma AllocNeedsCleanPage(m: Links, l: Lists)
    requires Represents(m, l) && l.free != []
    ensures (exists t :: Ring(AllocLinks(m, l.free[0]), LruHead, t)) <==> l.free[0] !in l.lru
  {
    var p := l.free[0];
    if p !in l.lru {
      AllocRefines(m, l);
    } else {
      LrusMembers(l.lru);
      AddTailNeedsOutside(m, LruHead, Lrus(l.lru), LruOf(p));
      forall t | Ring(AllocLinks(m, p), LruHead, t) ensures false {
        LruBeforeMove(m, l, t);
      }
    }
  }

  const USED_THEN_FREE: seq<Call> := [Call(0, 0, P_USED), Call(0, 0, P_FREE)]

  lemma {:induction false} UsedThenFreeFate(x: Fate, p: nat)
    requires !Protected(x.flags) && x.place == Nowhere && !x.inLru
    ensures var y := FateAfter(x, USED_THEN_FREE, p);
            if p == 0 then y.place == OnFree && y.inLru else y.place == Nowhere
  {
    var a, b := Call(0, 0, P_USED), Call(0, 0, P_FREE);
    assert USED_THEN_FREE[..1] == [a] && [a][..0] == [];
    assert FateAfter(x, [a], p) == if p == 0 then MarkFate(x, P_USED) else x;
    assert !Protected(P_USED) && MarksUsed(P_USED) && !MarksUsed(P_FREE);
  }

  /** Page 0, marked USED and then FREE, is on free and on lru, and the allocation that takes
      it leaves no lru ring. */
  lemma {:induction false} UsedThenFreeBreaksLru(s: Pool, n: nat)
    requires Placed(s.m, EMPTY, n) && n >= 1 && forall p: nat :: !Protected(s.flags(p))
    ensures var l := ApplyMarks(EMPTY, LogAll(s, USED_THEN_FREE));
            && l.free != [] && l.free[0] == 0 && 0 in l.lru
            && !exists t :: Ring(PageAlloc(MarkAll(s, USED_THEN_FREE)).0.m, LruHead, t)
  {
    var s', l := MarkAll(s, USED_THEN_FREE), ApplyMarks(EMPTY, LogAll(s, USED_THEN_FREE));
    assert forall c :: c in USED_THEN_FREE ==> PastPage(c) <= n;
    hide Placed, Represents, MarkAll, LogAll, ApplyMarks, FateAfter, Protected, PastPage, Ring, PageAlloc, AllocLinks;
    MarkAllRefines(s, EMPTY, n, USED_THEN_FREE);
    PlacedRepresents(s'.m, l, n);
    forall p: nat ensures FateOf(s', l, p).place == (if p == 0 then OnFree else Nowhere) && (p == 0 ==> p in l.lru) {
      MarkAllFate(s, EMPTY, n, USED_THEN_FREE, p);
      UsedThenFreeFate(FateOf(s, EMPTY, p), p);
    }
    assert FateOf(s', l, 0).place == OnFree;
    assert l.free[0] == 0 by {
      assert l.free[0] in l.free && FateOf(s', l, l.free[0]).place == OnFree;
    }
    TakesFirst(s', l);
    AllocNeedsCleanPage(s'.m, l);
  }

  lemma PlacedRepresents(m: Links, l: Lists, n: nat)
    requires Placed(m, l, n)
    ensures Represents(m, l)
  {
  }

  lemma TakesFirst(s: Pool, l: Lists)
    requires Represents(s.m, l) && l.free != []
    ensures PageAlloc(s).0.m == AllocLinks(s.m, l.free[0])
  {
    hide AllocLinks;
    HeadLinks(s.m, FreeHead, Pages(l.free));
  }

  lemma {:induction false} MarkAllAppend(s: Pool, l: Lists, calls: seq<Call>, c: Call)
    ensures MarkAll(s, calls + [c]) == MarkRange(MarkAll(s, calls), c)
    ensures ApplyMarks(l, LogAll(s, calls + [c])) ==
            ApplyMarks(ApplyMarks(l, LogAll(s, calls)), LogRange(MarkAll(s, calls), c))
  {
    hide ApplyMarks, MarkRange, LogRange;
    assert (calls + [c])[..|calls|] == calls;
    ApplyMarksConcat(l, LogAll(s, calls), LogRange(MarkAll(s, calls), c));
  }

  // ----- pmm_init -----

  datatype Region = Region(base: nat, len: nat, usable: bool)

  function End(r: Region): nat {
    (r.base + r.len) % WORD
  }

  /** The first loop: the end of the last usable region, whatever their order. */
  function HighestAddress(regions: seq<Region>): nat
    decreases |regions|
  {
    if regions == [] then 0 else
    var r := regions[|regions| - 1];
    if r.usable then End(r) else HighestAddress(regions[..|regions| - 1])
  }

  /** The call that marks a region. */
  function CallFor(r: Region): Call {
    Call(r.base, End(r), if r.usable then P_FREE else P_USED)
  }

  function RegionCalls(regions: seq<Region>, highest: nat): seq<Call>
    decreases |regions|
  {
    if regions == [] then [] else
    var r := regions[|regions| - 1];
    RegionCalls(regions[..|regions| - 1], highest) +
    if End(r) <= highest then [CallFor(r)] else []
  }

  /** The calls of `page_mark_range` that `pmm_init` makes. */
  function PmmCalls(regions: seq<Region>, highest: nat, kernelEnd: nat): seq<Call> {
    RegionCalls(regions, highest) + [Call(0, kernelEnd, P_KERNEL | P_IMMUTABLE | P_USED)]
  }

  lemma RoundUpMonotone(a: nat, b: nat)
    requires a <= b < WORD - PAGE_SIZE
    ensures RoundUp(a) <= RoundUp(b) && b < RoundUp(b) && RoundUp(a) / PAGE_SIZE == a / PAGE_SIZE + 1
  {
    hide RoundUp;
    RoundUpIs(a);
    RoundUpIs(b);
  }

  /** Every call stays inside an array with one struct for each page up to `highest`. */
  lemma {:induction false} RegionCallsFit(regions: seq<Region>, highest: nat)
    requires highest < WORD - PAGE_SIZE
    ensures forall c :: c in RegionCalls(regions, highest) ==>
              PastPage(c) <= RoundUp(highest) / PAGE_SIZE && (c.flags == P_FREE || c.flags == P_USED)
    decreases |regions|
  {
    if regions != [] {
      RegionCallsFit(regions[..|regions| - 1], highest);
      var r := regions[|regions| - 1];
      if End(r) <= highest {
        RoundUpMonotone(End(r), highest);
      }
    }
  }

  /** After `pmm_init`, no page up to the end of the kernel is free: it is used, or it
      was reserved by `page_init` and is on no list. */
  lemma {:induction false} KernelPagesNotFree(s: Pool, regions: seq<Region>, kernelEnd: nat, p: nat)
    requires var highest := HighestAddress(regions); kernelEnd <= highest < WORD - PAGE_SIZE
    requires Placed(s.m, EMPTY, RoundUp(HighestAddress(regions)) / PAGE_SIZE)
    requires p <= kernelEnd / PAGE_SIZE
    ensures var calls := PmmCalls(regions, HighestAddress(regions), kernelEnd);
            var l := ApplyMarks(EMPTY, LogAll(s, calls));
            p !in l.free && (p in l.used <==> !Protected(s.flags(p)))
  {
    var highest := HighestAddress(regions);
    var calls := PmmCalls(regions, highest, kernelEnd);
    var n := RoundUp(highest) / PAGE_SIZE;
    var last := Call(0, kernelEnd, P_KERNEL | P_IMMUTABLE | P_USED);
    RegionCallsFit(regions, highest);
    RoundUpMonotone(kernelEnd, highest);
    assert Accepted(last) && MarksUsed(last.flags) && !Protected(last.flags);
    assert forall c :: c in calls ==> PastPage(c) <= n && !Protected(c.flags);
    CoverageIsInclusive(last, p);
    assert calls[|calls| - 1] == last;
    hide Placed, Protected, MarksUsed, Accepted, MarkAll, LogAll, ApplyMarks, FateAfter;
    MarkAllRefines(s, EMPTY, n, calls);
    MarkAllFate(s, EMPTY, n, calls, p);
    if Protected(s.flags(p)) {
      ProtectedFate(FateOf(s, EMPTY, p), calls, p);
    } else {
      UnprotectedFate(FateOf(s, EMPTY, p), calls, p);
    }
  }
}
