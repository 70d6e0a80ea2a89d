/** Runs of `page_alloc` and `page_free` after any marking phase.  What a page marked USED and
    then FREE does to the lru list never reaches the free and the used list, since lru nodes
    are linked only to lru nodes. */
module PageRuns {
  import opened Rings
  import opened Frames
  import opened FrameRuns
  import opened Marking
  import opened MarkRuns

  predicate LruNode(x: Ptr, n: nat) {
    x.LruHead? || (x.LruOf? && x.page < n)
  }

  /** No link leads out of the lru nodes of the first `n` pages, whatever list they spell. */
  ghost predicate LruClosed(m: Links, n: nat) {
    && (forall x {:trigger m.next(x)} :: LruNode(x, n) ==> LruNode(m.next(x), n))
    && (forall x {:trigger m.prev(x)} :: LruNode(x, n) ==> LruNode(m.prev(x), n))
  }

  ghost predicate Below(s: seq<nat>, n: nat) {
    forall p :: p in s ==> p < n
  }

  /** The free and the used list are well formed and disjoint; of lru only that it is closed. */
  ghost predicate PagesOk(m: Links, l: Lists, n: nat) {
    && Ring(m, FreeHead, Pages(l.free)) && Ring(m, UsedHead, Pages(l.used))
    && Disjoint(l.free, l.used) && Below(l.free, n) && Below(l.used, n)
    && LruClosed(m, n)
  }

  /** Nothing but lru nodes has changed. */
  ghost predicate OnlyLru(m: Links, m': Links, n: nat) {
    forall x :: !LruNode(x, n) ==> m'.next(x) == m.next(x) && m'.prev(x) == m.prev(x)
  }

  lemma RingWithoutLru(m: Links, m': Links, head: Ptr, s: seq<nat>, n: nat)
    requires OnlyLru(m, m', n) && (head == FreeHead || head == UsedHead) && Ring(m, head, Pages(s))
    ensures Ring(m', head, Pages(s))
  {
    hide Cycle;
    PagesMembers(s);
    CycleFrame(m, m', [head] + Pages(s));
  }

  lemma AddLru(m: Links, p: nat, n: nat)
    requires LruClosed(m, n) && p < n
    ensures LruClosed(AddTail(m, LruHead, LruOf(p)), n) && OnlyLru(m, AddTail(m, LruHead, LruOf(p)), n)
  {
    assert LruNode(LruHead, n) && LruNode(LruOf(p), n);
  }

  lemma DelLru(m: Links, p: nat, n: nat)
    requires LruClosed(m, n) && p < n
    ensures LruClosed(Del(m, LruOf(p)), n) && OnlyLru(m, Del(m, LruOf(p)), n)
  {
    assert LruNode(LruOf(p), n);
  }

  /** Moving a pages node between the two page lists leaves the lru nodes alone. */
  lemma LruUntouched(m: Links, m': Links, l: Lists, n: nat)
    requires LruClosed(m, n)
    requires ChangedOnly(m, m', ([FreeHead] + Pages(l.free)) + ([UsedHead] + Pages(l.used)))
          || ChangedOnly(m, m', ([UsedHead] + Pages(l.used)) + ([FreeHead] + Pages(l.free)))
    ensures LruClosed(m', n)
  {
    PagesMembers(l.free);
    PagesMembers(l.used);
    forall x | LruNode(x, n) ensures m'.next(x) == m.next(x) && m'.prev(x) == m.prev(x) {
      assert x !in [FreeHead] + Pages(l.free) && x !in [UsedHead] + Pages(l.used);
    }
  }

  lemma AllocPages(m: Links, l: Lists, n: nat)
    requires PagesOk(m, l, n) && l.free != []
    ensures PagesOk(AllocLinks(m, l.free[0]), TakeFirst(l), n)
  {
    var p, l', m1 := l.free[0], TakeFirst(l), AddTail(m, LruHead, LruOf(l.free[0]));
    assert p in l.free;
    FirstTakenApart(m, l);
    hide Ring, AddTail, Move, ChangedOnly, LruClosed, OnlyLru;
    AddLru(m, p, n);
    RingWithoutLru(m, m1, FreeHead, l.free, n);
    RingWithoutLru(m, m1, UsedHead, l.used, n);
    NodesApart(l);
    MoveAcross(m1, FreeHead, Pages(l.free), 0, UsedHead, Pages(l.used));
    assert Without(Pages(l.free), 0) == Pages(l'.free) && [PagesOf(p)] + Pages(l.used) == Pages(l'.used);
    LruUntouched(m1, AllocLinks(m, p), l, n);
  }

  lemma FirstTakenApart(m: Links, l: Lists)
    requires Ring(m, FreeHead, Pages(l.free)) && Disjoint(l.free, l.used) && l.free != []
    ensures Disjoint(TakeFirst(l).free, TakeFirst(l).used)
    ensures forall p :: p in TakeFirst(l).free ==> p in l.free
  {
    PagesDistinct(m, FreeHead, l.free);
    assert forall p :: p in l.free[1..] ==> p in l.free && p != l.free[0];
  }

  lemma PagesDistinct(m: Links, head: Ptr, s: seq<nat>)
    requires Ring(m, head, Pages(s))
    ensures Distinct(s)
  {
    HeadLinks(m, head, Pages(s));
    assert forall i :: 0 <= i < |s| ==> Pages(s)[i] == PagesOf(s[i]);
  }

  lemma FreePages(m: Links, l: Lists, n: nat, p: nat)
    requires PagesOk(m, l, n) && p in l.used
    ensures PagesOk(FreeLinks(m, p), GiveBack(l, p), n)
  {
    var l', m1 := GiveBack(l, p), MoveTail(m, FreeHead, PagesOf(p));
    hide Ring, MoveTail, Del, ChangedOnly, LruClosed, OnlyLru, Remove, Distinct, Without;
    PagesDistinct(m, UsedHead, l.used);
    GiveBackDisjoint(l, p);
    RemoveMembers(l.used, p);
    var k := IndexIn(l.used, p);
    NodesApart(l);
    MoveTailAcross(m, UsedHead, Pages(l.used), k, FreeHead, Pages(l.free));
    assert Pages(l.free) + [PagesOf(p)] == Pages(l'.free);
    PagesWithout(l.used, k);
    LruUntouched(m, m1, l, n);
    DelLru(m1, p, n);
    RingWithoutLru(m1, FreeLinks(m, p), FreeHead, l'.free, n);
    RingWithoutLru(m1, FreeLinks(m, p), UsedHead, l'.used, n);
  }

  lemma AllocPagesStep(s: Pool, l: Lists, n: nat)
    requires PagesOk(s.m, l, n)
    ensures var (s', t) := PageAlloc(s);
            var (l', out) := StepLists(l, Alloc);
            out == [t] && PagesOk(s'.m, l', n) && s'.flags == s.flags && SameDrift(s, l, s', l')
  {
    HeadLinks(s.m, FreeHead, Pages(l.free));
    hide PagesOk, AllocLinks;
    if l.free != [] {
      AllocPages(s.m, l, n);
    }
  }

  lemma FreePagesStep(s: Pool, l: Lists, n: nat, p: nat)
    requires PagesOk(s.m, l, n) && p in l.used
    ensures var s', l' := PageFree(s, p), GiveBack(l, p);
            PagesOk(s'.m, l', n) && s'.flags == s.flags && SameDrift(s, l, s', l')
  {
    PagesDistinct(s.m, UsedHead, l.used);
    hide PagesOk, FreeLinks, Remove;
    FreePages(s.m, l, n, p);
    var k := IndexIn(l.used, p);
  }

  /** Every run of allocations and frees of used pages, after any marking phase: the free and
      the used list stay well-formed rings, disjoint and without repeats, every allocation
      returns what the queue says, and the counters keep their distances. */
  lemma {:induction false} PagesRunRefines(s: Pool, l: Lists, n: nat, ops: seq<Op>)
    requires PagesOk(s.m, l, n) && Legal(l, ops)
    ensures var (s', outs) := RunPool(s, ops);
            var (l', outs') := RunLists(l, ops);
            && outs == outs' && PagesOk(s'.m, l', n) && s'.flags == s.flags
            && Distinct(l'.free) && Distinct(l'.used) && SameDrift(s, l, s', l')
    decreases |ops|
  {
    if ops == [] {
      PagesDistinct(s.m, FreeHead, l.free);
      PagesDistinct(s.m, UsedHead, l.used);
    } else {
      hide PagesOk, PageAlloc, PageFree, TakeFirst, GiveBack;
      var s1, l1 := StepPool(s, ops[0]).0, StepLists(l, ops[0]).0;
      match ops[0] {
        case Alloc => AllocPagesStep(s, l, n);
        case Free(p) => FreePagesStep(s, l, n, p);
      }
      PagesRunRefines(s1, l1, n, ops[1..]);
    }
  }

  // ----- after a marking phase -----

  lemma LoneNode(m: Links, x: Ptr)
    requires Ring(m, x, [])
    ensures m.next(x) == x && m.prev(x) == x
  {
    SelfLinkedIsRing(m, x);
  }

  lemma PlacedLruClosed(m: Links, l: Lists, n: nat)
    requires Placed(m, l, n) && Below(l.lru, n)
    ensures LruClosed(m, n)
  {
    LrusMembers(l.lru);
    HeadLinks(m, LruHead, Lrus(l.lru));
    forall x | LruNode(x, n) ensures LruNode(m.next(x), n) && LruNode(m.prev(x), n) {
      if x.LruOf? && x.page in l.lru {
        var k :| 0 <= k < |l.lru| && l.lru[k] == x.page;
        RingNeighbours(m, LruHead, Lrus(l.lru), k);
        NeighbourInLru(l.lru, m.next(x), n);
        NeighbourInLru(l.lru, m.prev(x), n);
      } else if x.LruOf? {
        LoneNode(m, x);
      } else {
        NeighbourInLru(l.lru, m.next(x), n);
        NeighbourInLru(l.lru, m.prev(x), n);
      }
    }
  }

  lemma NeighbourInLru(lru: seq<nat>, x: Ptr, n: nat)
    requires x in [LruHead] + Lrus(lru) && Below(lru, n)
    ensures LruNode(x, n)
  {
    LrusMembers(lru);
  }

  lemma {:induction false} UncoveredFate(x: Fate, calls: seq<Call>, n: nat, p: nat)
    requires (forall c :: c in calls ==> PastPage(c) <= n) && p >= n
    ensures FateAfter(x, calls, p) == x
    decreases |calls|
  {
    hide PastPage, FirstPage, MarkFate;
    if calls != [] {
      UncoveredFate(x, calls[..|calls| - 1], n, p);
    }
  }

  /** Any sequence of marking calls leaves the free and the used list fit for such runs. */
  lemma {:induction false} MarkedPagesOk(s: Pool, n: nat, calls: seq<Call>)
    requires Placed(s.m, EMPTY, n) && forall c :: c in calls ==> PastPage(c) <= n
    ensures PagesOk(MarkAll(s, calls).m, ApplyMarks(EMPTY, LogAll(s, calls)), n)
  {
    var s', l := MarkAll(s, calls), ApplyMarks(EMPTY, LogAll(s, calls));
    hide MarkAll, LogAll, ApplyMarks, PastPage, FateAfter;
    MarkAllRefines(s, EMPTY, n, calls);
    forall p: nat | p >= n ensures p !in l.free && p !in l.used && p !in l.lru {
      MarkAllFate(s, EMPTY, n, calls, p);
      UncoveredFate(FateOf(s, EMPTY, p), calls, n, p);
      assert FateOf(s', l, p) == FateOf(s, EMPTY, p);
    }
    PlacedLruClosed(s'.m, l, n);
  }
}
