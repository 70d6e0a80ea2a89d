/** The marking phase of the allocator: `page_mark_range` moves pages between the
    lists before the first allocation. */
module Marking {
  import opened Sizes
  import opened Rings
  import opened Frames

  const P_FREE: bv64 := 0x01000
  const P_USED: bv64 := 0x02000
  const P_KERNEL: bv64 := 0x04000
  const P_VIRT: bv64 := 0x10000
  const P_PHYS: bv64 := 0x18000
  const P_IMMUTABLE: bv64 := 0x20000

  /** Pages that hold page structs or page tables are never marked again. */
  predicate Protected(flags: bv64) {
    flags & (P_PHYS | P_VIRT) != 0
  }

  predicate MarksUsed(flags: bv64) {
    flags & P_USED != 0
  }

  // ----- the code on pointers -----

  function MarkLinks(m: Links, p: nat, used: bool): Links {
    if used then MoveTail(MoveTail(m, UsedHead, PagesOf(p)), LruHead, LruOf(p))
    else MoveTail(m, FreeHead, PagesOf(p))
  }

  function SetFlags(flags: nat -> bv64, p: nat, f: bv64): nat -> bv64 {
    (q: nat) => if q == p then f else flags(q)
  }

  /** The body of the loop of `page_mark_range`. */
  function MarkPage(s: Pool, p: nat, f: bv64): Pool {
    if Protected(s.flags(p)) then s else
    Pool(MarkLinks(s.m, p, MarksUsed(f)), SetFlags(s.flags, p, f),
         s.numUsed + if MarksUsed(f) then 1 else 0, s.numFree + if MarksUsed(f) then 0 else 1)
  }

  /** The loop of `page_mark_range` over the pages `from` to `to - 1`. */
  function MarkPages(s: Pool, from: nat, to: nat, f: bv64): Pool
    decreases if from < to then to - from else 0
  {
    if from >= to then s else MarkPages(MarkPage(s, from, f), from + 1, to, f)
  }

  datatype Call = Call(start: nat, end: nat, flags: bv64)

  function FirstPage(c: Call): nat {
    RoundDown(c.start) / PAGE_SIZE
  }

  function PastPage(c: Call): nat {
    RoundUp(c.end) / PAGE_SIZE
  }

  /** The calls that do not return -1. */
  predicate Accepted(c: Call) {
    && c.start <= c.end
    && c.flags & (P_USED | P_FREE) != P_USED | P_FREE
    && c.flags & (P_USED | P_FREE) != 0
  }

  function MarkRange(s: Pool, c: Call): Pool {
    if !Accepted(c) then s else MarkPages(s, FirstPage(c), PastPage(c), c.flags)
  }

  function MarkAll(s: Pool, calls: seq<Call>): Pool
    decreases |calls|
  {
    if calls == [] then s else MarkRange(MarkAll(s, calls[..|calls| - 1]), calls[|calls| - 1])
  }

  // ----- the same on lists -----

  datatype Mark = Mark(page: nat, used: bool)

  function ApplyMark(l: Lists, k: Mark): Lists {
    if k.used then Lists(Remove(l.free, k.page), Remove(l.used, k.page) + [k.page], Remove(l.lru, k.page) + [k.page])
    else Lists(Remove(l.free, k.page) + [k.page], Remove(l.used, k.page), l.lru)
  }

  function ApplyMarks(l: Lists, log: seq<Mark>): Lists
    decreases |log|
  {
    if log == [] then l else ApplyMark(ApplyMarks(l, log[..|log| - 1]), log[|log| - 1])
  }

  /** The links spell out the lists, and every page below `n` that is on no list is
      linked to itself, as `page_init` leaves it. */
  ghost predicate Placed(m: Links, l: Lists, n: nat) {
    && Represents(m, l)
    && (forall p: nat :: p < n && p !in l.free && p !in l.used ==> Ring(m, PagesOf(p), []))
    && (forall p: nat :: p < n && p !in l.lru ==> Ring(m, LruOf(p), []))
  }

  // ----- one mark on pointers refines one mark on lists -----

  /** `list_move_tail` of a page to one of the two page lists, from that list, from
      the other one, or from none. */
  lemma {:induction false} MovePage(m: Links, dest: Ptr, d: seq<nat>, other: Ptr, o: seq<nat>, p: nat)
    requires Ring(m, dest, Pages(d)) && Ring(m, other, Pages(o))
    requires Disjoint([dest] + Pages(d), [other] + Pages(o)) && Disjoint([other] + Pages(o), [dest] + Pages(d))
    requires !dest.PagesOf? && !other.PagesOf? && Distinct(d) && Distinct(o) && Disjoint(d, o)
    requires p in d || p in o || Ring(m, PagesOf(p), [])
    ensures var m' := MoveTail(m, dest, PagesOf(p));
            && Ring(m', dest, Pages(Remove(d, p) + [p])) && Ring(m', other, Pages(Remove(o, p)))
            && ChangedOnly(m, m', [PagesOf(p)] + (([other] + Pages(o)) + ([dest] + Pages(d))))
  {
    hide Ring, MoveTail, Distinct, Remove, Without;
    var m' := MoveTail(m, dest, PagesOf(p));
    var all := [PagesOf(p)] + (([other] + Pages(o)) + ([dest] + Pages(d)));
    if p in d {
      var k := IndexIn(d, p);
      MoveTailWithin(m, dest, Pages(d), k);
      PagesWithout(d, k);
      assert Pages(Without(d, k)) + [PagesOf(p)] == Pages(Without(d, k) + [p]);
      RingApart(m, m', [dest] + Pages(d), other, Pages(o));
      RemoveAbsent(o, p);
    } else if p in o {
      var k := IndexIn(o, p);
      MoveTailAcross(m, other, Pages(o), k, dest, Pages(d));
      PagesWithout(o, k);
      RemoveAbsent(d, p);
      assert Pages(d) + [PagesOf(p)] == Pages(d + [p]);
    } else {
      PagesMembers(d);
      PagesMembers(o);
      MoveTailAlone(m, PagesOf(p), dest, Pages(d));
      RemoveAbsent(d, p);
      RemoveAbsent(o, p);
      assert Pages(d) + [PagesOf(p)] == Pages(d + [p]);
      RingApart(m, m', [PagesOf(p), dest] + Pages(d), other, Pages(o));
    }
  }

  lemma {:induction false} MoveLru(m: Links, l: seq<nat>, p: nat)
    requires Ring(m, LruHead, Lrus(l)) && Distinct(l)
    requires p in l || Ring(m, LruOf(p), [])
    ensures var m' := MoveTail(m, LruHead, LruOf(p));
            && Ring(m', LruHead, Lrus(Remove(l, p) + [p]))
            && ChangedOnly(m, m', [LruOf(p), LruHead] + Lrus(l))
  {
    hide Ring, MoveTail, Distinct, Remove, Without;
    if p in l {
      var k := IndexIn(l, p);
      MoveTailWithin(m, LruHead, Lrus(l), k);
      PagesWithout(l, k);
      assert Lrus(Without(l, k)) + [LruOf(p)] == Lrus(Without(l, k) + [p]);
    } else {
      LrusMembers(l);
      MoveTailAlone(m, LruOf(p), LruHead, Lrus(l));
      RemoveAbsent(l, p);
      assert Lrus(l) + [LruOf(p)] == Lrus(l + [p]);
    }
  }

  lemma ApplyMarkDisjoint(l: Lists, k: Mark)
    requires Distinct(l.free) && Distinct(l.used) && Disjoint(l.free, l.used)
    ensures Disjoint(ApplyMark(l, k).free, ApplyMark(l, k).used)
  {
    hide Remove;
    RemoveMembers(l.free, k.page);
    RemoveMembers(l.used, k.page);
  }

  lemma LruNodesApart(l: Lists, p: nat)
    ensures var pages := [PagesOf(p)] + (([FreeHead] + Pages(l.free)) + ([UsedHead] + Pages(l.used)));
            var pages' := [PagesOf(p)] + (([UsedHead] + Pages(l.used)) + ([FreeHead] + Pages(l.free)));
            Disjoint([LruHead] + Lrus(l.lru), pages) && Disjoint([LruHead] + Lrus(l.lru), pages')
    ensures forall q :: Disjoint([LruOf(q)] + [],
            [PagesOf(p)] + (([FreeHead] + Pages(l.free)) + ([UsedHead] + Pages(l.used))))
    ensures forall q :: Disjoint([LruOf(q)] + [],
            [PagesOf(p)] + (([UsedHead] + Pages(l.used)) + ([FreeHead] + Pages(l.free))))
  {
    PagesMembers(l.free);
    PagesMembers(l.used);
    LrusMembers(l.lru);
  }

  /** Nodes on no list keep their links to themselves. */
  lemma AloneKept(m: Links, m': Links, c: seq<Ptr>, e: Ptr)
    requires ChangedOnly(m, m', c) && Ring(m, e, []) && e !in c
    ensures Ring(m', e, [])
  {
    RingApart(m, m', c, e, []);
  }

  lemma MarkFreeRefines(m: Links, l: Lists, n: nat, p: nat)
    requires Placed(m, l, n) && p < n
    ensures Placed(MarkLinks(m, p, false), ApplyMark(l, Mark(p, false)), n)
  {
    hide Ring, MoveTail, Distinct, Remove, ChangedOnly, Disjoint;
    RepresentsDistinct(m, l);
    NodesApart(l);
    MovePage(m, FreeHead, l.free, UsedHead, l.used, p);
    var m', l' := MarkLinks(m, p, false), ApplyMark(l, Mark(p, false));
    var c := [PagesOf(p)] + (([UsedHead] + Pages(l.used)) + ([FreeHead] + Pages(l.free)));
    LruNodesApart(l, p);
    RingApart(m, m', c, LruHead, Lrus(l.lru));
    ApplyMarkDisjoint(l, Mark(p, false));
    RemoveMembers(l.free, p);
    RemoveMembers(l.used, p);
    PagesMembers(l.free);
    PagesMembers(l.used);
    forall q: nat | q < n && q !in l'.free && q !in l'.used ensures Ring(m', PagesOf(q), []) {
      AloneKept(m, m', c, PagesOf(q));
    }
    forall q: nat | q < n && q !in l'.lru ensures Ring(m', LruOf(q), []) {
      RingApart(m, m', c, LruOf(q), []);
    }
  }

  lemma MarkUsedRefines(m: Links, l: Lists, n: nat, p: nat)
    requires Placed(m, l, n) && p < n
    ensures Placed(MarkLinks(m, p, true), ApplyMark(l, Mark(p, true)), n)
  {
    hide Ring, MoveTail, Distinct, Remove, ChangedOnly, Disjoint;
    RepresentsDistinct(m, l);
    NodesApart(l);
    MovePage(m, UsedHead, l.used, FreeHead, l.free, p);
    var m1 := MoveTail(m, UsedHead, PagesOf(p));
    var c := [PagesOf(p)] + (([FreeHead] + Pages(l.free)) + ([UsedHead] + Pages(l.used)));
    LruNodesApart(l, p);
    RingApart(m, m1, c, LruHead, Lrus(l.lru));
    if p !in l.lru {
      RingApart(m, m1, c, LruOf(p), []);
    }
    MoveLru(m1, l.lru, p);
    var m', l' := MarkLinks(m, p, true), ApplyMark(l, Mark(p, true));
    var d := [LruOf(p), LruHead] + Lrus(l.lru);
    LruApart(l'.free, FreeHead, l.lru, p);
    LruApart(l'.used, UsedHead, l.lru, p);
    RingApart(m1, m', d, FreeHead, Pages(l'.free));
    RingApart(m1, m', d, UsedHead, Pages(l'.used));
    ApplyMarkDisjoint(l, Mark(p, true));
    MarkUsedAlone(m, m1, m', l, n, p);
  }

  /** The part of `MarkUsedRefines` about nodes on no list. */
  lemma MarkUsedAlone(m: Links, m1: Links, m': Links, l: Lists, n: nat, p: nat)
    requires Placed(m, l, n) && p < n
    requires ChangedOnly(m, m1, [PagesOf(p)] + (([FreeHead] + Pages(l.free)) + ([UsedHead] + Pages(l.used))))
    requires ChangedOnly(m1, m', [LruOf(p), LruHead] + Lrus(l.lru))
    ensures var l' := ApplyMark(l, Mark(p, true));
            && (forall q: nat :: q < n && q !in l'.free && q !in l'.used ==> Ring(m', PagesOf(q), []))
            && (forall q: nat :: q < n && q !in l'.lru ==> Ring(m', LruOf(q), []))
  {
    hide Ring, Distinct, Remove, ChangedOnly;
    var l' := ApplyMark(l, Mark(p, true));
    var c := [PagesOf(p)] + (([FreeHead] + Pages(l.free)) + ([UsedHead] + Pages(l.used)));
    var d := [LruOf(p), LruHead] + Lrus(l.lru);
    RepresentsDistinct(m, l);
    RemoveMembers(l.free, p);
    RemoveMembers(l.used, p);
    RemoveMembers(l.lru, p);
    PagesMembers(l.free);
    PagesMembers(l.used);
    LrusMembers(l.lru);
    forall q: nat | q < n && q !in l'.free && q !in l'.used ensures Ring(m', PagesOf(q), []) {
      AloneKept(m, m1, c, PagesOf(q));
      AloneKept(m1, m', d, PagesOf(q));
    }
    forall q: nat | q < n && q !in l'.lru ensures Ring(m', LruOf(q), []) {
      AloneKept(m, m1, c, LruOf(q));
      AloneKept(m1, m', d, LruOf(q));
    }
  }

  // ----- loops and calls -----

  /** The marks that the loop makes: one for each page of the range that is not
      protected. */
  function LogPages(s: Pool, from: nat, to: nat, f: bv64): seq<Mark>
    decreases if from < to then to - from else 0
  {
    if from >= to then [] else
    (if Protected(s.flags(from)) then [] else [Mark(from, MarksUsed(f))]) +
    LogPages(MarkPage(s, from, f), from + 1, to, f)
  }

  function LogRange(s: Pool, c: Call): seq<Mark> {
    if !Accepted(c) then [] else LogPages(s, FirstPage(c), PastPage(c), c.flags)
  }

  function LogAll(s: Pool, calls: seq<Call>): seq<Mark>
    decreases |calls|
  {
    if calls == [] then [] else
    var before := calls[..|calls| - 1];
    LogAll(s, before) + LogRange(MarkAll(s, before), calls[|calls| - 1])
  }

  /** How many pages of the range may be marked. */
  function Unprotected(flags: nat -> bv64, from: nat, to: nat): nat
    decreases if from < to then to - from else 0
  {
    if from >= to then 0 else (if Protected(flags(from)) then 0 else 1) + Unprotected(flags, from + 1, to)
  }

  lemma {:induction false} UnprotectedSame(f: nat -> bv64, g: nat -> bv64, from: nat, to: nat)
    requires forall p: nat :: from <= p < to ==> f(p) == g(p)
    ensures Unprotected(f, from, to) == Unprotected(g, from, to)
    decreases if from < to then to - from else 0
  {
    hide Protected;
    if from < to {
      UnprotectedSame(f, g, from + 1, to);
    }
  }

  /** A range marked USED adds its unprotected pages to the used counter, one marked FREE adds
      them to the free counter; nothing is taken from the other counter, also when pages move. */
  lemma {:induction false} RangeCounts(s: Pool, from: nat, to: nat, f: bv64)
    ensures var s', n := MarkPages(s, from, to, f), Unprotected(s.flags, from, to);
            if f & 0x2000 != 0 then s'.numUsed == s.numUsed + n && s'.numFree == s.numFree
            else s'.numFree == s.numFree + n && s'.numUsed == s.numUsed
    decreases if from < to then to - from else 0
  {
    if from < to {
      hide Protected, MarkLinks;
      var s1 := MarkPage(s, from, f);
      UnprotectedSame(s.flags, s1.flags, from + 1, to);
      RangeCounts(s1, from + 1, to, f);
    }
  }

  /** A call is accepted if the range is not backwards and exactly one of USED (bit 13) and FREE
      (bit 12) is given. */
  lemma AcceptedWhen(c: Call)
    ensures Accepted(c) <==> c.start <= c.end && ((c.flags >> 12) & 3 == 1 || (c.flags >> 12) & 3 == 2)
  {
    BitsUsedOrFree(c.flags);
  }

  lemma BitsUsedOrFree(f: bv64)
    ensures f & (0x2000 | 0x1000) != 0x2000 | 0x1000 && f & (0x2000 | 0x1000) != 0 <==>
            (f >> 12) & 3 == 1 || (f >> 12) & 3 == 2
  {
  }

  lemma {:induction false} ApplyMarksConcat(l: Lists, a: seq<Mark>, b: seq<Mark>)
    ensures ApplyMarks(l, a + b) == ApplyMarks(ApplyMarks(l, a), b)
    decreases |b|
  {
    if b == [] {
      assert a + b == a;
    } else {
      assert (a + b)[..|a + b| - 1] == a + b[..|b| - 1];
      ApplyMarksConcat(l, a, b[..|b| - 1]);
    }
  }

  lemma MarkPageRefines(s: Pool, l: Lists, n: nat, p: nat, f: bv64)
    requires Placed(s.m, l, n) && p < n
    ensures Placed(MarkPage(s, p, f).m, if Protected(s.flags(p)) then l else ApplyMark(l, Mark(p, MarksUsed(f))), n)
  {
    hide Placed, MarkLinks, ApplyMark, Protected, MarksUsed;
    if !Protected(s.flags(p)) {
      if MarksUsed(f) {
        MarkUsedRefines(s.m, l, n, p);
      } else {
        MarkFreeRefines(s.m, l, n, p);
      }
    }
  }

  lemma LoopStep(s: Pool, l: Lists, from: nat, to: nat, f: bv64)
    requires from < to
    ensures var s1 := MarkPage(s, from, f);
            var l1 := if Protected(s.flags(from)) then l else ApplyMark(l, Mark(from, MarksUsed(f)));
            && MarkPages(s, from, to, f) == MarkPages(s1, from + 1, to, f)
            && ApplyMarks(l, LogPages(s, from, to, f)) == ApplyMarks(l1, LogPages(s1, from + 1, to, f))
  {
    hide ApplyMark, MarkPage, Protected, MarksUsed;
    var k := if Protected(s.flags(from)) then [] else [Mark(from, MarksUsed(f))];
    OneMark(l, k);
    ApplyMarksConcat(l, k, LogPages(MarkPage(s, from, f), from + 1, to, f));
  }

  lemma {:induction false} MarkPagesRefines(s: Pool, l: Lists, n: nat, from: nat, to: nat, f: bv64)
    requires Placed(s.m, l, n) && to <= n
    ensures Placed(MarkPages(s, from, to, f).m, ApplyMarks(l, LogPages(s, from, to, f)), n)
    decreases if from < to then to - from else 0
  {
    hide Placed, MarkPage, ApplyMark, Protected, MarksUsed;
    if from < to {
      LoopStep(s, l, from, to, f);
      MarkPageRefines(s, l, n, from, f);
      var l1 := if Protected(s.flags(from)) then l else ApplyMark(l, Mark(from, MarksUsed(f)));
      MarkPagesRefines(MarkPage(s, from, f), l1, n, from + 1, to, f);
    }
  }

  lemma {:induction false} OneMark(l: Lists, k: seq<Mark>)
    requires |k| <= 1
    ensures ApplyMarks(l, k) == if k == [] then l else ApplyMark(l, k[0])
  {
  }

  /** Every sequence of `page_mark_range` calls inside the page array leaves the links
      spelling out the lists that its marks, in order, make. */
  lemma {:induction false} MarkAllRefines(s: Pool, l: Lists, n: nat, calls: seq<Call>)
    requires Placed(s.m, l, n)
    requires forall c :: c in calls ==> PastPage(c) <= n
    ensures Placed(MarkAll(s, calls).m, ApplyMarks(l, LogAll(s, calls)), n)
    decreases |calls|
  {
    if calls != [] {
      hide Placed, MarkPages, LogPages, ApplyMarks, Accepted, FirstPage, PastPage;
      var before, c := calls[..|calls| - 1], calls[|calls| - 1];
      MarkAllRefines(s, l, n, before);
      var s1, l1 := MarkAll(s, before), ApplyMarks(l, LogAll(s, before));
      ApplyMarksConcat(l, LogAll(s, before), LogRange(s1, c));
      if Accepted(c) {
        MarkPagesRefines(s1, l1, n, FirstPage(c), PastPage(c), c.flags);
      } else {
        assert LogAll(s, before) + [] == LogAll(s, before);
      }
    }
  }
}
