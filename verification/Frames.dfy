/** The physical frame allocator: three lists threaded through the page structs,
    and two counters.  `Pool` is the state the code keeps in pointers; `Lists` is
    what those pointers are meant to say. */
module Frames {
  import opened Rings

  /** The page structs and the counters.  `flags` is indexed by page. */
  datatype Pool = Pool(m: Links, flags: nat -> bv64, numUsed: int, numFree: int)

  /** The pages on each list, by index into the page array, in list order. */
  datatype Lists = Lists(free: seq<nat>, used: seq<nat>, lru: seq<nat>)

  function Pages(s: seq<nat>): (r: seq<Ptr>)
    ensures |r| == |s| && forall i :: 0 <= i < |s| ==> r[i] == PagesOf(s[i])
  {
    seq(|s|, i requires 0 <= i < |s| => PagesOf(s[i]))
  }

  function Lrus(s: seq<nat>): (r: seq<Ptr>)
    ensures |r| == |s| && forall i :: 0 <= i < |s| ==> r[i] == LruOf(s[i])
  {
    seq(|s|, i requires 0 <= i < |s| => LruOf(s[i]))
  }

  /** The links spell out the three lists, and no page is both free and used. */
  ghost predicate Represents(m: Links, l: Lists) {
    && Ring(m, FreeHead, Pages(l.free))
    && Ring(m, UsedHead, Pages(l.used))
    && Ring(m, LruHead, Lrus(l.lru))
    && Disjoint(l.free, l.used)
  }

  /** The lru list holds exactly the used pages. */
  ghost predicate Clean(l: Lists) {
    forall p :: p in l.lru <==> p in l.used
  }

  // ----- page_alloc and page_free on pointers -----

  /** `Wild` is the outcome of using a list head as if it were embedded in a page. */
  datatype Taken = NoPage | Page(page: nat) | Wild

  function AllocLinks(m: Links, p: nat): Links {
    Move(AddTail(m, LruHead, LruOf(p)), UsedHead, PagesOf(p))
  }

  function FreeLinks(m: Links, p: nat): Links {
    Del(MoveTail(m, FreeHead, PagesOf(p)), LruOf(p))
  }

  function PageAlloc(s: Pool): (Pool, Taken) {
    var e := s.m.next(FreeHead);
    if e == FreeHead then (s, NoPage) else
    match e
    case PagesOf(p) =>
      (s.(m := AllocLinks(s.m, p), numUsed := s.numUsed + 1, numFree := s.numFree - 1), Page(p))
    case _ => (s, Wild)
  }

  function PageFree(s: Pool, p: nat): Pool {
    s.(m := FreeLinks(s.m, p), numUsed := s.numUsed - 1, numFree := s.numFree + 1)
  }

  // ----- the same operations on lists -----

  function Remove<T(==)>(s: seq<T>, x: T): seq<T> {
    if s == [] then [] else if s[0] == x then s[1..] else [s[0]] + Remove(s[1..], x)
  }

  function TakeFirst(l: Lists): Lists
    requires l.free != []
  {
    Lists(l.free[1..], [l.free[0]] + l.used, l.lru + [l.free[0]])
  }

  function GiveBack(l: Lists, p: nat): Lists {
    Lists(l.free + [p], Remove(l.used, p), Remove(l.lru, p))
  }

  lemma {:induction false} RemoveIsWithout<T>(s: seq<T>, k: nat)
    requires k < |s| && s[k] !in s[..k]
    ensures Remove(s, s[k]) == Without(s, k)
  {
    if k > 0 {
      assert s[1..][..k - 1] == s[..k][1..];
      RemoveIsWithout(s[1..], k - 1);
      assert [s[0]] + Without(s[1..], k - 1) == Without(s, k);
    }
  }

  lemma {:induction false} RemoveAbsent<T>(s: seq<T>, x: T)
    requires x !in s
    ensures Remove(s, x) == s
  {
    if s != [] {
      RemoveAbsent(s[1..], x);
    }
  }

  lemma {:induction false} RemoveMembers<T>(s: seq<T>, x: T)
    requires Distinct(s)
    ensures Distinct(Remove(s, x)) && x !in Remove(s, x)
    ensures forall y :: y in Remove(s, x) <==> y in s && y != x
  {
    if x in s {
      var k :| 0 <= k < |s| && s[k] == x;
      RemoveIsWithout(s, k);
      DistinctWithout(s, k);
      forall y | y in s && y != x ensures y in Remove(s, x) {
        var i :| 0 <= i < |s| && s[i] == y;
        assert Without(s, k)[if i < k then i else i - 1] == y;
      }
    } else {
      RemoveAbsent(s, x);
    }
  }

  lemma RepresentsDistinct(m: Links, l: Lists)
    requires Represents(m, l)
    ensures Distinct(l.free) && Distinct(l.used) && Distinct(l.lru)
  {
    HeadLinks(m, FreeHead, Pages(l.free));
    HeadLinks(m, UsedHead, Pages(l.used));
    HeadLinks(m, LruHead, Lrus(l.lru));
    assert forall i :: 0 <= i < |l.free| ==> Pages(l.free)[i] == PagesOf(l.free[i]);
    assert forall i :: 0 <= i < |l.used| ==> Pages(l.used)[i] == PagesOf(l.used[i]);
    assert forall i :: 0 <= i < |l.lru| ==> Lrus(l.lru)[i] == LruOf(l.lru[i]);
  }

  // ----- pointer operations refine list operations -----

  lemma PagesMembers(s: seq<nat>)
    ensures forall p :: PagesOf(p) in Pages(s) <==> p in s
    ensures forall e :: e in Pages(s) ==> e.PagesOf?
  {
    forall p | p in s ensures PagesOf(p) in Pages(s) {
      var i :| 0 <= i < |s| && s[i] == p;
      assert Pages(s)[i] == PagesOf(p);
    }
  }

  lemma LrusMembers(s: seq<nat>)
    ensures forall p :: LruOf(p) in Lrus(s) <==> p in s
    ensures forall e :: e in Lrus(s) ==> e.LruOf?
  {
    forall p | p in s ensures LruOf(p) in Lrus(s) {
      var i :| 0 <= i < |s| && s[i] == p;
      assert Lrus(s)[i] == LruOf(p);
    }
  }

  /** The two lists through the `pages` nodes share no node, and neither shares a
      node with the list through the `lru` nodes. */
  lemma NodesApart(l: Lists)
    requires Disjoint(l.free, l.used)
    ensures Disjoint([FreeHead] + Pages(l.free), [UsedHead] + Pages(l.used))
    ensures Disjoint([UsedHead] + Pages(l.used), [FreeHead] + Pages(l.free))
    ensures Disjoint(l.used, l.free)
  {
    PagesMembers(l.free);
    PagesMembers(l.used);
  }

  lemma LruApart(s: seq<nat>, head: Ptr, t: seq<nat>, p: nat)
    requires head == FreeHead || head == UsedHead
    ensures Disjoint([head] + Pages(s), [LruOf(p), LruHead] + Lrus(t))
    ensures Disjoint([head] + Pages(s), [LruHead] + Lrus(t))
    ensures Disjoint([LruHead] + Lrus(t), [head] + Pages(s))
  {
    PagesMembers(s);
    LrusMembers(t);
  }

  lemma DisjointConcat<T>(a: seq<T>, b: seq<T>, c: seq<T>)
    requires Disjoint(a, b) && Disjoint(a, c)
    ensures Disjoint(a, b + c)
  {
  }

  lemma AllocRefines(m: Links, l: Lists)
    requires Represents(m, l) && l.free != [] && l.free[0] !in l.lru
    ensures Represents(AllocLinks(m, l.free[0]), TakeFirst(l))
  {
    hide Ring, Cycle, AddTail, Move, ChangedOnly;
    var p, l' := l.free[0], TakeFirst(l);
    var free, used, lru := Pages(l.free), Pages(l.used), Lrus(l.lru);
    LrusMembers(l.lru);
    AddTailRefines(m, LruHead, lru, LruOf(p));
    var m1 := AddTail(m, LruHead, LruOf(p));
    assert lru + [LruOf(p)] == Lrus(l'.lru);
    LruApart(l.free, FreeHead, l.lru, p);
    LruApart(l.used, UsedHead, l.lru, p);
    RingApart(m, m1, [LruOf(p), LruHead] + lru, FreeHead, free);
    RingApart(m, m1, [LruOf(p), LruHead] + lru, UsedHead, used);
    NodesApart(l);
    MoveAcross(m1, FreeHead, free, 0, UsedHead, used);
    assert Without(free, 0) == Pages(l'.free) && [PagesOf(p)] + used == Pages(l'.used);
    LruApart(l.free, FreeHead, l'.lru, p);
    LruApart(l.used, UsedHead, l'.lru, p);
    DisjointConcat([LruHead] + Lrus(l'.lru), [FreeHead] + free, [UsedHead] + used);
    RingApart(m1, AllocLinks(m, p), ([FreeHead] + free) + ([UsedHead] + used), LruHead, Lrus(l'.lru));
    RepresentsDistinct(m, l);
  }

  lemma PagesWithout(s: seq<nat>, k: nat)
    requires k < |s|
    ensures Without(Pages(s), k) == Pages(Without(s, k)) && Without(Lrus(s), k) == Lrus(Without(s, k))
  {
  }

  lemma GiveBackDisjoint(l: Lists, p: nat)
    requires Disjoint(l.free, l.used) && Distinct(l.used)
    ensures Disjoint(GiveBack(l, p).free, GiveBack(l, p).used)
  {
    RemoveMembers(l.used, p);
  }

  lemma FreeRefines(m: Links, l: Lists, p: nat)
    requires Represents(m, l) && p in l.used && p in l.lru
    ensures Represents(FreeLinks(m, p), GiveBack(l, p))
  {
    hide Ring, Cycle, MoveTail, Del, ChangedOnly, Distinct, Remove, Without, Disjoint;
    RepresentsDistinct(m, l);
    GiveBackDisjoint(l, p);
    var l' := GiveBack(l, p);
    var free, used, lru := Pages(l.free), Pages(l.used), Lrus(l.lru);
    var k := IndexIn(l.used, p);
    var j := IndexIn(l.lru, p);
    NodesApart(l);
    MoveTailAcross(m, UsedHead, used, k, FreeHead, free);
    var m1 := MoveTail(m, FreeHead, PagesOf(p));
    assert free + [PagesOf(p)] == Pages(l'.free);
    PagesWithout(l.used, k);
    LruApart(l.free, FreeHead, l.lru, p);
    LruApart(l.used, UsedHead, l.lru, p);
    DisjointConcat([LruHead] + lru, [UsedHead] + used, [FreeHead] + free);
    RingApart(m, m1, ([UsedHead] + used) + ([FreeHead] + free), LruHead, lru);
    DelRefines(m1, LruHead, lru, j);
    PagesWithout(l.lru, j);
    LruApart(l'.free, FreeHead, l'.lru, p);
    LruApart(l'.used, UsedHead, l'.lru, p);
    RingApart(m1, FreeLinks(m, p), [LruHead] + Lrus(l'.lru), FreeHead, Pages(l'.free));
    RingApart(m1, FreeLinks(m, p), [LruHead] + Lrus(l'.lru), UsedHead, Pages(l'.used));
  }

  lemma IndexIn<T>(s: seq<T>, x: T) returns (k: nat)
    requires Distinct(s) && x in s
    ensures k < |s| && s[k] == x && Remove(s, x) == Without(s, k)
  {
    k :| 0 <= k < |s| && s[k] == x;
    RemoveIsWithout(s, k);
  }

  /** Taking a used page off its two lists, as `mmu_init` does with the PML4. */
  lemma {:induction false} RetireRefines(m: Links, l: Lists, p: nat)
    requires Represents(m, l) && p in l.used && p in l.lru
    ensures Represents(Del(Del(m, PagesOf(p)), LruOf(p)), Lists(l.free, Remove(l.used, p), Remove(l.lru, p)))
  {
    hide Ring, Del, ChangedOnly, Distinct, Remove, Without, Disjoint;
    RepresentsDistinct(m, l);
    var l' := Lists(l.free, Remove(l.used, p), Remove(l.lru, p));
    var k := IndexIn(l.used, p);
    var j := IndexIn(l.lru, p);
    var m1 := Del(m, PagesOf(p));
    DelRefines(m, UsedHead, Pages(l.used), k);
    PagesWithout(l.used, k);
    RetireDisjoint(l, p);
    NodesApart(l');
    RingApart(m, m1, [UsedHead] + Pages(l'.used), FreeHead, Pages(l.free));
    LruApart(l'.used, UsedHead, l.lru, p);
    RingApart(m, m1, [UsedHead] + Pages(l'.used), LruHead, Lrus(l.lru));
    DelRefines(m1, LruHead, Lrus(l.lru), j);
    PagesWithout(l.lru, j);
    LruApart(l'.free, FreeHead, l'.lru, p);
    LruApart(l'.used, UsedHead, l'.lru, p);
    RingApart(m1, Del(m1, LruOf(p)), [LruHead] + Lrus(l'.lru), FreeHead, Pages(l'.free));
    RingApart(m1, Del(m1, LruOf(p)), [LruHead] + Lrus(l'.lru), UsedHead, Pages(l'.used));
  }

  lemma {:induction false} RetireDisjoint(l: Lists, p: nat)
    requires Disjoint(l.free, l.used) && Distinct(l.used) && Distinct(l.lru)
    ensures Disjoint(l.free, Remove(l.used, p))
    ensures Clean(l) ==> Clean(Lists(l.free, Remove(l.used, p), Remove(l.lru, p)))
  {
    RemoveMembers(l.used, p);
    RemoveMembers(l.lru, p);
  }

  /** A page on no list has nothing to be taken off. */
  lemma RetireAlone(m: Links, l: Lists, p: nat)
    requires Represents(m, l) && Ring(m, PagesOf(p), []) && Ring(m, LruOf(p), [])
    ensures Represents(Del(Del(m, PagesOf(p)), LruOf(p)), l)
  {
    DelAlone(m, PagesOf(p));
    var m1 := Del(m, PagesOf(p));
    RingApart(m, m1, [], LruOf(p), []);
    DelAlone(m1, LruOf(p));
    var m2 := Del(m1, LruOf(p));
    hide Ring, Del;
    RingApart(m, m2, [], FreeHead, Pages(l.free));
    RingApart(m, m2, [], UsedHead, Pages(l.used));
    RingApart(m, m2, [], LruHead, Lrus(l.lru));
  }

  /** A free page whose lru node is alone. */
  lemma {:induction false} RetireFree(m: Links, l: Lists, p: nat)
    requires Represents(m, l) && p in l.free && Ring(m, LruOf(p), [])
    ensures Represents(Del(Del(m, PagesOf(p)), LruOf(p)), Lists(Remove(l.free, p), l.used, l.lru))
  {
    hide Ring, Del, ChangedOnly, Distinct, Remove, Without, Disjoint;
    RepresentsDistinct(m, l);
    var l' := Lists(Remove(l.free, p), l.used, l.lru);
    var k := IndexIn(l.free, p);
    var m1 := Del(m, PagesOf(p));
    DelRefines(m, FreeHead, Pages(l.free), k);
    PagesWithout(l.free, k);
    RetireFreeDisjoint(l, p);
    NodesApart(l');
    RingApart(m, m1, [FreeHead] + Pages(l'.free), UsedHead, Pages(l.used));
    LruApart(l'.free, FreeHead, l.lru, p);
    RingApart(m, m1, [FreeHead] + Pages(l'.free), LruHead, Lrus(l.lru));
    LoneLruApart(l'.free, p);
    RingApart(m, m1, [FreeHead] + Pages(l'.free), LruOf(p), []);
    DelAlone(m1, LruOf(p));
    var m2 := Del(m1, LruOf(p));
    NothingApart([FreeHead] + Pages(l'.free));
    NothingApart([UsedHead] + Pages(l'.used));
    NothingApart([LruHead] + Lrus(l'.lru));
    RingApart(m1, m2, [], FreeHead, Pages(l'.free));
    RingApart(m1, m2, [], UsedHead, Pages(l'.used));
    RingApart(m1, m2, [], LruHead, Lrus(l'.lru));
  }

  lemma NothingApart(c: seq<Ptr>)
    ensures Disjoint(c, [])
  {
  }

  lemma LoneLruApart(s: seq<nat>, p: nat)
    ensures Disjoint([LruOf(p)] + [], [FreeHead] + Pages(s))
  {
    PagesMembers(s);
  }

  lemma {:induction false} RetireFreeDisjoint(l: Lists, p: nat)
    requires Disjoint(l.free, l.used) && Distinct(l.free)
    ensures Disjoint(Remove(l.free, p), l.used)
  {
    RemoveMembers(l.free, p);
  }

  /** The page can be taken off the lists: it is used, or its lru node is alone and it is
      free or on no list.  (A page that was freed after use has a stale lru node.) */
  ghost predicate Retirable(m: Links, l: Lists, p: nat) {
    p in l.used || (p !in l.lru && Ring(m, LruOf(p), []) && (p in l.free || Ring(m, PagesOf(p), [])))
  }

  function WithoutPage(l: Lists, p: nat): Lists {
    Lists(Remove(l.free, p), Remove(l.used, p), Remove(l.lru, p))
  }

  /** Deleting both nodes of a page takes it off every list. */
  lemma RetirePage(m: Links, l: Lists, p: nat)
    requires Represents(m, l) && Clean(l) && Retirable(m, l, p)
    ensures Represents(Del(Del(m, PagesOf(p)), LruOf(p)), WithoutPage(l, p)) && Clean(WithoutPage(l, p))
  {
    hide Ring, Del, Remove, Distinct;
    RepresentsDistinct(m, l);
    RetireDisjoint(l, p);
    if p in l.used {
      RemoveAbsent(l.free, p);
      RetireRefines(m, l, p);
    } else {
      RemoveAbsent(l.used, p);
      RemoveAbsent(l.lru, p);
      if p in l.free {
        RetireFree(m, l, p);
      } else {
        RemoveAbsent(l.free, p);
        RetireAlone(m, l, p);
      }
    }
  }
}
