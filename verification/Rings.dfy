/** The intrusive circular lists of the kernel.  All list nodes live in one memory
    of `next` and `prev` fields, addressed by pointers; a ring is a pattern of links
    in that memory.  Nothing ties a node to one ring, links may be stale, and
    pointers may coincide, exactly as in the original. */
module Rings {

  /** Addresses of the list nodes: the three list heads, and the two nodes embedded
      in the page struct with the given index. */
  datatype Ptr =
    | FreeHead
    | UsedHead
    | LruHead
    | PagesOf(page: nat)
    | LruOf(page: nat)
    | InFrontOfFree   // the 16 bytes where a page would have its lru node if the free head were its pages node

  datatype Links = Links(next: Ptr -> Ptr, prev: Ptr -> Ptr)

  function SetNext(m: Links, p: Ptr, q: Ptr): Links {
    m.(next := x => if x == p then q else m.next(x))
  }

  function SetPrev(m: Links, p: Ptr, q: Ptr): Links {
    m.(prev := x => if x == p then q else m.prev(x))
  }

  ghost predicate Distinct<T>(s: seq<T>) {
    forall i, j :: 0 <= i < j < |s| ==> s[i] != s[j]
  }

  function Succ(i: nat, n: nat): nat {
    if i + 1 < n then i + 1 else 0
  }

  function Pred(i: nat, n: nat): nat
    requires i < n
  {
    if i > 0 then i - 1 else n - 1
  }

  /** The nodes `c`, linked both ways in this order and closed into a cycle. */
  ghost predicate Cycle(m: Links, c: seq<Ptr>) {
    && |c| > 0
    && Distinct(c)
    && (forall i {:trigger m.next(c[i])} :: 0 <= i < |c| ==> m.next(c[i]) == c[Succ(i, |c|)])
    && (forall i {:trigger m.prev(c[i])} :: 0 <= i < |c| ==> m.prev(c[i]) == c[Pred(i, |c|)])
  }

  /** The list with this head holds the entries `s`, in this order. */
  ghost predicate Ring(m: Links, head: Ptr, s: seq<Ptr>) {
    Cycle(m, [head] + s)
  }

  /** A node as `list_init` leaves it. */
  predicate SelfLinked(m: Links, p: Ptr) {
    m.next(p) == p && m.prev(p) == p
  }

  lemma SelfLinkedIsRing(m: Links, p: Ptr)
    ensures SelfLinked(m, p) <==> Ring(m, p, [])
  {
    var c := [p] + [];
    assert c == [p] && c[0] == p;
    assert Ring(m, p, []) ==> m.next(c[0]) == c[0] && m.prev(c[0]) == c[0];
  }

  /** Both memories hold the same links in every node of `c`. */
  ghost predicate Agree(m: Links, m': Links, c: seq<Ptr>) {
    forall p :: p in c ==> m'.next(p) == m.next(p) && m'.prev(p) == m.prev(p)
  }

  /** The memories differ at most in the nodes of `c`. */
  ghost predicate ChangedOnly(m: Links, m': Links, c: seq<Ptr>) {
    forall p :: p !in c ==> m'.next(p) == m.next(p) && m'.prev(p) == m.prev(p)
  }

  ghost predicate Disjoint<T>(c: seq<T>, d: seq<T>) {
    forall p :: p in c ==> p !in d
  }

  function Without<T>(s: seq<T>, k: nat): seq<T>
    requires k < |s|
  {
    s[..k] + s[k + 1..]
  }

  // The operations of list.h, as functions of the memory they change.

  function Init(m: Links, p: Ptr): Links {
    SetPrev(SetNext(m, p, p), p, p)
  }

  function Unlink(m: Links, before: Ptr, after: Ptr): Links {
    SetNext(SetPrev(m, after, before), before, after)
  }

  function Del(m: Links, e: Ptr): Links {
    Unlink(m, m.prev(e), m.next(e))
  }

  function Link(m: Links, e: Ptr, before: Ptr, after: Ptr): Links {
    SetNext(SetPrev(SetNext(SetPrev(m, after, e), e, after), e, before), before, e)
  }

  function Add(m: Links, head: Ptr, e: Ptr): Links {
    Link(m, e, head, m.next(head))
  }

  function AddTail(m: Links, head: Ptr, e: Ptr): Links {
    Link(m, e, m.prev(head), head)
  }

  function Replace(m: Links, old_: Ptr, e: Ptr): Links {
    var m1 := SetNext(m, e, m.next(old_));
    var m2 := SetPrev(m1, m1.next(e), e);
    var m3 := SetPrev(m2, e, m2.prev(old_));
    SetNext(m3, m3.prev(e), e)
  }

  function Move(m: Links, head: Ptr, e: Ptr): Links {
    Add(Del(m, e), head, e)
  }

  function MoveTail(m: Links, head: Ptr, e: Ptr): Links {
    AddTail(Del(m, e), head, e)
  }

  lemma CycleFrame(m: Links, m': Links, c: seq<Ptr>)
    requires Cycle(m, c) && Agree(m, m', c)
    ensures Cycle(m', c)
  {
    forall i {:trigger m'.next(c[i])} | 0 <= i < |c| ensures m'.next(c[i]) == c[Succ(i, |c|)] {
      assert c[i] in c && m.next(c[i]) == c[Succ(i, |c|)];
    }
    forall i {:trigger m'.prev(c[i])} | 0 <= i < |c| ensures m'.prev(c[i]) == c[Pred(i, |c|)] {
      assert c[i] in c && m.prev(c[i]) == c[Pred(i, |c|)];
    }
  }

  lemma DistinctWithout<T>(c: seq<T>, k: nat)
    requires Distinct(c) && k < |c|
    ensures Distinct(Without(c, k)) && c[k] !in Without(c, k)
  {
  }

  lemma DistinctInsert<T>(c: seq<T>, k: nat, e: T)
    requires Distinct(c) && k <= |c| && e !in c
    ensures Distinct(c[..k] + [e] + c[k..])
  {
  }

  lemma DelNextAt(m: Links, c: seq<Ptr>, k: nat, i: nat)
    requires Cycle(m, c) && k < |c| && |c| > 1 && i < |c| - 1
    ensures var d := Without(c, k); Del(m, c[k]).next(d[i]) == d[Succ(i, |d|)]
  {
    var j := if i < k then i else i + 1;
    assert Without(c, k)[i] == c[j];
    assert m.next(c[j]) == c[Succ(j, |c|)];
    assert m.prev(c[k]) == c[Pred(k, |c|)];
    assert m.next(c[k]) == c[Succ(k, |c|)];
  }

  lemma DelPrevAt(m: Links, c: seq<Ptr>, k: nat, i: nat)
    requires Cycle(m, c) && k < |c| && |c| > 1 && i < |c| - 1
    ensures var d := Without(c, k); Del(m, c[k]).prev(d[i]) == d[Pred(i, |d|)]
  {
    var j := if i < k then i else i + 1;
    assert Without(c, k)[i] == c[j];
    assert m.prev(c[j]) == c[Pred(j, |c|)];
    assert m.prev(c[k]) == c[Pred(k, |c|)];
    assert m.next(c[k]) == c[Succ(k, |c|)];
  }

  /** Deleting node `k` closes the cycle over the gap, whether or not its two
      neighbours are the same node; no other node changes. */
  lemma CycleDel(m: Links, c: seq<Ptr>, k: nat)
    requires Cycle(m, c) && k < |c| && |c| > 1
    ensures Cycle(Del(m, c[k]), Without(c, k))
    ensures ChangedOnly(m, Del(m, c[k]), Without(c, k))
  {
    var n, d, m' := |c|, Without(c, k), Del(m, c[k]);
    assert Cycle(m', d) by {
      DistinctWithout(c, k);
      forall i {:trigger m'.next(d[i])} | 0 <= i < |d| ensures m'.next(d[i]) == d[Succ(i, |d|)] {
        DelNextAt(m, c, k, i);
      }
      forall i {:trigger m'.prev(d[i])} | 0 <= i < |d| ensures m'.prev(d[i]) == d[Pred(i, |d|)] {
        DelPrevAt(m, c, k, i);
      }
    }
    assert m.prev(c[k]) == c[Pred(k, n)] && m.next(c[k]) == c[Succ(k, n)];
    assert c[Pred(k, n)] == d[Pred(k, n) - if Pred(k, n) > k then 1 else 0];
    assert c[Succ(k, n)] == d[Succ(k, n) - if Succ(k, n) > k then 1 else 0];
  }

  function Inserted<T>(c: seq<T>, k: nat, e: T): seq<T>
    requires k < |c|
  {
    c[..k + 1] + [e] + c[k + 1..]
  }

  lemma LinkNextAt(m: Links, c: seq<Ptr>, k: nat, e: Ptr, i: nat)
    requires Cycle(m, c) && k < |c| && e !in c && i < |c| + 1
    ensures var d := Inserted(c, k, e); Link(m, e, c[k], c[Succ(k, |c|)]).next(d[i]) == d[Succ(i, |d|)]
  {
    if i != k + 1 {
      var j := if i <= k then i else i - 1;
      assert Inserted(c, k, e)[i] == c[j] && m.next(c[j]) == c[Succ(j, |c|)];
    }
  }

  lemma LinkPrevAt(m: Links, c: seq<Ptr>, k: nat, e: Ptr, i: nat)
    requires Cycle(m, c) && k < |c| && e !in c && i < |c| + 1
    ensures var d := Inserted(c, k, e); Link(m, e, c[k], c[Succ(k, |c|)]).prev(d[i]) == d[Pred(i, |d|)]
  {
    if i != k + 1 {
      var j := if i <= k then i else i - 1;
      assert Inserted(c, k, e)[i] == c[j] && m.prev(c[j]) == c[Pred(j, |c|)];
    }
  }

  /** Linking a node that is not in the cycle after its node `k`. */
  lemma CycleLink(m: Links, c: seq<Ptr>, k: nat, e: Ptr)
    requires Cycle(m, c) && k < |c| && e !in c
    ensures Cycle(Link(m, e, c[k], c[Succ(k, |c|)]), Inserted(c, k, e))
    ensures ChangedOnly(m, Link(m, e, c[k], c[Succ(k, |c|)]), [e] + c)
  {
    var d, m' := Inserted(c, k, e), Link(m, e, c[k], c[Succ(k, |c|)]);
    assert Cycle(m', d) by {
      DistinctInsert(c, k + 1, e);
      forall i {:trigger m'.next(d[i])} | 0 <= i < |d| ensures m'.next(d[i]) == d[Succ(i, |d|)] {
        LinkNextAt(m, c, k, e, i);
      }
      forall i {:trigger m'.prev(d[i])} | 0 <= i < |d| ensures m'.prev(d[i]) == d[Pred(i, |d|)] {
        LinkPrevAt(m, c, k, e, i);
      }
    }
  }

  /** Whatever an operation changes, a cycle that shares no node with it survives. */
  lemma CycleApart(m: Links, m': Links, c: seq<Ptr>, d: seq<Ptr>)
    requires ChangedOnly(m, m', c) && Cycle(m, d) && Disjoint(d, c)
    ensures Cycle(m', d)
  {
    CycleFrame(m, m', d);
  }

  lemma RingApart(m: Links, m': Links, c: seq<Ptr>, head: Ptr, s: seq<Ptr>)
    requires ChangedOnly(m, m', c) && Ring(m, head, s) && Disjoint([head] + s, c)
    ensures Ring(m', head, s)
  {
    CycleApart(m, m', c, [head] + s);
  }

  lemma ReplaceNextAt(m: Links, c: seq<Ptr>, k: nat, e: Ptr, i: nat)
    requires Cycle(m, c) && k < |c| && e !in c && i < |c|
    ensures Replace(m, c[k], e).next(c[k := e][i]) == c[k := e][Succ(i, |c|)]
  {
    assert m.next(c[i]) == c[Succ(i, |c|)] && m.next(c[k]) == c[Succ(k, |c|)];
    assert m.prev(c[k]) == c[Pred(k, |c|)];
  }

  lemma ReplacePrevAt(m: Links, c: seq<Ptr>, k: nat, e: Ptr, i: nat)
    requires Cycle(m, c) && k < |c| && e !in c && i < |c|
    ensures Replace(m, c[k], e).prev(c[k := e][i]) == c[k := e][Pred(i, |c|)]
  {
    assert m.prev(c[i]) == c[Pred(i, |c|)] && m.next(c[k]) == c[Succ(k, |c|)];
    assert m.prev(c[k]) == c[Pred(k, |c|)];
  }

  /** `list_replace` puts the new node where the old one was, also when the old node
      is alone or is the head. */
  lemma ReplaceRefines(m: Links, c: seq<Ptr>, k: nat, e: Ptr)
    requires Cycle(m, c) && k < |c| && e !in c
    ensures Cycle(Replace(m, c[k], e), c[k := e])
    ensures ChangedOnly(m, Replace(m, c[k], e), [e] + c)
  {
    var d, m' := c[k := e], Replace(m, c[k], e);
    assert Cycle(m', d) by {
      forall i {:trigger m'.next(d[i])} | 0 <= i < |d| ensures m'.next(d[i]) == d[Succ(i, |d|)] {
        ReplaceNextAt(m, c, k, e, i);
      }
      forall i {:trigger m'.prev(d[i])} | 0 <= i < |d| ensures m'.prev(d[i]) == d[Pred(i, |d|)] {
        ReplacePrevAt(m, c, k, e, i);
      }
    }
    assert m.prev(c[k]) == c[Pred(k, |c|)] && m.next(c[k]) == c[Succ(k, |c|)];
  }

  // The operations on a list, refined to operations on the sequence of its entries.

  lemma DelRefines(m: Links, head: Ptr, s: seq<Ptr>, k: nat)
    requires Ring(m, head, s) && k < |s|
    ensures Ring(Del(m, s[k]), head, Without(s, k))
    ensures ChangedOnly(m, Del(m, s[k]), [head] + Without(s, k))
  {
    hide Cycle, Del, ChangedOnly;
    CycleDel(m, [head] + s, k + 1);
    assert Without([head] + s, k + 1) == [head] + Without(s, k);
  }

  /** Deleting a node that is linked to itself, as `list_init` leaves it, changes
      nothing. */
  lemma DelAlone(m: Links, e: Ptr)
    requires Ring(m, e, [])
    ensures ChangedOnly(m, Del(m, e), [])
  {
    var c := [e] + [];
    assert m.next(c[0]) == e && m.prev(c[0]) == e;
  }

  /** The links of a head: its first and its last entry, or itself. */
  lemma HeadLinks(m: Links, head: Ptr, s: seq<Ptr>)
    requires Ring(m, head, s)
    ensures m.next(head) == if s == [] then head else s[0]
    ensures m.prev(head) == if s == [] then head else s[|s| - 1]
    ensures head !in s && Distinct(s)
  {
    var c := [head] + s;
    assert m.next(c[0]) == c[Succ(0, |c|)] && m.prev(c[0]) == c[Pred(0, |c|)];
    assert forall i :: 0 <= i < |s| ==> s[i] == c[i + 1];
  }

  /** The neighbours of an entry are the head or entries of the same list. */
  lemma RingNeighbours(m: Links, head: Ptr, s: seq<Ptr>, k: nat)
    requires Ring(m, head, s) && k < |s|
    ensures m.prev(s[k]) in [head] + s && m.next(s[k]) in [head] + s
  {
    var c := [head] + s;
    assert m.next(c[k + 1]) == c[Succ(k + 1, |c|)] && m.prev(c[k + 1]) == c[Pred(k + 1, |c|)];
  }

  lemma AddRefines(m: Links, head: Ptr, s: seq<Ptr>, e: Ptr)
    requires Ring(m, head, s) && e != head && e !in s
    ensures Ring(Add(m, head, e), head, [e] + s)
    ensures ChangedOnly(m, Add(m, head, e), [e, head] + s)
  {
    hide Cycle, Link, ChangedOnly;
    var c := [head] + s;
    HeadLinks(m, head, s);
    CycleLink(m, c, 0, e);
    assert c[..1] + [e] + c[1..] == [head] + ([e] + s);
    assert [e] + c == [e, head] + s;
  }

  lemma AddTailRefines(m: Links, head: Ptr, s: seq<Ptr>, e: Ptr)
    requires Ring(m, head, s) && e != head && e !in s
    ensures Ring(AddTail(m, head, e), head, s + [e])
    ensures ChangedOnly(m, AddTail(m, head, e), [e, head] + s)
  {
    hide Cycle, Link, ChangedOnly;
    var c := [head] + s;
    HeadLinks(m, head, s);
    CycleLink(m, c, |s|, e);
    assert c[..|s| + 1] + [e] + c[|s| + 1..] == [head] + (s + [e]);
    assert [e] + c == [e, head] + s;
  }

  lemma ChangedOnlyThen(m: Links, m': Links, m'': Links, c: seq<Ptr>, d: seq<Ptr>, all: seq<Ptr>)
    requires ChangedOnly(m, m', c) && ChangedOnly(m', m'', d)
    requires forall p :: p in c || p in d ==> p in all
    ensures ChangedOnly(m, m'', all)
  {
  }

  /** Moving an entry to the tail of its own list, wherever it stands in it. */
  lemma MoveTailWithin(m: Links, head: Ptr, s: seq<Ptr>, k: nat)
    requires Ring(m, head, s) && k < |s|
    ensures Ring(MoveTail(m, head, s[k]), head, Without(s, k) + [s[k]])
    ensures ChangedOnly(m, MoveTail(m, head, s[k]), [head] + s)
  {
    hide Ring, Del, AddTail, ChangedOnly;
    HeadLinks(m, head, s);
    DelRefines(m, head, s, k);
    DistinctWithout(s, k);
    AddTailRefines(Del(m, s[k]), head, Without(s, k), s[k]);
    ChangedOnlyThen(m, Del(m, s[k]), MoveTail(m, head, s[k]), [head] + Without(s, k), [s[k], head] + Without(s, k),
        [head] + s);
  }

  /** Moving an entry to the tail of another list. */
  lemma MoveTailAcross(m: Links, head: Ptr, s: seq<Ptr>, k: nat, dest: Ptr, t: seq<Ptr>)
    requires Ring(m, head, s) && k < |s| && Ring(m, dest, t) && Disjoint([head] + s, [dest] + t)
    ensures var m' := MoveTail(m, dest, s[k]);
            && Ring(m', head, Without(s, k)) && Ring(m', dest, t + [s[k]])
            && ChangedOnly(m, m', ([head] + s) + ([dest] + t))
  {
    var e := s[k];
    assert e in [head] + s;
    DelRefines(m, head, s, k);
    var m1 := Del(m, e);
    var m2 := AddTail(m1, dest, e);
    assert forall p :: p in [head] + Without(s, k) ==> p in [head] + s;
    hide Cycle, Del, AddTail, ChangedOnly;
    HeadLinks(m, head, s);
    DistinctWithout(s, k);
    CycleApart(m, m1, [head] + Without(s, k), [dest] + t);
    AddTailRefines(m1, dest, t, e);
    CycleApart(m1, m2, [e, dest] + t, [head] + Without(s, k));
    ChangedOnlyThen(m, m1, m2, [head] + Without(s, k), [e, dest] + t, ([head] + s) + ([dest] + t));
  }

  /** Moving an entry to the front of another list. */
  lemma MoveAcross(m: Links, head: Ptr, s: seq<Ptr>, k: nat, dest: Ptr, t: seq<Ptr>)
    requires Ring(m, head, s) && k < |s| && Ring(m, dest, t) && Disjoint([head] + s, [dest] + t)
    ensures var m' := Move(m, dest, s[k]);
            && Ring(m', head, Without(s, k)) && Ring(m', dest, [s[k]] + t)
            && ChangedOnly(m, m', ([head] + s) + ([dest] + t))
  {
    var e := s[k];
    assert e in [head] + s;
    DelRefines(m, head, s, k);
    var m1 := Del(m, e);
    var m2 := Add(m1, dest, e);
    assert forall p :: p in [head] + Without(s, k) ==> p in [head] + s;
    hide Cycle, Del, Add, ChangedOnly;
    HeadLinks(m, head, s);
    DistinctWithout(s, k);
    CycleApart(m, m1, [head] + Without(s, k), [dest] + t);
    AddRefines(m1, dest, t, e);
    CycleApart(m1, m2, [e, dest] + t, [head] + Without(s, k));
    ChangedOnlyThen(m, m1, m2, [head] + Without(s, k), [e, dest] + t, ([head] + s) + ([dest] + t));
  }

  /** Moving the first entry of a list to the front, or the last to the tail, and
      any other entry to the front of its own list. */
  lemma MoveWithin(m: Links, head: Ptr, s: seq<Ptr>, k: nat)
    requires Ring(m, head, s) && k < |s|
    ensures Ring(Move(m, head, s[k]), head, [s[k]] + Without(s, k))
    ensures ChangedOnly(m, Move(m, head, s[k]), [head] + s)
  {
    hide Ring, Del, Add, ChangedOnly;
    HeadLinks(m, head, s);
    DelRefines(m, head, s, k);
    DistinctWithout(s, k);
    AddRefines(Del(m, s[k]), head, Without(s, k), s[k]);
    ChangedOnlyThen(m, Del(m, s[k]), Move(m, head, s[k]), [head] + Without(s, k), [s[k], head] + Without(s, k),
        [head] + s);
  }

  /** Moving a node that is linked only to itself. */
  lemma MoveTailAlone(m: Links, e: Ptr, dest: Ptr, t: seq<Ptr>)
    requires Ring(m, e, []) && Ring(m, dest, t) && e != dest && e !in t
    ensures Ring(MoveTail(m, dest, e), dest, t + [e])
    ensures ChangedOnly(m, MoveTail(m, dest, e), [e, dest] + t)
  {
    DelAlone(m, e);
    hide Cycle, Del, AddTail, ChangedOnly;
    CycleApart(m, Del(m, e), [], [dest] + t);
    AddTailRefines(Del(m, e), dest, t, e);
    ChangedOnlyThen(m, Del(m, e), MoveTail(m, dest, e), [], [e, dest] + t, [e, dest] + t);
  }

  lemma {:induction false} SharedPrefix(m: Links, m': Links, head: Ptr, s: seq<Ptr>, t: seq<Ptr>, k: nat, j: nat)
    requires Ring(m, head, s) && Ring(m', head, t) && j <= k < |s|
    requires m'.next(head) == m.next(head)
    requires forall i :: 0 <= i < k ==> m'.next(s[i]) == m.next(s[i])
    ensures j < |t| && t[j] == s[j]
  {
    var c, d := [head] + s, [head] + t;
    assert m.next(c[j]) == c[Succ(j, |c|)] && m.prev(c[0]) == c[|s|];
    assert s[j] != head by { assert c[j + 1] == s[j] && c[0] == head; }
    if j > 0 {
      SharedPrefix(m, m', head, s, t, k, j - 1);
      assert c[j] == s[j - 1] && d[j] == t[j - 1];
    }
    assert m'.next(d[j]) == d[Succ(j, |d|)];
  }

  /** `list_add_tail` keeps the list well formed exactly when the entry is not
      already in it: adding an entry twice leaves no sequence that the head's links
      describe. */
  lemma AddTailNeedsOutside(m: Links, head: Ptr, s: seq<Ptr>, e: Ptr)
    requires Ring(m, head, s) && e != head
    ensures (exists t :: Ring(AddTail(m, head, e), head, t)) <==> e !in s
  {
    if e !in s {
      AddTailRefines(m, head, s, e);
    } else {
      var m' := AddTail(m, head, e);
      var k :| 0 <= k < |s| && s[k] == e;
      HeadLinks(m, head, s);
      forall t | Ring(m', head, t) ensures false {
        HeadLinks(m', head, t);
        assert t[|t| - 1] == e;
        var d := [head] + t;
        assert m'.next(d[|t|]) == head && m'.prev(d[|t|]) == d[|t| - 1];
        SharedPrefix(m, m', head, s, t, k, k);
        assert t[k] == t[|t| - 1];
        if k > 0 {
          SharedPrefix(m, m', head, s, t, k, k - 1);
        }
      }
    }
  }

  /** The nodes in memory, updated in place one field at a time. */
  class ListMemory {
    var next: Ptr -> Ptr
    var prev: Ptr -> Ptr

    constructor (m: Links)
      ensures View() == m
    {
      next, prev := m.next, m.prev;
    }

    ghost function View(): Links
      reads this
    {
      Links(next, prev)
    }

    method WriteNext(p: Ptr, q: Ptr)
      modifies this
      ensures View() == SetNext(old(View()), p, q)
    {
      next := SetNext(Links(next, prev), p, q).next;
    }

    method WritePrev(p: Ptr, q: Ptr)
      modifies this
      ensures View() == SetPrev(old(View()), p, q)
    {
      prev := SetPrev(Links(next, prev), p, q).prev;
    }

    method ListInit(p: Ptr)
      modifies this
      ensures View() == Init(old(View()), p) && SelfLinked(View(), p)
      ensures forall q :: SelfLinked(old(View()), q) ==> SelfLinked(View(), q)
    {
      WriteNext(p, p);
      WritePrev(p, p);
    }

    method ListEmpty(head: Ptr, ghost s: seq<Ptr>) returns (empty: bool)
      requires Ring(View(), head, s)
      ensures empty <==> s == []
    {
      HeadLinks(View(), head, s);
      empty := next(head) == head;
    }

    method ListUnlink(before: Ptr, after: Ptr)
      modifies this
      ensures View() == Unlink(old(View()), before, after)
    {
      WritePrev(after, before);
      WriteNext(before, after);
    }

    method ListDel(entry: Ptr)
      modifies this
      ensures View() == Del(old(View()), entry)
    {
      ListUnlink(prev(entry), next(entry));
    }

    method ListReplace(old_: Ptr, entry: Ptr)
      modifies this
      ensures View() == Replace(old(View()), old_, entry)
    {
      WriteNext(entry, next(old_));
      WritePrev(next(entry), entry);
      WritePrev(entry, prev(old_));
      WriteNext(prev(entry), entry);
    }

    method ListLink(entry: Ptr, before: Ptr, after: Ptr)
      modifies this
      ensures View() == Link(old(View()), entry, before, after)
    {
      WritePrev(after, entry);
      WriteNext(entry, after);
      WritePrev(entry, before);
      WriteNext(before, entry);
    }

    method ListAdd(head: Ptr, entry: Ptr)
      modifies this
      ensures View() == Add(old(View()), head, entry)
    {
      ListLink(entry, head, next(head));
    }

    method ListAddTail(head: Ptr, entry: Ptr)
      modifies this
      ensures View() == AddTail(old(View()), head, entry)
    {
      ListLink(entry, prev(head), head);
    }

    method ListMove(head: Ptr, entry: Ptr)
      modifies this
      ensures View() == Move(old(View()), head, entry)
    {
      ListDel(entry);
      ListAdd(head, entry);
    }

    method ListMoveTail(head: Ptr, entry: Ptr)
      modifies this
      ensures View() == MoveTail(old(View()), head, entry)
    {
      ListDel(entry);
      ListAddTail(head, entry);
    }

    /** `list_for_each`: visits every entry once, in order, and terminates. */
    method ForEach(head: Ptr, ghost s: seq<Ptr>) returns (visited: seq<Ptr>)
      requires Ring(View(), head, s)
      ensures visited == s
    {
      HeadLinks(View(), head, s);
      ghost var c := [head] + s;
      visited := [];
      var pos := next(head);
      while pos != head
        invariant |visited| <= |s| && visited == s[..|visited|]
        invariant pos == c[Succ(|visited|, |c|)]
        decreases |s| - |visited|
      {
        visited := visited + [pos];
        assert next(c[|visited|]) == c[Succ(|visited|, |c|)];
        pos := next(pos);
      }
    }
  }
}
