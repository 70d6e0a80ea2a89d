/** `mmu_map_page` as a function of physical memory: it walks down, links a new table
    for each level that is missing, and writes the leaf entry. */
module Mapping {
  import opened Words
  import opened Paging
  import opened Tables
  import Rings

  /** The leaf entry that `mmu_map_page` writes. */
  function LeafEntry(frame: bv64, flags: bv64): bv64 {
    frame | flags
  }

  /** The table reached so far, and the frames that the allocator will hand out. */
  datatype Cursor = Cursor(mem: Memory, table: bv64, spare: seq<bv64>)

  /** Follows an entry to the next table, or links a new one there; `None` when no
      frame is left. */
  function Descend(c: Cursor, index: bv64): Option<Cursor> {
    var e := c.mem(Slot(c.table, index));
    if Present(e) then Some(c.(table := Frame(e)))
    else if c.spare == [] then None
    else Some(Cursor(Link(c.mem, c.table, index, c.spare[0]), c.spare[0], c.spare[1..]))
  }

  /** The new memory, the frames not used, and whether the leaf was written: a 2 MB page
      that already covers the address is left alone. */
  datatype Result = Result(mem: Memory, rest: seq<bv64>, done: bool)

  /** `mmu_map_page` from the page directory down. */
  function MapFromPd(c: Cursor, address: bv64, entry: bv64): Option<Result> {
    var e := c.mem(Slot(c.table, Pde(address)));
    if Present(e) && Large(e) then Some(Result(c.mem, c.spare, false)) else
    match Descend(c, Pde(address))
    case None => None
    case Some(c1) => Some(Result(Store(c1.mem, Slot(c1.table, Pte(address)), entry), c1.spare, true))
  }

  function MapPage(mem: Memory, cr3: bv64, spare: seq<bv64>, address: bv64, entry: bv64): Option<Result> {
    match Descend(Cursor(mem, Frame(cr3), spare), Pml4e(address))
    case None => None
    case Some(c3) =>
      match Descend(c3, Pdpte(address))
      case None => None
      case Some(c2) => MapFromPd(c2, address, entry)
  }

  /** What the tables and the free frames must be like: one level per table, slot 0x180
      on the PML4, and free frames that are distinct, unused and zero. */
  ghost predicate Sound(mem: Memory, cr3: bv64, level: Levels, spare: seq<bv64>) {
    && Leveled(mem, Frame(cr3), level)
    && SelfMapped(mem, cr3)
    && Rings.Distinct(spare)
    && forall f :: f in spare ==> IsFrame(f) && level(f) == 0 && ZeroFrame(mem, f)
  }

  ghost function DescendLevels(c: Cursor, level: Levels, index: bv64): Levels
    requires level(c.table) >= 2
  {
    if Present(c.mem(Slot(c.table, index))) || c.spare == [] then level
    else SetLevel(level, c.spare[0], level(c.table) - 1)
  }

  /** The step is possible and does not follow a large page. */
  ghost predicate CanDescend(c: Cursor, cr3: bv64, level: Levels, index: bv64) {
    && Sound(c.mem, cr3, level, c.spare)
    && level(c.table) >= 2 && IsIndex(index) && !(c.table == Frame(cr3) && index == MMU_RE)
    && Descend(c, index).Some?
    && (Present(c.mem(Slot(c.table, index))) ==> !Large(c.mem(Slot(c.table, index))))
  }

  lemma FreshIsLinkable(c: Cursor, cr3: bv64, level: Levels, index: bv64)
    requires CanDescend(c, cr3, level, index) && !Present(c.mem(Slot(c.table, index)))
    ensures c.spare != [] && Linkable(c.mem, Frame(cr3), level, c.table, index, c.spare[0])
  {
    hide Slot, Present, Large, Frame, IsIndex, IsFrame, Link, Leveled, ZeroFrame, SelfMapped;
    assert c.spare[0] in c.spare;
  }

  lemma DescendSound(c: Cursor, cr3: bv64, level: Levels, index: bv64)
    requires CanDescend(c, cr3, level, index)
    ensures var c', level' := Descend(c, index).value, DescendLevels(c, level, index);
            && Sound(c'.mem, cr3, level', c'.spare) && level'(c'.table) == level(c.table) - 1
  {
    hide Slot, Present, Large, Frame, IsIndex, IsFrame, Link, Leveled, ZeroFrame, SelfMapped, SetLevel;
    if Present(c.mem(Slot(c.table, index))) {
      FollowedLevel(c, cr3, level, index);
    } else {
      FreshIsLinkable(c, cr3, level, index);
      LinkedSound(c, cr3, level, index);
    }
  }

  lemma FollowedLevel(c: Cursor, cr3: bv64, level: Levels, index: bv64)
    requires CanDescend(c, cr3, level, index) && Present(c.mem(Slot(c.table, index)))
    ensures level(Frame(c.mem(Slot(c.table, index)))) == level(c.table) - 1
  {
    hide Slot, Present, Large, Frame, IsIndex, IsFrame, ZeroFrame, SelfMapped;
    assert EntryFits(c.mem(Slot(c.table, index)), level, level(c.table));
  }

  lemma LinkedSound(c: Cursor, cr3: bv64, level: Levels, index: bv64)
    requires CanDescend(c, cr3, level, index) && !Present(c.mem(Slot(c.table, index)))
    ensures c.spare != []
    ensures var f := c.spare[0];
            && Sound(Link(c.mem, c.table, index, f), cr3, SetLevel(level, f, level(c.table) - 1), c.spare[1..])
            && SetLevel(level, f, level(c.table) - 1)(f) == level(c.table) - 1
  {
    FreshIsLinkable(c, cr3, level, index);
    SpareStays(c, cr3, level, index);
    hide Slot, Present, Large, Frame, IsIndex, IsFrame, Leveled, ZeroFrame, SelfMapped, Linkable, Link, Rings.Distinct;
    LinkKeepsLevels(c.mem, Frame(cr3), level, c.table, index, c.spare[0]);
    LinkKeepsSelfMap(c.mem, cr3, level, c.table, index, c.spare[0]);
  }

  /** The frames that are still spare are distinct, unused, zero, and not the one taken. */
  lemma SpareStays(c: Cursor, cr3: bv64, level: Levels, index: bv64)
    requires Sound(c.mem, cr3, level, c.spare) && c.spare != []
    requires Linkable(c.mem, Frame(cr3), level, c.table, index, c.spare[0])
    ensures Rings.Distinct(c.spare[1..])
    ensures forall g :: g in c.spare[1..] ==>
              g != c.spare[0] && IsFrame(g) && level(g) == 0 && ZeroFrame(Link(c.mem, c.table, index, c.spare[0]), g)
  {
    hide Slot, Present, Large, Frame, IsIndex, IsFrame, Leveled, ZeroFrame, SelfMapped, Linkable, Link;
    forall g | g in c.spare[1..]
      ensures g in c.spare && g != c.spare[0] && ZeroFrame(Link(c.mem, c.table, index, c.spare[0]), g)
    {
      var k :| 0 <= k < |c.spare[1..]| && c.spare[1..][k] == g;
      assert c.spare[k + 1] == g;
      LinkKeepsZero(c.mem, Frame(cr3), level, c.table, index, c.spare[0], g);
    }
  }

  /** Tables keep their level; a new one was the next spare frame. */
  ghost predicate LevelsGrow(level: Levels, level': Levels, taken: seq<bv64>) {
    && (forall t :: level(t) > 0 ==> level'(t) == level(t))
    && (forall t :: level'(t) > 0 && level(t) == 0 ==> t in taken)
  }

  /** Entries that were present are as they were. */
  ghost predicate PresentKept(mem: Memory, mem': Memory) {
    forall x :: Present(mem(x)) ==> mem'(x) == mem(x)
  }

  ghost predicate SameMeaning(mem: Memory, mem': Memory, cr3: bv64) {
    forall va :: Pml4e(va) != MMU_RE ==> Translate(mem', cr3, va) == Translate(mem, cr3, va)
  }

  /** Every frame that became a table has exactly one parent slot, and no parent slot of
      another table was added or lost. */
  ghost predicate ParentsGrow(mem: Memory, level: Levels, mem': Memory, level': Levels, root: bv64) {
    && (forall f :: level(f) == 0 && level'(f) > 0 ==> OneParent(mem', root, level', f))
    && (forall t, i, f {:trigger ParentSlot(mem', root, level', t, i, f)} :: level(f) > 0 ==>
          (ParentSlot(mem', root, level', t, i, f) <==> ParentSlot(mem, root, level, t, i, f)))
  }

  ghost predicate OneParent(mem: Memory, root: bv64, level: Levels, f: bv64) {
    exists t, i :: ParentSlot(mem, root, level, t, i, f) &&
      forall u, j {:trigger ParentSlot(mem, root, level, u, j, f)} ::
        ParentSlot(mem, root, level, u, j, f) ==> u == t && j == i
  }

  /** The tables have grown by empty tables in the frames `taken`, and mean the same. */
  ghost predicate Grown(mem: Memory, level: Levels, mem': Memory, level': Levels, cr3: bv64, taken: seq<bv64>) {
    && PresentKept(mem, mem') && SameMeaning(mem, mem', cr3) && LevelsGrow(level, level', taken)
    && ParentsGrow(mem, level, mem', level', Frame(cr3))
  }

  lemma LinkMeaning(mem: Memory, cr3: bv64, level: Levels, t: bv64, i: bv64, f: bv64)
    requires Linkable(mem, Frame(cr3), level, t, i, f)
    ensures SameMeaning(mem, Link(mem, t, i, f), cr3)
  {
    hide Linkable, Frame, Link, Translate, Pml4e;
    forall va | Pml4e(va) != MMU_RE ensures Translate(Link(mem, t, i, f), cr3, va) == Translate(mem, cr3, va) {
      LinkKeepsMeaning(mem, cr3, level, t, i, f, va);
    }
  }

  lemma LinkPresent(mem: Memory, root: bv64, level: Levels, t: bv64, i: bv64, f: bv64)
    requires Linkable(mem, root, level, t, i, f)
    ensures PresentKept(mem, Link(mem, t, i, f))
    ensures LevelsGrow(level, SetLevel(level, f, level(t) - 1), [f])
  {
    hide Slot, Present, Leveled, ZeroFrame, IsIndex, IsFrame, TableEntry;
  }

  lemma LinkParentsGrow(mem: Memory, root: bv64, level: Levels, t: bv64, i: bv64, f: bv64)
    requires Linkable(mem, root, level, t, i, f)
    ensures ParentsGrow(mem, level, Link(mem, t, i, f), SetLevel(level, f, level(t) - 1), root)
  {
    assert level(t) >= 2 && level(f) == 0 && Leveled(mem, root, level);
    var mem', level' := Link(mem, t, i, f), SetLevel(level, f, level(t) - 1);
    LinkOneParent(mem, root, level, t, i, f);
    hide Link, Linkable, Leveled, ParentSlot, OneParent;
    forall u, j, g {:trigger ParentSlot(mem', root, level', u, j, g)} | level(g) > 0
      ensures ParentSlot(mem', root, level', u, j, g) <==> ParentSlot(mem, root, level, u, j, g)
    {
      LinkParents(mem, root, level, t, i, f, u, j, g);
    }
  }

  lemma LinkOneParent(mem: Memory, root: bv64, level: Levels, t: bv64, i: bv64, f: bv64)
    requires Linkable(mem, root, level, t, i, f)
    ensures OneParent(Link(mem, t, i, f), root, SetLevel(level, f, level(t) - 1), f)
  {
    assert level(t) >= 2 && level(f) == 0 && Leveled(mem, root, level);
    var mem', level' := Link(mem, t, i, f), SetLevel(level, f, level(t) - 1);
    hide Link, Linkable, Leveled, ParentSlot, SetLevel;
    LinkParents(mem, root, level, t, i, f, t, i, f);
    forall u, j {:trigger ParentSlot(mem', root, level', u, j, f)} | ParentSlot(mem', root, level', u, j, f)
      ensures u == t && j == i
    {
      LinkParents(mem, root, level, t, i, f, u, j, f);
      NoParent(mem, root, level, u, j, f);
    }
  }

  lemma LinkGrows(mem: Memory, cr3: bv64, level: Levels, t: bv64, i: bv64, f: bv64)
    requires Linkable(mem, Frame(cr3), level, t, i, f)
    ensures Grown(mem, level, Link(mem, t, i, f), SetLevel(level, f, level(t) - 1), cr3, [f])
  {
    assert level(t) >= 2;
    hide PresentKept, SameMeaning, LevelsGrow, ParentsGrow, Linkable, Link, SetLevel, Frame;
    LinkMeaning(mem, cr3, level, t, i, f);
    LinkPresent(mem, Frame(cr3), level, t, i, f);
    LinkParentsGrow(mem, Frame(cr3), level, t, i, f);
  }

  lemma GrownNothing(mem: Memory, level: Levels, cr3: bv64)
    ensures Grown(mem, level, mem, level, cr3, [])
  {
    hide Translate, ParentSlot, Frame, Present, Pml4e;
  }

  lemma ParentsGrowThen(mem: Memory, level: Levels, mem1: Memory, level1: Levels, mem2: Memory, level2: Levels,
                        root: bv64)
    requires ParentsGrow(mem, level, mem1, level1, root) && ParentsGrow(mem1, level1, mem2, level2, root)
    requires forall t :: level(t) > 0 ==> level1(t) == level(t)
    requires forall t :: level1(t) > 0 ==> level2(t) == level1(t)
    ensures ParentsGrow(mem, level, mem2, level2, root)
  {
    hide ParentSlot, OneParent;
    forall f | level(f) == 0 && level2(f) > 0 ensures OneParent(mem2, root, level2, f) {
      if level1(f) > 0 {
        OneParentKept(mem1, level1, mem2, level2, root, f);
      }
    }
    forall t, i, f {:trigger ParentSlot(mem2, root, level2, t, i, f)} | level(f) > 0
      ensures ParentSlot(mem2, root, level2, t, i, f) <==> ParentSlot(mem, root, level, t, i, f)
    {
      assert ParentSlot(mem1, root, level1, t, i, f) <==> ParentSlot(mem, root, level, t, i, f);
    }
  }

  lemma OneParentKept(mem: Memory, level: Levels, mem': Memory, level': Levels, root: bv64, f: bv64)
    requires ParentsGrow(mem, level, mem', level', root) && level(f) > 0 && OneParent(mem, root, level, f)
    ensures OneParent(mem', root, level', f)
  {
    hide ParentSlot;
    var t, i :| ParentSlot(mem, root, level, t, i, f) &&
      forall u, j {:trigger ParentSlot(mem, root, level, u, j, f)} ::
        ParentSlot(mem, root, level, u, j, f) ==> u == t && j == i;
    assert ParentSlot(mem', root, level', t, i, f);
  }

  lemma GrownThen(mem: Memory, level: Levels, mem1: Memory, level1: Levels, mem2: Memory, level2: Levels,
                  cr3: bv64, a: seq<bv64>, b: seq<bv64>)
    requires Grown(mem, level, mem1, level1, cr3, a) && Grown(mem1, level1, mem2, level2, cr3, b)
    ensures Grown(mem, level, mem2, level2, cr3, a + b)
  {
    hide ParentsGrow, Translate, Frame, Present, Pml4e;
    ParentsGrowThen(mem, level, mem1, level1, mem2, level2, Frame(cr3));
    forall t | level2(t) > 0 && level(t) == 0 ensures t in a + b {
      assert level1(t) > 0 ==> t in a;
    }
  }

  // ----- the whole of mmu_map_page -----

  ghost predicate PathToPdpt(mem: Memory, cr3: bv64, va: bv64, t: bv64) {
    var e := mem(Slot(Frame(cr3), Pml4e(va)));
    Present(e) && !Large(e) && Frame(e) == t
  }

  ghost predicate PathToPd(mem: Memory, cr3: bv64, va: bv64, t3: bv64, t: bv64) {
    var e := mem(Slot(t3, Pdpte(va)));
    PathToPdpt(mem, cr3, va, t3) && Present(e) && !Large(e) && Frame(e) == t
  }

  ghost predicate PathToPt(mem: Memory, cr3: bv64, va: bv64, t3: bv64, t2: bv64, t: bv64) {
    var e := mem(Slot(t2, Pde(va)));
    PathToPd(mem, cr3, va, t3, t2) && Present(e) && !Large(e) && Frame(e) == t
  }

  lemma PathKept(mem: Memory, mem': Memory, cr3: bv64, va: bv64, t3: bv64, t2: bv64)
    requires PresentKept(mem, mem')
    ensures PathToPdpt(mem, cr3, va, t3) ==> PathToPdpt(mem', cr3, va, t3)
    ensures PathToPd(mem, cr3, va, t3, t2) ==> PathToPd(mem', cr3, va, t3, t2)
  {
    hide Slot, Present, Large, Frame, Pml4e, Pdpte;
  }

  /** The number of frames that a step takes: one when it links a table. */
  ghost function Taken(c: Cursor, index: bv64): seq<bv64>
    requires Descend(c, index).Some?
  {
    if Present(c.mem(Slot(c.table, index))) then [] else [c.spare[0]]
  }

  lemma DescendGrows(c: Cursor, cr3: bv64, level: Levels, index: bv64)
    requires CanDescend(c, cr3, level, index)
    ensures var c', level' := Descend(c, index).value, DescendLevels(c, level, index);
            && Grown(c.mem, level, c'.mem, level', cr3, Taken(c, index))
            && c.spare == Taken(c, index) + c'.spare
            && (Taken(c, index) == [] ==> c'.mem == c.mem && level' == level)
            && Present(c'.mem(Slot(c.table, index))) && !Large(c'.mem(Slot(c.table, index)))
            && Frame(c'.mem(Slot(c.table, index))) == c'.table
  {
    hide Slot, Present, Large, Frame, IsIndex, IsFrame, Leveled, Link, ZeroFrame, SelfMapped, SetLevel, Grown;
    if Present(c.mem(Slot(c.table, index))) {
      GrownNothing(c.mem, level, cr3);
    } else {
      FreshIsLinkable(c, cr3, level, index);
      LinkGrows(c.mem, cr3, level, c.table, index, c.spare[0]);
      LinkReads(c.mem, Frame(cr3), level, c.table, index, c.spare[0]);
    }
  }

  /** The first step, from the PML4. */
  lemma StepToPdpt(mem: Memory, cr3: bv64, level: Levels, spare: seq<bv64>, va: bv64)
      returns (c3: Cursor, level3: Levels)
    requires Sound(mem, cr3, level, spare) && Pml4e(va) != MMU_RE
    requires Descend(Cursor(mem, Frame(cr3), spare), Pml4e(va)).Some?
    ensures Descend(Cursor(mem, Frame(cr3), spare), Pml4e(va)) == Some(c3)
    ensures Sound(c3.mem, cr3, level3, c3.spare) && level3(c3.table) == 3 && PathToPdpt(c3.mem, cr3, va, c3.table)
    ensures Grown(mem, level, c3.mem, level3, cr3, Taken(Cursor(mem, Frame(cr3), spare), Pml4e(va)))
    ensures spare == Taken(Cursor(mem, Frame(cr3), spare), Pml4e(va)) + c3.spare
    ensures Taken(Cursor(mem, Frame(cr3), spare), Pml4e(va)) == [] ==> c3.mem == mem && level3 == level
  {
    var c := Cursor(mem, Frame(cr3), spare);
    PdptCanDescend(mem, cr3, level, spare, va);
    hide Sound, CanDescend, Descend, DescendLevels, Grown, Taken, Slot, Present, Large, Frame, Pml4e;
    c3, level3 := Descend(c, Pml4e(va)).value, DescendLevels(c, level, Pml4e(va));
    DescendSound(c, cr3, level, Pml4e(va));
    DescendGrows(c, cr3, level, Pml4e(va));
  }

  lemma PdptCanDescend(mem: Memory, cr3: bv64, level: Levels, spare: seq<bv64>, va: bv64)
    requires Sound(mem, cr3, level, spare) && Pml4e(va) != MMU_RE
    requires Descend(Cursor(mem, Frame(cr3), spare), Pml4e(va)).Some?
    ensures CanDescend(Cursor(mem, Frame(cr3), spare), cr3, level, Pml4e(va)) && level(Frame(cr3)) == 4
  {
    hide Slot, Present, Large, Frame, IsIndex, IsFrame, ZeroFrame, SelfMapped, Pml4e, Descend;
    IndexBounds(va);
    assert EntryFits(mem(Slot(Frame(cr3), Pml4e(va))), level, 4);
  }

  /** A step from a lower table. */
  lemma StepDown(c: Cursor, cr3: bv64, level: Levels, index: bv64) returns (c': Cursor, level': Levels)
    requires Sound(c.mem, cr3, level, c.spare) && 2 <= level(c.table) <= 3 && IsIndex(index)
    requires Descend(c, index).Some?
    requires Present(c.mem(Slot(c.table, index))) ==> !Large(c.mem(Slot(c.table, index)))
    ensures Descend(c, index) == Some(c')
    ensures CanDescend(c, cr3, level, index)
    ensures Sound(c'.mem, cr3, level', c'.spare) && level'(c'.table) == level(c.table) - 1
    ensures var e := c'.mem(Slot(c.table, index)); Present(e) && !Large(e) && Frame(e) == c'.table
    ensures Grown(c.mem, level, c'.mem, level', cr3, Taken(c, index)) && c.spare == Taken(c, index) + c'.spare
    ensures Taken(c, index) == [] ==> c'.mem == c.mem && level' == level
  {
    assert CanDescend(c, cr3, level, index) by {
      hide Slot, Present, Large, Frame, IsIndex, IsFrame, ZeroFrame, SelfMapped, Descend;
    }
    hide *;
    DescendSound(c, cr3, level, index);
    DescendGrows(c, cr3, level, index);
    c', level' := Descend(c, index).value, DescendLevels(c, level, index);
  }

  /** The directory entry for `va` can be reached: the walk is not stopped by a 1 GB
      page, which the code does not handle. */
  ghost predicate No1G(mem: Memory, cr3: bv64, va: bv64) {
    var o := Walk(mem, cr3, va);
    !(o.Leaf? && o.level == 3)
  }

  lemma PdptEntry(mem: Memory, cr3: bv64, level: Levels, spare: seq<bv64>, va: bv64, c3: Cursor)
    requires Sound(mem, cr3, level, spare) && Pml4e(va) != MMU_RE && No1G(mem, cr3, va)
    requires Descend(Cursor(mem, Frame(cr3), spare), Pml4e(va)) == Some(c3)
    ensures var e := c3.mem(Slot(c3.table, Pdpte(va))); Present(e) ==> !Large(e)
  {
    var c := Cursor(mem, Frame(cr3), spare);
    PdptCanDescend(mem, cr3, level, spare, va);
    hide Leveled, Link, ZeroFrame, Slot, Present, Large, Frame, Pml4e, Pdpte, Pde, Pte, IsIndex, IsFrame, SelfMapped;
    IndexBounds(va);
    if !Present(mem(Slot(Frame(cr3), Pml4e(va)))) {
      LinkedIsEmpty(c, cr3, level, Pml4e(va), Pdpte(va));
    }
  }

  /** A table that was just linked has no present entry. */
  lemma LinkedIsEmpty(c: Cursor, cr3: bv64, level: Levels, index: bv64, j: bv64)
    requires CanDescend(c, cr3, level, index) && !Present(c.mem(Slot(c.table, index))) && IsIndex(j)
    ensures var c' := Descend(c, index).value; !Present(c'.mem(Slot(c'.table, j)))
  {
    FreshIsLinkable(c, cr3, level, index);
    hide Leveled, Link, Slot, Present, Large, Frame, IsIndex, IsFrame, SelfMapped;
    LinkReads(c.mem, Frame(cr3), level, c.table, index, c.spare[0]);
    TableEntryBits(c.spare[0]);
  }

  /** The first step links a table just if the walk stopped at the PML4. */
  lemma Pml4Taken(mem: Memory, cr3: bv64, spare: seq<bv64>, va: bv64)
    requires Descend(Cursor(mem, Frame(cr3), spare), Pml4e(va)).Some?
    ensures Taken(Cursor(mem, Frame(cr3), spare), Pml4e(va)) != [] <==> !Present(mem(Slot(Frame(cr3), Pml4e(va))))
    ensures Taken(Cursor(mem, Frame(cr3), spare), Pml4e(va)) != [] <==> Walk(mem, cr3, va) == Missing(4)
  {
    hide Link, Slot, Present, Large, Frame, Pml4e, Pdpte, Pde, Pte, Descend;
  }

  /** The second step links a table just if the walk stopped at one of the upper two. */
  lemma PdptTaken(mem: Memory, cr3: bv64, spare: seq<bv64>, va: bv64, c3: Cursor)
    requires Descend(Cursor(mem, Frame(cr3), spare), Pml4e(va)) == Some(c3) && Descend(c3, Pdpte(va)).Some?
    requires !Present(mem(Slot(Frame(cr3), Pml4e(va)))) ==> !Present(c3.mem(Slot(c3.table, Pdpte(va))))
    ensures Taken(c3, Pdpte(va)) != [] <==> Walk(mem, cr3, va) == Missing(4) || Walk(mem, cr3, va) == Missing(3)
    ensures Taken(c3, Pdpte(va)) != [] <==> !Present(c3.mem(Slot(c3.table, Pdpte(va))))
  {
    hide Link, Slot, Present, Large, Frame, Pml4e, Pdpte, Pde, Pte;
  }

  /** Which of the two upper steps link a table, by where the walk stopped before; a
      table linked last is empty. */
  lemma UpperTaken(mem: Memory, cr3: bv64, level: Levels, spare: seq<bv64>, va: bv64, c3: Cursor, level3: Levels,
                   c2: Cursor)
    requires Sound(mem, cr3, level, spare) && Pml4e(va) != MMU_RE
    requires Descend(Cursor(mem, Frame(cr3), spare), Pml4e(va)) == Some(c3)
    requires CanDescend(c3, cr3, level3, Pdpte(va)) && Descend(c3, Pdpte(va)) == Some(c2)
    ensures Taken(Cursor(mem, Frame(cr3), spare), Pml4e(va)) != [] <==> Walk(mem, cr3, va) == Missing(4)
    ensures Taken(c3, Pdpte(va)) != [] <==> Walk(mem, cr3, va) == Missing(4) || Walk(mem, cr3, va) == Missing(3)
    ensures Taken(c3, Pdpte(va)) != [] ==> !Present(c2.mem(Slot(c2.table, Pde(va))))
  {
    hide *;
    var c := Cursor(mem, Frame(cr3), spare);
    PdptCanDescend(mem, cr3, level, spare, va);
    IndexBounds(va);
    Pml4Taken(mem, cr3, spare, va);
    if !Present(mem(Slot(Frame(cr3), Pml4e(va)))) {
      LinkedIsEmpty(c, cr3, level, Pml4e(va), Pdpte(va));
    }
    PdptTaken(mem, cr3, spare, va, c3);
    if !Present(c3.mem(Slot(c3.table, Pdpte(va)))) {
      LinkedIsEmpty(c3, cr3, level3, Pdpte(va), Pde(va));
    }
  }

  /** The frames a mapping needs: one for each missing table. */
  ghost function Needed(o: Outcome): nat {
    if o.Missing? && o.level > 0 then o.level - 1 else 0
  }

  /** How many of them the two upper steps take. */
  ghost function UpperMissing(o: Outcome): nat {
    if o == Missing(4) then 2 else if o == Missing(3) then 1 else 0
  }

  lemma BothSteps(c: Cursor, c3: Cursor, c2: Cursor, i: bv64, j: bv64)
    requires Descend(c, i) == Some(c3) && Descend(c3, j) == Some(c2)
    ensures |Taken(c, i) + Taken(c3, j)| == (if Taken(c, i) == [] then 0 else 1) + (if Taken(c3, j) == [] then 0 else 1)
    ensures c.spare == Taken(c, i) + c3.spare && c3.spare == Taken(c3, j) + c2.spare ==>
              c.spare == (Taken(c, i) + Taken(c3, j)) + c2.spare
  {
    hide Descend, Slot, Present;
  }

  /** There are frames enough for the two upper steps. */
  ghost predicate ReachesPd(mem: Memory, cr3: bv64, spare: seq<bv64>, va: bv64) {
    match Descend(Cursor(mem, Frame(cr3), spare), Pml4e(va))
    case None => false
    case Some(c3) => Descend(c3, Pdpte(va)).Some?
  }

  lemma MappingReachesPd(mem: Memory, cr3: bv64, spare: seq<bv64>, va: bv64, entry: bv64)
    requires MapPage(mem, cr3, spare, va, entry).Some?
    ensures ReachesPd(mem, cr3, spare, va)
  {
    hide Descend, Frame, Pml4e, Pdpte;
  }

  /** Down to the page directory, for an address outside slot 0x180. */
  lemma DownToPd(mem: Memory, cr3: bv64, level: Levels, spare: seq<bv64>, va: bv64, entry: bv64)
      returns (c2: Cursor, level2: Levels, t3: bv64, taken: seq<bv64>)
    requires Sound(mem, cr3, level, spare) && Pml4e(va) != MMU_RE && No1G(mem, cr3, va)
    requires ReachesPd(mem, cr3, spare, va)
    ensures Descend(Descend(Cursor(mem, Frame(cr3), spare), Pml4e(va)).value, Pdpte(va)) == Some(c2)
    ensures MapPage(mem, cr3, spare, va, entry) == MapFromPd(c2, va, entry)
    ensures Sound(c2.mem, cr3, level2, c2.spare) && level2(c2.table) == 2 && PathToPd(c2.mem, cr3, va, t3, c2.table)
    ensures Grown(mem, level, c2.mem, level2, cr3, taken) && spare == taken + c2.spare
    ensures taken == [] ==> c2.mem == mem && level2 == level
    ensures taken != [] ==> !Present(c2.mem(Slot(c2.table, Pde(va))))
    ensures |taken| == UpperMissing(Walk(mem, cr3, va))
  {
    hide Sound, Grown, Slot, Present, Large, Frame, Pml4e, Pdpte, Pde, Pte, IsIndex, MapFromPd, DescendLevels,
      No1G, Walk, Taken, Descend, CanDescend;
    var c := Cursor(mem, Frame(cr3), spare);
    IndexBounds(va);
    var c3, level3 := StepToPdpt(mem, cr3, level, spare, va);
    PdptEntry(mem, cr3, level, spare, va, c3);
    c2, level2 := StepDown(c3, cr3, level3, Pdpte(va));
    t3 := c3.table;
    taken := Taken(c, Pml4e(va)) + Taken(c3, Pdpte(va));
    GrownThen(mem, level, c3.mem, level3, c2.mem, level2, cr3, Taken(c, Pml4e(va)), Taken(c3, Pdpte(va)));
    GrownKeepsPath(c3, c2, level3, level2, cr3, va, Taken(c3, Pdpte(va)));
    UpperTaken(mem, cr3, level, spare, va, c3, level3, c2);
    BothSteps(c, c3, c2, Pml4e(va), Pdpte(va));
  }

  lemma GrownKeepsPath(c3: Cursor, c2: Cursor, level3: Levels, level2: Levels, cr3: bv64, va: bv64, taken: seq<bv64>)
    requires Grown(c3.mem, level3, c2.mem, level2, cr3, taken) && PathToPdpt(c3.mem, cr3, va, c3.table)
    ensures PathToPdpt(c2.mem, cr3, va, c3.table)
  {
    PathKept(c3.mem, c2.mem, cr3, va, c3.table, c3.table);
  }

  /** `va` is mapped by `entry` in `slot`, and every other change of meaning outside slot
      0x180 is to an address whose walk ends in that same slot. */
  ghost predicate MapsOnly(mem: Memory, mem': Memory, cr3: bv64, va: bv64, slot: bv64, entry: bv64) {
    && Walk(mem', cr3, va) == Leaf(1, slot, entry)
    && forall v :: Pml4e(v) != MMU_RE ==>
       EndsIn(mem', cr3, v, slot) || Translate(mem', cr3, v) == Translate(mem, cr3, v)
  }

  ghost predicate CoveredBy2M(mem: Memory, cr3: bv64, va: bv64) {
    var o := Walk(mem, cr3, va);
    o.Leaf? && o.level == 2
  }

  lemma PathEndsIn(mem: Memory, cr3: bv64, va: bv64, t3: bv64, t2: bv64, t1: bv64)
    requires PathToPt(mem, cr3, va, t3, t2, t1)
    ensures EndsIn(mem, cr3, va, Slot(t1, Pte(va)))
  {
    hide EndsIn, Slot, Present, Large, Frame, Pml4e, Pdpte, Pde, Pte;
    WalkReaches(mem, cr3, va, mem(Slot(Frame(cr3), Pml4e(va))), mem(Slot(t3, Pdpte(va))), mem(Slot(t2, Pde(va))));
  }

  /** The walk of an address whose directory is known stops there or goes on. */
  lemma PathWalk(mem: Memory, cr3: bv64, va: bv64, t3: bv64, t2: bv64)
    requires PathToPd(mem, cr3, va, t3, t2)
    ensures var e := mem(Slot(t2, Pde(va)));
            && (CoveredBy2M(mem, cr3, va) <==> Present(e) && Large(e))
            && (Walk(mem, cr3, va) == Missing(2) <==> !Present(e))
            && Walk(mem, cr3, va) != Missing(3) && Walk(mem, cr3, va) != Missing(4)
  {
    hide Slot, Present, Large, Frame, Pml4e, Pdpte, Pde, Pte;
  }

  /** Writing the leaf into the level-1 table that the path reaches. */
  lemma LeafWritten(mem: Memory, cr3: bv64, level: Levels, spare: seq<bv64>, va: bv64, t3: bv64, t2: bv64,
                    t1: bv64, entry: bv64)
    requires Sound(mem, cr3, level, spare) && level(t1) == 1 && PathToPt(mem, cr3, va, t3, t2, t1) &&
             Pml4e(va) != MMU_RE
    ensures var slot := Slot(t1, Pte(va));
            && MapsOnly(mem, Store(mem, slot, entry), cr3, va, slot, entry)
            && Sound(Store(mem, slot, entry), cr3, level, spare)
            && ParentsGrow(mem, level, Store(mem, slot, entry), level, Frame(cr3))
  {
    var slot := Slot(t1, Pte(va));
    var mem' := Store(mem, slot, entry);
    hide Leveled, SelfMapped, ZeroFrame, Walk, Translate, EndsIn, Slot, Frame, IsIndex, IsFrame, Pml4e, Pdpte, Pde,
      Pte, Store, PathToPt, ParentSlot;
    IndexBounds(va);
    PathEndsIn(mem, cr3, va, t3, t2, t1);
    LeafKeepsWalk(mem, cr3, level, t1, Pte(va), entry, va);
    forall v | Pml4e(v) != MMU_RE
      ensures EndsIn(mem', cr3, v, slot) || Translate(mem', cr3, v) == Translate(mem, cr3, v)
    {
      LeafKeepsWalk(mem, cr3, level, t1, Pte(va), entry, v);
      LeafEnds(mem', cr3, v, slot, entry);
    }
    LeafKeepsLevels(mem, Frame(cr3), level, t1, Pte(va), entry);
    LeafKeepsSelfMap(mem, cr3, level, t1, Pte(va), entry);
    forall g | g in spare ensures ZeroFrame(mem', g) {
      LeafKeepsZero(mem, Frame(cr3), level, t1, Pte(va), entry, g);
    }
    forall t, i, f {:trigger ParentSlot(mem', Frame(cr3), level, t, i, f)}
      ensures ParentSlot(mem', Frame(cr3), level, t, i, f) <==> ParentSlot(mem, Frame(cr3), level, t, i, f)
    {
      LeafParents(mem, Frame(cr3), level, t1, Pte(va), entry, t, i, f);
    }
  }

  lemma LeafEnds(mem: Memory, cr3: bv64, v: bv64, slot: bv64, entry: bv64)
    ensures Walk(mem, cr3, v) == Leaf(1, slot, entry) ==> EndsIn(mem, cr3, v, slot)
  {
    hide Walk;
  }

  lemma LeafKeepsSelfMap(mem: Memory, cr3: bv64, level: Levels, t: bv64, i: bv64, e: bv64)
    requires Leveled(mem, Frame(cr3), level) && SelfMapped(mem, cr3) && level(t) == 1 && IsIndex(i)
    ensures SelfMapped(Store(mem, Slot(t, i), e), cr3)
  {
    hide Slot, Present, Large, Frame, IsFrame, IsIndex, Store;
    LeafReads(mem, Frame(cr3), level, t, i, e);
    IndexBounds(0);
    assert level(Frame(cr3)) == 4;
  }

  /** From a directory that holds no 2 MB page for the address. */
  lemma FromPd(c2: Cursor, cr3: bv64, level2: Levels, va: bv64, t3: bv64, entry: bv64)
      returns (c1: Cursor, level1: Levels, taken: seq<bv64>)
    requires Sound(c2.mem, cr3, level2, c2.spare) && level2(c2.table) == 2 && PathToPd(c2.mem, cr3, va, t3, c2.table)
    requires MapFromPd(c2, va, entry).Some? && Pml4e(va) != MMU_RE
    requires var e := c2.mem(Slot(c2.table, Pde(va))); !(Present(e) && Large(e))
    ensures Descend(c2, Pde(va)) == Some(c1)
    ensures MapFromPd(c2, va, entry) == Some(Result(Store(c1.mem, Slot(c1.table, Pte(va)), entry), c1.spare, true))
    ensures Sound(c1.mem, cr3, level1, c1.spare) && level1(c1.table) == 1
    ensures Grown(c2.mem, level2, c1.mem, level1, cr3, taken) && c2.spare == taken + c1.spare
    ensures |taken| == if Present(c2.mem(Slot(c2.table, Pde(va)))) then 0 else 1
    ensures PathToPt(c1.mem, cr3, va, t3, c2.table, c1.table)
  {
    hide Sound, Slot, Present, Large, Frame, Pml4e, Pdpte, Pde, Pte, IsIndex, Descend, SameMeaning, LevelsGrow,
      ParentsGrow, PresentKept;
    IndexBounds(va);
    c1, level1 := StepDown(c2, cr3, level2, Pde(va));
    taken := Taken(c2, Pde(va));
    PathKept(c2.mem, c1.mem, cr3, va, t3, c2.table);
  }

  lemma ThenLeaf(mem: Memory, level: Levels, mem1: Memory, level1: Levels, mem2: Memory, cr3: bv64,
                 taken: seq<bv64>, va: bv64, slot: bv64, entry: bv64)
    requires Grown(mem, level, mem1, level1, cr3, taken)
    requires MapsOnly(mem1, mem2, cr3, va, slot, entry) && ParentsGrow(mem1, level1, mem2, level1, Frame(cr3))
    ensures MapsOnly(mem, mem2, cr3, va, slot, entry) && LevelsGrow(level, level1, taken)
    ensures ParentsGrow(mem, level, mem2, level1, Frame(cr3))
  {
    hide Walk, Translate, EndsIn, Frame, Pml4e, Present, ParentsGrow;
    ParentsGrowThen(mem, level, mem1, level1, mem2, level1, Frame(cr3));
  }

  /** All that one call changes: `taken` are the spare frames used, `slot` the leaf
      entry written. */
  ghost predicate Effects(mem: Memory, level: Levels, spare: seq<bv64>, cr3: bv64, va: bv64, entry: bv64,
                          r: Result, level': Levels, slot: bv64, taken: seq<bv64>) {
    && Sound(r.mem, cr3, level', r.rest)
    && spare == taken + r.rest && |taken| == Needed(Walk(mem, cr3, va))
    && LevelsGrow(level, level', taken) && ParentsGrow(mem, level, r.mem, level', Frame(cr3))
    && (r.done <==> !CoveredBy2M(mem, cr3, va))
    && (!r.done ==> r.mem == mem && taken == [])
    && (r.done ==> MapsOnly(mem, r.mem, cr3, va, slot, entry))
  }

  lemma CoveredEffects(mem: Memory, level: Levels, spare: seq<bv64>, cr3: bv64, va: bv64, entry: bv64)
    requires Sound(mem, cr3, level, spare) && CoveredBy2M(mem, cr3, va)
    ensures Effects(mem, level, spare, cr3, va, entry, Result(mem, spare, false), level, 0, [])
  {
    hide Sound, Walk, Frame, MapsOnly;
    GrownNothing(mem, level, cr3);
    GrownUnfolds(mem, level, mem, level, cr3, []);
  }

  lemma LeafEffects(mem: Memory, level: Levels, spare: seq<bv64>, cr3: bv64, va: bv64, entry: bv64,
                    c2: Cursor, level2: Levels, t3: bv64, taken2: seq<bv64>)
      returns (level': Levels, slot: bv64, taken: seq<bv64>)
    requires Sound(c2.mem, cr3, level2, c2.spare) && level2(c2.table) == 2 && PathToPd(c2.mem, cr3, va, t3, c2.table)
    requires Grown(mem, level, c2.mem, level2, cr3, taken2) && spare == taken2 + c2.spare
    requires MapFromPd(c2, va, entry).Some? && Pml4e(va) != MMU_RE && !CoveredBy2M(mem, cr3, va)
    requires var e := c2.mem(Slot(c2.table, Pde(va)));
             !(Present(e) && Large(e)) && Needed(Walk(mem, cr3, va)) == |taken2| + if Present(e) then 0 else 1
    ensures Effects(mem, level, spare, cr3, va, entry, MapFromPd(c2, va, entry).value, level', slot, taken)
  {
    hide Sound, Grown, Walk, Slot, Present, Large, Frame, Pml4e, Pdpte, Pde, Pte, MapsOnly, LevelsGrow,
      ParentsGrow, PathToPd, PathToPt, Store, CoveredBy2M, MapFromPd, Needed;
    var c1, level1, taken1 := FromPd(c2, cr3, level2, va, t3, entry);
    level', slot, taken := level1, Slot(c1.table, Pte(va)), taken2 + taken1;
    GrownThen(mem, level, c2.mem, level2, c1.mem, level1, cr3, taken2, taken1);
    LeafWritten(c1.mem, cr3, level1, c1.spare, va, t3, c2.table, c1.table, entry);
    ThenLeaf(mem, level, c1.mem, level1, Store(c1.mem, slot, entry), cr3, taken, va, slot, entry);
    assert spare == taken + c1.spare;
  }

  /** `mmu_map_page`, for every address outside slot 0x180 that no 1 GB page covers: the
      tables stay sound, one spare frame is used for each missing table, each new table
      gets its one parent, and the leaf written changes the meaning of no address whose
      walk does not end in it.  When a 2 MB page covers the address nothing changes. */
  lemma MapPageEffects(mem: Memory, cr3: bv64, level: Levels, spare: seq<bv64>, va: bv64, entry: bv64)
      returns (level': Levels, slot: bv64, taken: seq<bv64>)
    requires Sound(mem, cr3, level, spare) && Pml4e(va) != MMU_RE && No1G(mem, cr3, va)
    requires MapPage(mem, cr3, spare, va, entry).Some?
    ensures Effects(mem, level, spare, cr3, va, entry, MapPage(mem, cr3, spare, va, entry).value, level', slot, taken)
  {
    hide Sound, Grown, Walk, Slot, Present, Large, Frame, Pml4e, Pde, MapPage, PathToPd, No1G, Effects,
      CoveredBy2M, Needed;
    MappingReachesPd(mem, cr3, spare, va, entry);
    var c2, level2, t3, taken2 := DownToPd(mem, cr3, level, spare, va, entry);
    PathWalk(c2.mem, cr3, va, t3, c2.table);
    PathStart(mem, c2.mem, cr3, va, taken2);
    var e := c2.mem(Slot(c2.table, Pde(va)));
    if Present(e) && Large(e) {
      level', slot, taken := level, 0, [];
      assert taken2 + c2.spare == c2.spare;
      CoveredEffects(mem, level, spare, cr3, va, entry);
    } else {
      level', slot, taken := LeafEffects(mem, level, spare, cr3, va, entry, c2, level2, t3, taken2);
    }
  }

  lemma GrownUnfolds(mem: Memory, level: Levels, mem': Memory, level': Levels, cr3: bv64, taken: seq<bv64>)
    requires Grown(mem, level, mem', level', cr3, taken)
    ensures LevelsGrow(level, level', taken) && ParentsGrow(mem, level, mem', level', Frame(cr3))
  {
  }

  /** How the walk before the upper steps relates to the one after them. */
  lemma PathStart(mem: Memory, mem2: Memory, cr3: bv64, va: bv64, taken: seq<bv64>)
    requires taken == [] ==> mem2 == mem
    requires |taken| == UpperMissing(Walk(mem, cr3, va))
    ensures taken != [] ==> !CoveredBy2M(mem, cr3, va) && Needed(Walk(mem, cr3, va)) == |taken| + 1
    ensures taken == [] ==> Walk(mem, cr3, va) == Walk(mem2, cr3, va)
    ensures taken == [] ==> CoveredBy2M(mem, cr3, va) == CoveredBy2M(mem2, cr3, va)
    ensures taken == [] ==> Needed(Walk(mem, cr3, va)) == if Walk(mem2, cr3, va) == Missing(2) then 1 else 0
  {
    WalkOutcomes(mem, cr3, va);
    hide Walk;
  }

  lemma WalkOutcomes(mem: Memory, cr3: bv64, va: bv64)
    ensures var o := Walk(mem, cr3, va);
            o == Missing(4) || o == Missing(3) || o == Missing(2) || (o.Leaf? && 1 <= o.level <= 3)
  {
    hide Slot, Present, Large, Frame, Pml4e, Pdpte, Pde, Pte;
  }

  lemma FailsAtPml4(mem: Memory, cr3: bv64, spare: seq<bv64>, va: bv64)
    requires Descend(Cursor(mem, Frame(cr3), spare), Pml4e(va)).None?
    ensures |spare| < Needed(Walk(mem, cr3, va))
  {
    hide Link, Slot, Present, Large, Frame, Pml4e, Pdpte, Pde, Pte;
  }

  lemma FailsAtPdpt(mem: Memory, cr3: bv64, level: Levels, spare: seq<bv64>, va: bv64, c3: Cursor)
    requires Sound(mem, cr3, level, spare) && Pml4e(va) != MMU_RE
    requires Descend(Cursor(mem, Frame(cr3), spare), Pml4e(va)) == Some(c3) && Descend(c3, Pdpte(va)).None?
    ensures |spare| < Needed(Walk(mem, cr3, va))
  {
    hide Sound, Link, Slot, Present, Large, Frame, Pml4e, Pdpte, Pde, Pte;
  }

  lemma FailsAtPd(mem: Memory, cr3: bv64, level: Levels, spare: seq<bv64>, va: bv64, entry: bv64)
    requires Sound(mem, cr3, level, spare) && Pml4e(va) != MMU_RE && No1G(mem, cr3, va)
    requires ReachesPd(mem, cr3, spare, va) && MapPage(mem, cr3, spare, va, entry).None?
    ensures |spare| < Needed(Walk(mem, cr3, va))
  {
    hide Sound, Grown, Walk, Link, Slot, Present, Large, Frame, Pml4e, Pdpte, Pde, Pte, MapPage, PathToPd, No1G,
      CoveredBy2M, Needed;
    var c2, level2, t3, taken2 := DownToPd(mem, cr3, level, spare, va, entry);
    PathWalk(c2.mem, cr3, va, t3, c2.table);
    PathStart(mem, c2.mem, cr3, va, taken2);
  }

  /** The call finds a frame for every table it needs exactly when there are as many
      spare frames as missing tables. */
  lemma MapPageNeeds(mem: Memory, cr3: bv64, level: Levels, spare: seq<bv64>, va: bv64, entry: bv64)
    requires Sound(mem, cr3, level, spare) && Pml4e(va) != MMU_RE && No1G(mem, cr3, va)
    ensures MapPage(mem, cr3, spare, va, entry).Some? <==> |spare| >= Needed(Walk(mem, cr3, va))
  {
    hide Sound, Descend, Walk, Frame, Pml4e, Pdpte, No1G, Needed, MapPage;
    var c := Cursor(mem, Frame(cr3), spare);
    if MapPage(mem, cr3, spare, va, entry).Some? {
      var level', slot, taken := MapPageEffects(mem, cr3, level, spare, va, entry);
      assert Effects(mem, level, spare, cr3, va, entry, MapPage(mem, cr3, spare, va, entry).value, level', slot, taken);
    } else if Descend(c, Pml4e(va)).None? {
      FailsAtPml4(mem, cr3, spare, va);
    } else if Descend(Descend(c, Pml4e(va)).value, Pdpte(va)).None? {
      FailsAtPdpt(mem, cr3, level, spare, va, Descend(c, Pml4e(va)).value);
    } else {
      FailsAtPd(mem, cr3, level, spare, va, entry);
    }
  }
}
