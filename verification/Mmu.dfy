/** `mmu_map_page` and `mmu_req_page` as the kernel runs them.  Every access to a table is
    a load or store of a virtual address that the processor translates: the PML4 through
    slot 0x180, the other tables through the window at `P2V`. */
module Mmu {
  import Sizes
  import opened Words
  import opened Paging
  import opened Tables
  import opened Mapping
  import opened MapRuns
  import opened PageAddress
  import Rings
  import Frames
  import Marking
  import Allocator
  import Layout

  // ----- the window -----

  /** The processor finds frame `f` at `P2V(f)`. */
  ghost predicate InWindow(mem: Memory, cr3: bv64, f: bv64) {
    Translate(mem, cr3, P2V(f)) == Some(f)
  }

  lemma BitsWindow(e: bv64)
    ensures (e & !(0x1000 - 1)) | 0xFFFF_FFFF_8000_0000 == (e & 0x000F_FFFF_FFFF_F000) | 0xFFFF_FFFF_8000_0000
  {
  }

  /** The bits above the frame number that `ROUND_DOWN` keeps do not matter to `P2V`. */
  lemma WindowOfEntry(e: bv64)
    ensures P2V(PageBase(e)) == P2V(Frame(e))
  {
    BitsWindow(e);
  }

  lemma BitsWindowAligned(f: bv64)
    requires f & 0x000F_FFFF_FFFF_F000 == f
    ensures (f | 0xFFFF_FFFF_8000_0000) & 0xFFF == 0
  {
  }

  lemma BitsWindowPml4e(f: bv64)
    ensures ((f | 0xFFFF_FFFF_8000_0000) >> 39) & 0x1FF == 0x1FF
  {
  }

  lemma WindowAddress(f: bv64)
    requires IsFrame(f)
    ensures Offset(P2V(f)) == 0 && Pml4e(P2V(f)) != MMU_RE
  {
    BitsWindowAligned(f);
    BitsWindowPml4e(f);
  }

  lemma BitsPage1G(e: bv64, v: bv64, i: bv64)
    requires v & 0xFFF == 0 && i < 512
    ensures Page1G(e, v + (i << 3)) == Page1G(e, v) | (i << 3)
  {
  }

  lemma BitsPage2M(e: bv64, v: bv64, i: bv64)
    requires v & 0xFFF == 0 && i < 512
    ensures Page2M(e, v + (i << 3)) == Page2M(e, v) | (i << 3)
  {
  }

  lemma BitsJoin(e: bv64)
    ensures e | 0 == e
  {
  }

  lemma Element1G(e: bv64, v: bv64, i: bv64)
    requires Offset(v) == 0 && IsIndex(i)
    ensures Page1G(e, Element(v, i)) == Slot(Page1G(e, v), i)
  {
    BitsPage1G(e, v, i);
  }

  lemma Element2M(e: bv64, v: bv64, i: bv64)
    requires Offset(v) == 0 && IsIndex(i)
    ensures Page2M(e, Element(v, i)) == Slot(Page2M(e, v), i)
  {
    BitsPage2M(e, v, i);
  }

  /** A page-aligned address that translates to frame `f` gives access to every entry of
      the table in `f`, whatever the size of the page that maps it. */
  lemma ElementTranslates(mem: Memory, cr3: bv64, v: bv64, f: bv64, i: bv64)
    requires Translate(mem, cr3, v) == Some(f) && Offset(v) == 0 && IsIndex(i)
    ensures Translate(mem, cr3, Element(v, i)) == Some(Slot(f, i))
  {
    ElementIndices(v, i);
    BitsJoin(f);
    hide Frame, Present, Large, IsIndex, Offset, Element, Canonical, Pml4e, Pdpte, Pde, Pte, Page1G, Page2M;
    var e4 := mem(Slot(Frame(cr3), Pml4e(v)));
    var e3 := mem(Slot(Frame(e4), Pdpte(v)));
    var e2 := mem(Slot(Frame(e3), Pde(v)));
    Element1G(e3, v, i);
    Element2M(e2, v, i);
  }

  /** The frames that a call reaches through the window: all tables but the PML4, and the
      frames `near` that are about to become tables. */
  ghost predicate Usable(level: Levels, near: seq<bv64>, root: bv64, f: bv64) {
    (level(f) > 0 && f != root) || f in near
  }

  ghost predicate WindowOk(mem: Memory, cr3: bv64, level: Levels, near: seq<bv64>) {
    forall f :: Usable(level, near, Frame(cr3), f) ==> InWindow(mem, cr3, f)
  }

  /** Mapping over a present 4 KB entry does not take a table out of the window. */
  ghost predicate RemapSafe(mem: Memory, cr3: bv64, level: Levels, near: seq<bv64>, va: bv64) {
    var o := Walk(mem, cr3, va);
    o.Leaf? && o.level == 1 && Present(o.entry) ==>
      forall f :: Usable(level, near, Frame(cr3), f) ==> !EndsIn(mem, cr3, P2V(f), o.slot)
  }

  /** The spare frames that a mapping of `va` turns into tables. */
  ghost function Near(mem: Memory, cr3: bv64, spare: seq<bv64>, va: bv64): seq<bv64> {
    var n := Needed(Walk(mem, cr3, va));
    if n <= |spare| then spare[..n] else spare
  }

  /** What is taken from the front of the spare frames, and no more than needed. */
  lemma TakenIsNear(mem: Memory, cr3: bv64, spare: seq<bv64>, va: bv64, taken: seq<bv64>, rest: seq<bv64>)
    requires spare == taken + rest && |taken| <= Needed(Walk(mem, cr3, va))
    ensures forall f :: f in taken ==> f in Near(mem, cr3, spare, va)
  {
    hide Needed, Walk;
    var near := Near(mem, cr3, spare, va);
    forall f | f in taken ensures f in near {
      var k :| 0 <= k < |taken| && taken[k] == f;
      assert near[k] == f;
    }
  }

  lemma NearIsSpare(mem: Memory, cr3: bv64, spare: seq<bv64>, va: bv64)
    ensures forall f :: f in Near(mem, cr3, spare, va) ==> f in spare
  {
    hide Needed, Walk;
  }

  /** Linking a table takes nothing out of the window. */
  lemma DescendKeepsWindow(c: Cursor, index: bv64, c': Cursor, cr3: bv64, level: Levels, spare: seq<bv64>)
    requires Descend(c, index) == Some(c') && WindowOk(c.mem, cr3, level, spare)
    ensures WindowOk(c'.mem, cr3, level, spare)
  {
    hide Translate, Slot, Present, Frame, TableEntry, P2V, Usable;
    if !Present(c.mem(Slot(c.table, index))) {
      forall f | Usable(level, spare, Frame(cr3), f) ensures InWindow(c'.mem, cr3, f) {
        assert InWindow(c.mem, cr3, f);
        StoreKeepsTranslations(c.mem, cr3, P2V(f), Slot(c.table, index), TableEntry(c.spare[0]));
      }
    }
  }

  /** The table below the PML4 is usable, and so is the one below a usable one. */
  lemma TableIsUsable(mem: Memory, cr3: bv64, level: Levels, spare: seq<bv64>, level': Levels, taken: seq<bv64>,
                      t: bv64)
    requires Leveled(mem, Frame(cr3), level) && LevelsGrow(level, level', taken) && 1 <= level'(t) <= 3
    requires forall f :: f in taken ==> f in spare
    ensures Usable(level, spare, Frame(cr3), t)
  {
    hide Frame, IsFrame, IsIndex, EntryFits, Slot;
  }

  /** Entry `i` of a usable table, through the window. */
  lemma WindowEntry(mem: Memory, cr3: bv64, level: Levels, spare: seq<bv64>, t: bv64, i: bv64)
    requires WindowOk(mem, cr3, level, spare) && Usable(level, spare, Frame(cr3), t) && IsFrame(t) && IsIndex(i)
    ensures Translate(mem, cr3, Element(P2V(t), i)) == Some(Slot(t, i))
  {
    hide Translate, Frame, IsFrame, IsIndex, Usable, Element, Slot, Offset, Pml4e, P2V;
    assert InWindow(mem, cr3, t);
    WindowAddress(t);
    ElementTranslates(mem, cr3, P2V(t), t, i);
  }

  // ----- the state between the steps of mmu_map_page -----

  /** The conditions under which `mmu_map_page` works. */
  ghost predicate Mappable(mem: Memory, cr3: bv64, level: Levels, spare: seq<bv64>, va: bv64) {
    && Sound(mem, cr3, level, spare)
    && WindowOk(mem, cr3, level, Near(mem, cr3, spare, va))
    && Pml4e(va) != MMU_RE && No1G(mem, cr3, va)
    && |spare| >= Needed(Walk(mem, cr3, va))
    && RemapSafe(mem, cr3, level, Near(mem, cr3, spare, va), va)
  }

  lemma Pml4Ready(mem: Memory, cr3: bv64, level: Levels, spare: seq<bv64>, va: bv64, entry: bv64)
    requires Mappable(mem, cr3, level, spare, va)
    ensures MapPage(mem, cr3, spare, va, entry).Some? && Descend(Cursor(mem, Frame(cr3), spare), Pml4e(va)).Some?
    ensures Translate(mem, cr3, Element(Recursive(MMU_RE, MMU_RE, MMU_RE, MMU_RE), Pml4e(va))) ==
            Some(Slot(Frame(cr3), Pml4e(va)))
  {
    assert SelfMapped(mem, cr3);
    MapPageNeeds(mem, cr3, level, spare, va, entry);
    hide Sound, Descend, SelfMapped, Translate, Slot, Frame, Pml4e, Recursive, Element, IsIndex, Walk;
    IndexBounds(va);
    ReadPml4(mem, cr3, Pml4e(va));
  }

  lemma PdptReady(mem: Memory, cr3: bv64, level: Levels, spare: seq<bv64>, va: bv64, entry: bv64, c3: Cursor)
    requires Mappable(mem, cr3, level, spare, va)
    requires Descend(Cursor(mem, Frame(cr3), spare), Pml4e(va)) == Some(c3)
    ensures WindowOk(c3.mem, cr3, level, Near(mem, cr3, spare, va)) && Descend(c3, Pdpte(va)).Some?
    ensures Translate(c3.mem, cr3, Element(P2V(c3.table), Pdpte(va))) == Some(Slot(c3.table, Pdpte(va)))
  {
    var c := Cursor(mem, Frame(cr3), spare);
    MapPageNeeds(mem, cr3, level, spare, va, entry);
    assert Leveled(mem, Frame(cr3), level);
    hide Sound, Leveled, Descend, WindowOk, Usable, Translate, Slot, Frame, Pml4e, Pdpte, Pde, Pte, Element,
      IsIndex, IsFrame, Walk, P2V, Taken, SameMeaning, PresentKept, LevelsGrow, ParentsGrow, MapFromPd;
    var near := Near(mem, cr3, spare, va);
    hide Near, Needed;
    IndexBounds(va);
    var c3', level3 := StepToPdpt(mem, cr3, level, spare, va);
    DescendKeepsWindow(c, Pml4e(va), c3, cr3, level, near);
    FirstTakenNeeded(mem, cr3, spare, va);
    TakenIsNear(mem, cr3, spare, va, Taken(c, Pml4e(va)), c3.spare);
    TableIsUsable(mem, cr3, level, near, level3, Taken(c, Pml4e(va)), c3.table);
    LeveledFrame(c3, cr3, level3);
    WindowEntry(c3.mem, cr3, level, near, c3.table, Pdpte(va));
  }

  /** The first step takes a frame only when three are needed. */
  lemma FirstTakenNeeded(mem: Memory, cr3: bv64, spare: seq<bv64>, va: bv64)
    requires Descend(Cursor(mem, Frame(cr3), spare), Pml4e(va)).Some?
    ensures |Taken(Cursor(mem, Frame(cr3), spare), Pml4e(va))| <= Needed(Walk(mem, cr3, va))
  {
    hide Slot, Present, Large, Frame, Pml4e, Pdpte, Pde, Pte, Link, Descend;
  }

  lemma LeveledFrame(c: Cursor, cr3: bv64, level: Levels)
    requires Sound(c.mem, cr3, level, c.spare) && level(c.table) > 0
    ensures IsFrame(c.table)
  {
  }

  lemma PdReady(mem: Memory, cr3: bv64, level: Levels, spare: seq<bv64>, va: bv64, entry: bv64, c3: Cursor, c2: Cursor)
    requires Mappable(mem, cr3, level, spare, va)
    requires Descend(Cursor(mem, Frame(cr3), spare), Pml4e(va)) == Some(c3) && Descend(c3, Pdpte(va)) == Some(c2)
    ensures WindowOk(c2.mem, cr3, level, Near(mem, cr3, spare, va))
    ensures MapPage(mem, cr3, spare, va, entry) == MapFromPd(c2, va, entry)
    ensures MapFromPd(c2, va, entry).Some?
    ensures Translate(c2.mem, cr3, Element(P2V(c2.table), Pde(va))) == Some(Slot(c2.table, Pde(va)))
  {
    MapPageNeeds(mem, cr3, level, spare, va, entry);
    assert Leveled(mem, Frame(cr3), level);
    hide Sound, Leveled, Descend, WindowOk, Usable, Translate, Slot, Frame, Pml4e, Pdpte, Pde, Pte, Element,
      IsIndex, IsFrame, Walk, P2V, SameMeaning, PresentKept, LevelsGrow, ParentsGrow, MapFromPd, PathToPd;
    var near := Near(mem, cr3, spare, va);
    hide Near;
    IndexBounds(va);
    PdptReady(mem, cr3, level, spare, va, entry, c3);
    DescendKeepsWindow(c3, Pdpte(va), c2, cr3, level, near);
    var c2', level2, t3, taken := DownToPd(mem, cr3, level, spare, va, entry);
    TakenIsNear(mem, cr3, spare, va, taken, c2.spare);
    TableIsUsable(mem, cr3, level, near, level2, taken, c2.table);
    LeveledFrame(c2, cr3, level2);
    WindowEntry(c2.mem, cr3, level, near, c2.table, Pde(va));
  }

  /** The state after the third step. */
  ghost predicate ThreeSteps(mem: Memory, cr3: bv64, spare: seq<bv64>, va: bv64, c3: Cursor, c2: Cursor, c1: Cursor) {
    && Descend(Cursor(mem, Frame(cr3), spare), Pml4e(va)) == Some(c3) && Descend(c3, Pdpte(va)) == Some(c2)
    && !(Present(c2.mem(Slot(c2.table, Pde(va)))) && Large(c2.mem(Slot(c2.table, Pde(va)))))
    && Descend(c2, Pde(va)) == Some(c1)
  }

  lemma PtReached(mem: Memory, cr3: bv64, level: Levels, spare: seq<bv64>, va: bv64, entry: bv64, c3: Cursor,
                  c2: Cursor, c1: Cursor)
      returns (level1: Levels, t3: bv64)
    requires Mappable(mem, cr3, level, spare, va) && ThreeSteps(mem, cr3, spare, va, c3, c2, c1)
    ensures Sound(c1.mem, cr3, level1, c1.spare) && level1(c1.table) == 1 &&
            PathToPt(c1.mem, cr3, va, t3, c2.table, c1.table)
    ensures Usable(level, Near(mem, cr3, spare, va), Frame(cr3), c1.table) && IsFrame(c1.table)
    ensures Present(c1.mem(Slot(c1.table, Pte(va)))) ==> c1.mem == mem
  {
    PdReady(mem, cr3, level, spare, va, entry, c3, c2);
    assert Leveled(mem, Frame(cr3), level);
    hide Sound, Leveled, Descend, WindowOk, Usable, Slot, Frame, Pml4e, Pdpte, Pde, Pte, IsIndex, IsFrame, Walk,
      SameMeaning, PresentKept, LevelsGrow, ParentsGrow, PathToPd, PathToPt, Present, Large, No1G, RemapSafe,
      Needed, MapPage, MapFromPd, Near;
    var c2', level2, t3', taken2 := DownToPd(mem, cr3, level, spare, va, entry);
    var c1', level1', taken1 := FromPd(c2, cr3, level2, va, t3', entry);
    level1, t3 := level1', t3';
    TakenCount(mem, cr3, va, c2, t3, taken2);
    PtUsable(mem, cr3, level, spare, va, c2, level2, taken2, c1, level1, taken1);
    LeveledFrame(c1, cr3, level1);
    if Present(c1.mem(Slot(c1.table, Pte(va)))) {
      NothingLinked(c2, cr3, level2, va, c1);
    }
  }

  lemma PtUsable(mem: Memory, cr3: bv64, level: Levels, spare: seq<bv64>, va: bv64,
                 c2: Cursor, level2: Levels, taken2: seq<bv64>, c1: Cursor, level1: Levels, taken1: seq<bv64>)
    requires Leveled(mem, Frame(cr3), level) && level1(c1.table) == 1
    requires Grown(mem, level, c2.mem, level2, cr3, taken2) && spare == taken2 + c2.spare
    requires Grown(c2.mem, level2, c1.mem, level1, cr3, taken1) && c2.spare == taken1 + c1.spare
    requires |taken2| + |taken1| <= Needed(Walk(mem, cr3, va))
    ensures Usable(level, Near(mem, cr3, spare, va), Frame(cr3), c1.table)
  {
    hide *;
    var taken := taken2 + taken1;
    GrownThen(mem, level, c2.mem, level2, c1.mem, level1, cr3, taken2, taken1);
    GrownUnfolds(mem, level, c1.mem, level1, cr3, taken);
    assert spare == taken + c1.spare;
    TakenIsNear(mem, cr3, spare, va, taken, c1.spare);
    TableIsUsable(mem, cr3, level, Near(mem, cr3, spare, va), level1, taken, c1.table);
  }

  /** Where the walk stops tells how many frames the three steps take. */
  lemma TakenCount(mem: Memory, cr3: bv64, va: bv64, c2: Cursor, t3: bv64, taken: seq<bv64>)
    requires PathToPd(c2.mem, cr3, va, t3, c2.table) && (taken == [] ==> c2.mem == mem)
    requires taken != [] ==> !Present(c2.mem(Slot(c2.table, Pde(va))))
    requires |taken| == UpperMissing(Walk(mem, cr3, va))
    requires var e := c2.mem(Slot(c2.table, Pde(va))); !(Present(e) && Large(e))
    ensures Needed(Walk(mem, cr3, va)) == |taken| + if Present(c2.mem(Slot(c2.table, Pde(va)))) then 0 else 1
  {
    hide Walk, Slot, Present, Large, Frame, Pml4e, Pde, PathToPd, Needed;
    PathWalk(c2.mem, cr3, va, t3, c2.table);
    PathStart(mem, c2.mem, cr3, va, taken);
  }

  lemma PtReady(mem: Memory, cr3: bv64, level: Levels, spare: seq<bv64>, va: bv64, entry: bv64, c3: Cursor,
                c2: Cursor, c1: Cursor)
    requires Mappable(mem, cr3, level, spare, va) && ThreeSteps(mem, cr3, spare, va, c3, c2, c1)
    ensures WindowOk(c1.mem, cr3, level, Near(mem, cr3, spare, va))
    ensures Translate(c1.mem, cr3, Element(P2V(c1.table), Pte(va))) == Some(Slot(c1.table, Pte(va)))
    ensures WindowOk(Store(c1.mem, Slot(c1.table, Pte(va)), entry), cr3, level, Near(mem, cr3, spare, va))
  {
    hide Sound, Leveled, Descend, WindowOk, Usable, Translate, Slot, Frame, Pml4e, Pdpte, Pde, Pte, Element,
      IsIndex, IsFrame, Walk, P2V, PathToPt, Present, Large, No1G, RemapSafe, Needed, Store, Near;
    var near := Near(mem, cr3, spare, va);
    var level1, t3 := PtReached(mem, cr3, level, spare, va, entry, c3, c2, c1);
    PdReady(mem, cr3, level, spare, va, entry, c3, c2);
    IndexBounds(va);
    DescendKeepsWindow(c2, Pde(va), c1, cr3, level, near);
    WindowEntry(c1.mem, cr3, level, near, c1.table, Pte(va));
    if Present(c1.mem(Slot(c1.table, Pte(va)))) {
      NearIsSpare(mem, cr3, spare, va);
      UsableFrames(mem, cr3, level, spare, near);
      SoundLevels(c1, cr3, level1);
      RemapKeepsWindow(mem, cr3, level1, level, near, va, t3, c2.table, c1.table, entry);
    } else {
      StoreKeepsWindow(c1.mem, cr3, level, near, Slot(c1.table, Pte(va)), entry);
    }
  }

  lemma SoundLevels(c: Cursor, cr3: bv64, level: Levels)
    requires Sound(c.mem, cr3, level, c.spare)
    ensures Leveled(c.mem, Frame(cr3), level)
  {
  }

  lemma UsableFrames(mem: Memory, cr3: bv64, level: Levels, spare: seq<bv64>, near: seq<bv64>)
    requires Sound(mem, cr3, level, spare) && forall f :: f in near ==> f in spare
    ensures forall f :: Usable(level, near, Frame(cr3), f) ==> IsFrame(f)
  {
    hide IsFrame, Frame, ZeroFrame, SelfMapped, EntryFits, IsIndex;
  }

  lemma StoreKeepsWindow(mem: Memory, cr3: bv64, level: Levels, spare: seq<bv64>, slot: bv64, e: bv64)
    requires WindowOk(mem, cr3, level, spare) && !Present(mem(slot))
    ensures WindowOk(Store(mem, slot, e), cr3, level, spare)
  {
    hide Translate, Present, Frame, P2V, Usable, Store;
    forall f | Usable(level, spare, Frame(cr3), f) ensures InWindow(Store(mem, slot, e), cr3, f) {
      assert InWindow(mem, cr3, f);
      StoreKeepsTranslations(mem, cr3, P2V(f), slot, e);
    }
  }

  /** A leaf entry that is present was there before: no table was linked on the way. */
  lemma NothingLinked(c2: Cursor, cr3: bv64, level2: Levels, va: bv64, c1: Cursor)
    requires Sound(c2.mem, cr3, level2, c2.spare) && level2(c2.table) == 2
    requires Descend(c2, Pde(va)) == Some(c1) && Present(c1.mem(Slot(c1.table, Pte(va))))
    requires var e := c2.mem(Slot(c2.table, Pde(va))); !(Present(e) && Large(e))
    ensures Present(c2.mem(Slot(c2.table, Pde(va)))) && c1.mem == c2.mem
  {
    assert CanDescend(c2, cr3, level2, Pde(va)) by {
      hide Slot, Present, Large, Frame, IsFrame, ZeroFrame, SelfMapped, Pde;
      IndexBounds(va);
    }
    hide CanDescend, Sound, Slot, Present, Large, Frame, Pde, Pte, Link, IsIndex;
    IndexBounds(va);
    if !Present(c2.mem(Slot(c2.table, Pde(va)))) {
      LinkedIsEmpty(c2, cr3, level2, Pde(va), Pte(va));
    }
  }

  lemma RemapKeepsWindow(mem: Memory, cr3: bv64, level1: Levels, level: Levels, spare: seq<bv64>, va: bv64,
                         t3: bv64, t2: bv64, t1: bv64, entry: bv64)
    requires WindowOk(mem, cr3, level, spare) && RemapSafe(mem, cr3, level, spare, va)
    requires Leveled(mem, Frame(cr3), level1) && level1(t1) == 1 && PathToPt(mem, cr3, va, t3, t2, t1)
    requires Present(mem(Slot(t1, Pte(va))))
    requires forall f :: Usable(level, spare, Frame(cr3), f) ==> IsFrame(f)
    ensures WindowOk(Store(mem, Slot(t1, Pte(va)), entry), cr3, level, spare)
  {
    var slot := Slot(t1, Pte(va));
    PathLeaf(mem, cr3, va, t3, t2, t1);
    hide Leveled, Translate, Walk, EndsIn, Slot, Present, Large, Frame, P2V, Pml4e, Pdpte, Pde, Pte, Usable, Store,
      IsIndex, IsFrame, PathToPt;
    IndexBounds(va);
    forall f | Usable(level, spare, Frame(cr3), f) ensures InWindow(Store(mem, slot, entry), cr3, f) {
      assert InWindow(mem, cr3, f);
      WindowAddress(f);
      LeafKeepsWalk(mem, cr3, level1, t1, Pte(va), entry, P2V(f));
    }
  }

  lemma PathLeaf(mem: Memory, cr3: bv64, va: bv64, t3: bv64, t2: bv64, t1: bv64)
    requires PathToPt(mem, cr3, va, t3, t2, t1)
    ensures Walk(mem, cr3, va) == Leaf(1, Slot(t1, Pte(va)), mem(Slot(t1, Pte(va))))
  {
    hide EndsIn, Walk, Slot, Present, Large, Frame, Pml4e, Pdpte, Pde, Pte;
    WalkReaches(mem, cr3, va, mem(Slot(Frame(cr3), Pml4e(va))), mem(Slot(t3, Pdpte(va))), mem(Slot(t2, Pde(va))));
  }

  /** What stays usable after the call was usable before it. */
  lemma WindowAfter(mem: Memory, cr3: bv64, level: Levels, near: seq<bv64>, level': Levels, taken: seq<bv64>)
    requires WindowOk(mem, cr3, level, near) && LevelsGrow(level, level', taken)
    requires forall f :: f in taken ==> f in near
    ensures WindowOk(mem, cr3, level', [])
  {
    hide InWindow, Frame;
    assert forall f :: Usable(level', [], Frame(cr3), f) ==> Usable(level, near, Frame(cr3), f);
  }

  // ----- the self-referencing slot -----

  /** Writing slot 0x180 of the PML4 changes no other entry. */
  lemma SelfSlotReads(mem: Memory, root: bv64, e: bv64)
    requires IsFrame(root)
    ensures forall u, j {:trigger Slot(u, j)} :: IsFrame(u) && IsIndex(j) && !(u == root && j == MMU_RE) ==>
              Store(mem, Slot(root, MMU_RE), e)(Slot(u, j)) == mem(Slot(u, j))
  {
    hide Slot, Frame, IsIndex, IsFrame;
    IndexBounds(0);
    forall u, j {:trigger Slot(u, j)} | IsFrame(u) && IsIndex(j) && !(u == root && j == MMU_RE)
      ensures Store(mem, Slot(root, MMU_RE), e)(Slot(u, j)) == mem(Slot(u, j))
    {
      if Slot(u, j) == Slot(root, MMU_RE) {
        SlotInjective(u, j, root, MMU_RE);
      }
    }
  }

  lemma SelfSlotLevels(mem: Memory, root: bv64, level: Levels, e: bv64)
    requires Leveled(mem, root, level)
    ensures Leveled(Store(mem, Slot(root, MMU_RE), e), root, level)
  {
    assert level(root) == 4 && IsFrame(root);
    hide Slot, IsIndex, IsFrame, EntryFits, Store;
    var mem' := Store(mem, Slot(root, MMU_RE), e);
    SelfSlotReads(mem, root, e);
    forall u, j {:trigger Slot(u, j)} | level(u) >= 2 && IsIndex(j) && !(u == root && j == MMU_RE)
      ensures EntryFits(mem'(Slot(u, j)), level, level(u))
    {
      assert IsFrame(u) && EntryFits(mem(Slot(u, j)), level, level(u));
    }
  }

  /** It changes no translation outside that slot. */
  lemma SelfSlotMeaning(mem: Memory, cr3: bv64, level: Levels, e: bv64, va: bv64)
    requires Leveled(mem, Frame(cr3), level) && Pml4e(va) != MMU_RE
    ensures Translate(Store(mem, Slot(Frame(cr3), MMU_RE), e), cr3, va) == Translate(mem, cr3, va)
  {
    var root := Frame(cr3);
    assert level(root) == 4;
    hide Translate, Walk, Slot, Present, Large, Frame, IsIndex, IsFrame, Pml4e, Pdpte, Pde, Pte, Store, EntryFits;
    IndexBounds(va);
    var e4 := mem(Slot(root, Pml4e(va)));
    var e3 := mem(Slot(Frame(e4), Pdpte(va)));
    var e2 := mem(Slot(Frame(e3), Pde(va)));
    WalkLevels(mem, root, level, va, e4, e3, e2);
    SelfSlotReads(mem, root, e);
    SameWalk(mem, Store(mem, Slot(root, MMU_RE), e), cr3, va, e4, e3, e2);
  }

  lemma SelfSlotWindow(mem: Memory, cr3: bv64, level: Levels, e: bv64)
    requires Leveled(mem, Frame(cr3), level) && WindowOk(mem, cr3, level, [])
    ensures WindowOk(Store(mem, Slot(Frame(cr3), MMU_RE), e), cr3, level, [])
  {
    assert forall f :: Usable(level, [], Frame(cr3), f) ==> IsFrame(f);
    hide Leveled, Translate, Slot, Frame, P2V, Pml4e, Usable, Store, IsFrame;
    forall f | Usable(level, [], Frame(cr3), f) ensures InWindow(Store(mem, Slot(Frame(cr3), MMU_RE), e), cr3, f) {
      assert InWindow(mem, cr3, f);
      WindowAddress(f);
      SelfSlotMeaning(mem, cr3, level, e, P2V(f));
    }
  }

  lemma SelfSlotSound(mem: Memory, cr3: bv64, level: Levels, spare: seq<bv64>)
    requires Leveled(mem, Frame(cr3), level) && IsFrame(cr3) && WindowOk(mem, cr3, level, [])
    requires Rings.Distinct(spare) && forall f :: f in spare ==> IsFrame(f) && level(f) == 0 && ZeroFrame(mem, f)
    ensures var mem' := Store(mem, Slot(Frame(cr3), MMU_RE), TableEntry(cr3));
            Sound(mem', cr3, level, spare) && WindowOk(mem', cr3, level, [])
  {
    var mem' := Store(mem, Slot(Frame(cr3), MMU_RE), TableEntry(cr3));
    SelfSlotLevels(mem, Frame(cr3), level, TableEntry(cr3));
    SelfSlotWindow(mem, cr3, level, TableEntry(cr3));
    TableEntryBits(cr3);
    SelfSlotReads(mem, Frame(cr3), TableEntry(cr3));
    hide Leveled, Translate, WindowOk, Slot, Frame, Present, Large, TableEntry;
    forall f | f in spare ensures ZeroFrame(mem', f) {
      assert level(f) == 0 && level(Frame(cr3)) == 4;
      assert ZeroFrame(mem, f);
    }
  }

  // ----- the methods -----

  /** The pages taken from the front of the free list are flagged as page tables, and no
      other flags change. */
  ghost predicate Flagged(flags: nat -> bv64, free: seq<nat>, flags': nat -> bv64, free': seq<nat>) {
    |free'| <= |free| && free' == free[|free| - |free'|..] &&
    forall p: nat :: flags'(p) == if p in free[..|free| - |free'|] then flags(p) | Marking.P_VIRT else flags(p)
  }

  lemma FlaggedThen(f0: nat -> bv64, l0: seq<nat>, f1: nat -> bv64, l1: seq<nat>, f2: nat -> bv64, l2: seq<nat>)
    requires Flagged(f0, l0, f1, l1) && Flagged(f1, l1, f2, l2) && Rings.Distinct(l0)
    ensures Flagged(f0, l0, f2, l2)
  {
    var a, b := |l0| - |l1|, |l0| - |l2|;
    assert l0[..b] == l0[..a] + l1[..b - a];
    forall p: nat ensures f2(p) == if p in l0[..b] then f0(p) | Marking.P_VIRT else f0(p) {
      if p in l0[..a] {
        assert p !in l1[..b - a];
      }
    }
  }

  lemma FlaggedNothing(flags: nat -> bv64, free: seq<nat>)
    ensures Flagged(flags, free, flags, free)
  {
  }

  lemma DescendCases(c: Cursor, index: bv64)
    requires Descend(c, index).Some?
    ensures var e, c' := c.mem(Slot(c.table, index)), Descend(c, index).value;
            if Present(e) then c' == Cursor(c.mem, Frame(e), c.spare)
            else c.spare != [] && c' == Cursor(Store(c.mem, Slot(c.table, index), TableEntry(c.spare[0])),
                                               c.spare[0], c.spare[1..])
  {
    hide Slot, Present, Frame, TableEntry;
  }

  lemma EntryBits(e: bv64)
    ensures Present(e) <==> e & PRESENT != 0
    ensures Large(e) <==> e & PS != 0
  {
  }

  /** What the rest of the call does, by what the directory entry says. */
  lemma FromPdCases(c2: Cursor, va: bv64, entry: bv64)
    requires MapFromPd(c2, va, entry).Some?
    ensures var e := c2.mem(Slot(c2.table, Pde(va)));
            if Present(e) && Large(e) then MapFromPd(c2, va, entry) == Some(Result(c2.mem, c2.spare, false))
            else Descend(c2, Pde(va)).Some? &&
                 var c1 := Descend(c2, Pde(va)).value;
                 MapFromPd(c2, va, entry) == Some(Result(Store(c1.mem, Slot(c1.table, Pte(va)), entry), c1.spare, true))
  {
    hide Descend, Slot, Present, Large, Pde, Pte;
  }

  lemma ValidAfter(mem: Memory, cr3: bv64, level: Levels, spare: seq<bv64>, va: bv64, entry: bv64,
                   r: Result, level': Levels, slot: bv64, taken: seq<bv64>)
    requires Effects(mem, level, spare, cr3, va, entry, r, level', slot, taken)
    requires WindowOk(r.mem, cr3, level, Near(mem, cr3, spare, va))
    ensures Sound(r.mem, cr3, level', r.rest) && WindowOk(r.mem, cr3, level', [])
  {
    hide Sound, Walk, WindowOk, ParentsGrow, MapsOnly, Frame, Near, Needed, LevelsGrow;
    TakenIsNear(mem, cr3, spare, va, taken, r.rest);
    WindowAfter(r.mem, cr3, level, Near(mem, cr3, spare, va), level', taken);
  }

  /** Under a 2 MB page nothing is done and `data` is 0; otherwise `data` is the address, and the
      page there is mapped to the frame with the flags. */
  ghost predicate Mapped(mem: Memory, mem': Memory, cr3: bv64, address: bv64, frame: bv64, flags: bv64, data: bv64) {
    if CoveredBy2M(mem, cr3, address) then data == 0 && mem' == mem
    else data == address && MapsTo(mem', cr3, address, frame, flags)
  }

  /** The page that `mmu_req_page` returns is the first free one, mapped at the address. */
  ghost predicate Requested(mem: Memory, mem': Memory, cr3: bv64, address: bv64, first: nat, flags: bv64,
                            page: Option<nat>) {
    if CoveredBy2M(mem, cr3, address) then mem' == mem
    else page == Some(first) && MapsTo(mem', cr3, address, Address(first), flags)
  }

  lemma MappedIsRequested(mem: Memory, mem': Memory, cr3: bv64, address: bv64, first: nat, flags: bv64, data: bv64,
                          page: Option<nat>)
    requires Mapped(mem, mem', cr3, address, Address(first), flags, data) && (data == address ==> page == Some(first))
    ensures Requested(mem, mem', cr3, address, first, flags, page)
  {
    hide CoveredBy2M, MapsTo, Address;
  }

  lemma MappedAfter(mem: Memory, level: Levels, spare: seq<bv64>, cr3: bv64, address: bv64, frame: bv64, flags: bv64,
                    r: Result, level': Levels, slot: bv64, taken: seq<bv64>)
    requires Mappable(mem, cr3, level, spare, address)
    requires Effects(mem, level, spare, cr3, address, LeafEntry(frame, flags), r, level', slot, taken)
    ensures Mapped(mem, r.mem, cr3, address, frame, flags, if r.done then address else 0)
  {
    hide Sound, WindowOk, RemapSafe, No1G, CoveredBy2M, LevelsGrow, ParentsGrow, MapsOnly, MapsTo, Pml4e, Walk, Frame;
    if !CoveredBy2M(mem, cr3, address) {
      MapPageMapsTo(mem, level, spare, cr3, address, frame, flags, r, level', slot, taken);
    }
  }

  lemma FreeDistinct(frames: Allocator.FrameAllocator)
    requires frames.Ready()
    ensures Rings.Distinct(frames.lists.free)
  {
    Frames.RepresentsDistinct(frames.links.View(), frames.lists);
  }

  lemma StepsAre(mem: Memory, cr3: bv64, spare: seq<bv64>, va: bv64, c3: Cursor, c2: Cursor, c1: Cursor)
    requires Descend(Cursor(mem, Frame(cr3), spare), Pml4e(va)) == Some(c3) && Descend(c3, Pdpte(va)) == Some(c2)
    requires !(Present(c2.mem(Slot(c2.table, Pde(va)))) && Large(c2.mem(Slot(c2.table, Pde(va)))))
    requires Descend(c2, Pde(va)) == Some(c1)
    ensures ThreeSteps(mem, cr3, spare, va, c3, c2, c1)
  {
  }

  lemma ReqReturns(mem: Memory, cr3: bv64, spare: seq<bv64>, address: bv64, flags: bv64, r: Result, data: bv64)
    requires spare != [] && Mapping.MapPage(mem, cr3, spare[1..], PageBase(address), LeafEntry(spare[0], flags)) ==
             Some(r)
    requires data == if r.done then PageBase(address) else 0
    ensures var q := MapRuns.ReqPage(mem, cr3, spare, address, flags);
            && q.Some? && q.value.mem == r.mem && q.value.rest == r.rest
            && q.value.page == if data != PageBase(address) then None else Some(spare[0])
  {
    hide Mapping.MapPage, PageBase, MapRuns.ReqPage;
    ReqShape(mem, cr3, spare, address, flags, r);
  }

  /** The tables that are in use when `mmu_init` is called: one level each, and all of them
      in the window. */
  ghost predicate BootTables(mem: Memory, cr3: bv64, level: Levels) {
    IsFrame(cr3) && Leveled(mem, cr3, level) && InWindow(mem, cr3, cr3) && WindowOk(mem, cr3, level, [])
  }

  /** The free frames are distinct, zero, and none of them is a table. */
  ghost predicate SpareOk(mem: Memory, level: Levels, spare: seq<bv64>) {
    Rings.Distinct(spare) && forall f :: f in spare ==> IsFrame(f) && level(f) == 0 && ZeroFrame(mem, f)
  }

  /** The entry that `mmu_init` writes is in the PML4, and afterwards the tables are sound. */
  lemma SelfSlotInstalled(mem: Memory, cr3: bv64, level: Levels, spare: seq<bv64>)
    requires BootTables(mem, cr3, level) && SpareOk(mem, level, spare)
    ensures Translate(mem, cr3, Element(P2V(cr3), MMU_RE)) == Some(Slot(cr3, MMU_RE))
    ensures var mem' := Store(mem, Slot(cr3, MMU_RE), TableEntry(cr3));
            Sound(mem', cr3, level, spare) && WindowOk(mem', cr3, level, [])
  {
    hide Leveled, Translate, WindowOk, Sound, ZeroFrame, Slot, Element, P2V, TableEntry, Store, Rings.Distinct;
    WindowAddress(cr3);
    IndexBounds(0);
    ElementTranslates(mem, cr3, P2V(cr3), cr3, MMU_RE);
    SelfSlotSound(mem, cr3, level, spare);
  }

  /** The flags that `mmu_init` gives the page of the PML4. */
  lemma RetiredFlags(flags: nat -> bv64, page: nat)
    ensures var f := Marking.P_USED | Marking.P_IMMUTABLE | Marking.P_KERNEL | Marking.P_VIRT;
            forall p: nat :: Marking.SetFlags(flags, page, f)(p) == if p == page then 0x3_6000 else flags(p)
  {
  }

  class MemoryManager {
    const frames: Allocator.FrameAllocator
    var mem: Memory
    const cr3: bv64
    const pml4: bv64   // the virtual address in PML4->data
    ghost var level: Levels

    /** `mmu_init`, with the number `root` in CR3. */
    constructor MmuInit(frames: Allocator.FrameAllocator, mem: Memory, root: nat, ghost level: Levels)
      requires frames.Ready() && root < 0x10_0000_0000_0000 && root % Sizes.PAGE_SIZE == 0
      requires Layout.PageRequest(frames.numpages, root).Some?  // asserted by the code
      requires Frames.Retirable(frames.links.View(), frames.lists, root / Sizes.PAGE_SIZE)
      requires BootTables(mem, ToWord(root), level)
      requires SpareOk(mem, level, Addresses(Frames.WithoutPage(frames.lists, root / Sizes.PAGE_SIZE).free))
      modifies frames, frames.links
      ensures Valid() && this.frames == frames && this.cr3 == ToWord(root) && this.level == level
      ensures frames.lists == Frames.WithoutPage(old(frames.lists), root / Sizes.PAGE_SIZE)
      ensures this.mem == Store(mem, Slot(cr3, MMU_RE), TableEntry(cr3))
      ensures forall p: nat :: frames.flags(p) == if p == root / 0x1000 then 0x3_6000 else old(frames.flags)(p)
    {
      hide BootTables, SpareOk, Translate, WindowOk, Sound, Slot, Element, P2V, Recursive, TableEntry, Store, ToWord,
        Frames.Represents, Frames.Clean, Frames.WithoutPage, Frames.Retirable, Rings.Ring, Addresses, Marking.SetFlags;
      var page := Layout.PageRequest(frames.numpages, root).value;
      var cr3 := ToWord(root);
      SelfSlotInstalled(mem, cr3, level, Addresses(Frames.WithoutPage(frames.lists, page).free));
      RetiredFlags(frames.flags, page);
      frames.Retire(page, Marking.P_USED | Marking.P_IMMUTABLE | Marking.P_KERNEL | Marking.P_VIRT);
      this.frames, this.cr3, this.level := frames, cr3, level;
      this.pml4 := Recursive(MMU_RE, MMU_RE, MMU_RE, MMU_RE);
      this.mem := Store(mem, Translate(mem, cr3, Element(P2V(cr3), MMU_RE)).value, TableEntry(cr3));
    }

    ghost function Spare(): seq<bv64>
      reads frames
    {
      Addresses(frames.lists.free)
    }

    ghost predicate Valid()
      reads this, frames, frames.links
    {
      && frames.Ready()
      && Sound(mem, cr3, level, Spare())
      && WindowOk(mem, cr3, level, [])
      && pml4 == Recursive(MMU_RE, MMU_RE, MMU_RE, MMU_RE)
    }

    method Read(va: bv64) returns (word: bv64)
      requires Translate(mem, cr3, va).Some?
      ensures word == mem(Translate(mem, cr3, va).value)
    {
      word := mem(Translate(mem, cr3, va).value);
    }

    method Write(va: bv64, word: bv64)
      requires Translate(mem, cr3, va).Some?
      modifies this`mem
      ensures mem == Store(old(mem), Translate(old(mem), cr3, va).value, word)
    {
      mem := Store(mem, Translate(mem, cr3, va).value, word);
    }

    /** The block that `mmu_map_page` has three times: the virtual address of the table
        that an entry names, or of a new one that is linked there and flagged. */
    method NextTable(table: bv64, index: bv64, ghost c: Cursor) returns (next: bv64, ghost c': Cursor)
      requires frames.Ready() && c.mem == mem && c.spare == Spare()
      requires Translate(mem, cr3, Element(table, index)) == Some(Slot(c.table, index)) && Descend(c, index).Some?
      modifies this`mem, frames, frames.links
      ensures frames.Ready() && Descend(c, index) == Some(c')
      ensures next == P2V(c'.table) && c'.mem == mem && c'.spare == Spare()
      ensures Flagged(old(frames.flags), old(frames.lists.free), frames.flags, frames.lists.free)
    {
      hide Translate, Slot, Element, PageBase, P2V, Address, Frames.Represents, Frames.Clean, Present, Frame,
        TableEntry, Flagged, Store, Link;
      var e := Read(Element(table, index));
      EntryBits(e);
      DescendCases(c, index);
      c' := Descend(c, index).value;
      if e & PRESENT != 0 {
        next := P2V(PageBase(e));
        WindowOfEntry(e);
        FlaggedNothing(frames.flags, frames.lists.free);
      } else {
        var p := NewTable();
        next := P2V(Address(p));
        Write(Element(table, index), TableEntry(Address(p)));
      }
    }

    /** A page for a table, flagged as such. */
    method NewTable() returns (p: nat)
      requires frames.Ready() && Spare() != []
      modifies frames, frames.links
      ensures frames.Ready() && Address(p) == old(Spare())[0] && Spare() == old(Spare())[1..]
      ensures Flagged(old(frames.flags), old(frames.lists.free), frames.flags, frames.lists.free)
    {
      hide Address, Frames.Represents, Frames.Clean, Frames.PageAlloc;
      ghost var free := frames.lists.free;
      var r := frames.PageAlloc();
      p := r.value;
      frames.flags := Marking.SetFlags(frames.flags, p, frames.flags(p) | Marking.P_VIRT);
      assert Addresses(free)[1..] == Addresses(frames.lists.free);
      assert free[..1] == [p];
    }

    /** `mmu_map_page`: returns the value left in `frame->data`. */
    method MapPage(frame: bv64, address: bv64, flags: bv64)
      returns (data: bv64, ghost slot: bv64, ghost taken: seq<bv64>)
      requires Valid() && Mappable(mem, cr3, level, Spare(), address)
      modifies this, frames, frames.links
      ensures Valid()
      ensures var r := Mapping.MapPage(old(mem), cr3, old(Spare()), address, LeafEntry(frame, flags));
              && r.Some? && r.value.mem == mem && r.value.rest == Spare()
              && data == (if r.value.done then address else 0)
              && Effects(old(mem), old(level), old(Spare()), cr3, address, LeafEntry(frame, flags), r.value, level,
                 slot, taken)
      ensures Flagged(old(frames.flags), old(frames.lists.free), frames.flags, frames.lists.free)
      ensures Mapped(old(mem), mem, cr3, address, frame, flags, data)
    {
      hide Sound, WindowOk, Mappable, Translate, Slot, Element, Present, Large, Frame, Pml4e, Pdpte, Pde, Pte,
        Mapped, Recursive, P2V, Descend, Effects, Flagged, Frames.Represents, Frames.Clean, Address, Mapping.MapPage,
        LeafEntry, MapFromPd, ThreeSteps, Rings.Distinct, Store;
      FreeDistinct(frames);
      ghost var f0, l0 := frames.flags, frames.lists.free;
      ghost var mem0, level0, spare0, entry := mem, level, Spare(), LeafEntry(frame, flags);
      ghost var c := Cursor(mem, Frame(cr3), spare0);
      Pml4Ready(mem0, cr3, level0, spare0, address, entry);
      slot, taken := ChooseLevels(mem0, cr3, level0, spare0, address, entry);
      var pdpt, c3 := NextTable(pml4, Pml4e(address), c);
      PdptReady(mem0, cr3, level0, spare0, address, entry, c3);
      ghost var f3, l3 := frames.flags, frames.lists.free;
      var pd, c2 := NextTable(pdpt, Pdpte(address), c3);
      FlaggedThen(f0, l0, f3, l3, frames.flags, frames.lists.free);
      ghost var f2, l2 := frames.flags, frames.lists.free;
      PdReady(mem0, cr3, level0, spare0, address, entry, c3, c2);
      var e := Read(Element(pd, Pde(address)));
      EntryBits(e);
      FromPdCases(c2, address, entry);
      if e & PRESENT != 0 && e & PS != 0 {
        data := 0;
        ValidAfter(mem0, cr3, level0, spare0, address, entry, Result(mem, Spare(), false), level, slot, taken);
        MappedAfter(mem0, level0, spare0, cr3, address, frame, flags, Result(mem, Spare(), false), level, slot, taken);
        return;
      }
      var pt, c1 := NextTable(pd, Pde(address), c2);
      FlaggedThen(f0, l0, f2, l2, frames.flags, frames.lists.free);
      StepsAre(mem0, cr3, spare0, address, c3, c2, c1);
      PtReady(mem0, cr3, level0, spare0, address, entry, c3, c2, c1);
      Write(Element(pt, Pte(address)), LeafEntry(frame, flags));
      data := address;
      ValidAfter(mem0, cr3, level0, spare0, address, entry, Result(mem, Spare(), true), level, slot, taken);
      MappedAfter(mem0, level0, spare0, cr3, address, frame, flags, Result(mem, Spare(), true), level, slot, taken);
    }

    /** `mmu_req_page`. */
    method ReqPage(address: bv64, flags: bv64) returns (page: Option<nat>)
      requires Valid() && frames.lists.free != []
      requires Mappable(mem, cr3, level, Spare()[1..], PageBase(address))
      modifies this, frames, frames.links
      ensures Valid()
      ensures var r := MapRuns.ReqPage(old(mem), cr3, old(Spare()), address, flags);
              && r.Some? && r.value.mem == mem && r.value.rest == Spare()
              && (page.Some? <==> r.value.page.Some?) && (page.Some? ==> Some(Address(page.value)) == r.value.page)
      ensures Requested(old(mem), mem, cr3, PageBase(address), old(frames.lists.free)[0], flags, page)
    {
      hide Sound, WindowOk, Mappable, Translate, Walk, Frame, Recursive, PageBase, Effects, Flagged,
        Frames.Represents, Frames.Clean, Address, Mapping.MapPage, MapRuns.ReqPage, LeafEntry, Mapped, Requested;
      ghost var mem0, spare0 := mem, Spare();
      ghost var free := frames.lists.free;
      ghost var first, rest := Address(free[0]), Addresses(free[1..]);
      assert Spare()[1..] == rest && Spare()[0] == first;
      SpareTail(mem, cr3, level, Spare());
      var r := frames.PageAlloc();
      var p := r.value;
      var data, slot, taken := MapPage(Address(p), PageBase(address), flags);
      ReqReturns(mem0, cr3, spare0, address, flags, Mapping.MapPage(mem0, cr3, rest, PageBase(address),
          LeafEntry(first, flags)).value, data);
      page := if data != PageBase(address) then None else Some(p);
      MappedIsRequested(mem0, mem, cr3, PageBase(address), p, flags, data, page);
    }

    /** The levels after the call, and what the call does. */
    ghost method ChooseLevels(mem0: Memory, cr3: bv64, level0: Levels, spare0: seq<bv64>, address: bv64, entry: bv64)
        returns (slot: bv64, taken: seq<bv64>)
      requires Mappable(mem0, cr3, level0, spare0, address) && Mapping.MapPage(mem0, cr3, spare0, address, entry).Some?
      modifies this`level
      ensures var r := Mapping.MapPage(mem0, cr3, spare0, address, entry).value;
              Effects(mem0, level0, spare0, cr3, address, entry, r, level, slot, taken)
    {
      hide Sound, WindowOk, Effects, No1G, RemapSafe, Walk, Mapping.MapPage;
      level, slot, taken := MapPageEffects(mem0, cr3, level0, spare0, address, entry);
    }
  }
}
