/** Page tables as a structure in physical memory: every table frame has one level,
    and what a single store into a table does to every translation. */
module Tables {
  import opened Words
  import opened Paging

  /** The level of each table frame: 4 for the PML4 down to 1, and 0 for a frame that
      is no table. */
  type Levels = bv64 -> nat

  function SetLevel(level: Levels, f: bv64, k: nat): Levels {
    t => if t == f then k else level(t)
  }

  ghost predicate IsFrame(f: bv64) {
    Frame(f) == f
  }

  /** A present entry names a table one level down, or is a large page.  Bit 7 of a
      PML4 entry is reserved and clear. */
  ghost predicate EntryFits(e: bv64, level: Levels, k: nat) {
    Present(e) ==> if k == 4 then !Large(e) && level(Frame(e)) == 3 else Large(e) || level(Frame(e)) == k - 1
  }

  /** Apart from slot 0x180 of the PML4, every table is used at one level only. */
  ghost predicate Leveled(mem: Memory, root: bv64, level: Levels) {
    && (forall t :: level(t) > 0 ==> IsFrame(t) && level(t) <= 4)
    && (forall t :: level(t) == 4 <==> t == root)
    && (forall t, i {:trigger Slot(t, i)} :: level(t) >= 2 && IsIndex(i) && !(t == root && i == MMU_RE) ==>
          EntryFits(mem(Slot(t, i)), level, level(t)))
  }

  ghost predicate ZeroFrame(mem: Memory, f: bv64) {
    forall i {:trigger Slot(f, i)} :: IsIndex(i) ==> mem(Slot(f, i)) == 0
  }

  lemma BitsSlotFrame(t: bv64, i: bv64)
    requires t & 0x000F_FFFF_FFFF_F000 == t && i < 512
    ensures (t | (i << 3)) & 0x000F_FFFF_FFFF_F000 == t
  {
  }

  lemma BitsSlotIndex(t: bv64, i: bv64)
    requires t & 0x000F_FFFF_FFFF_F000 == t && i < 512
    ensures ((t | (i << 3)) >> 3) & 0x1FF == i
  {
  }

  /** The index of the entry at a physical address. */
  function IndexAt(slot: bv64): bv64 {
    (slot >> 3) & 0x1FF
  }

  lemma SlotFrame(t: bv64, i: bv64)
    requires IsFrame(t) && IsIndex(i)
    ensures Frame(Slot(t, i)) == t
  {
    BitsSlotFrame(t, i);
  }

  lemma SlotIndex(t: bv64, i: bv64)
    requires IsFrame(t) && IsIndex(i)
    ensures IndexAt(Slot(t, i)) == i
  {
    BitsSlotIndex(t, i);
  }

  /** Different entries, of the same or of different tables, are different words. */
  lemma SlotInjective(t: bv64, i: bv64, u: bv64, j: bv64)
    requires IsFrame(t) && IsFrame(u) && IsIndex(i) && IsIndex(j)
    requires Slot(t, i) == Slot(u, j)
    ensures t == u && i == j
  {
    hide *;
    SlotFrame(t, i);
    SlotFrame(u, j);
    SlotIndex(t, i);
    SlotIndex(u, j);
  }

  lemma BitsPresent(f: bv64)
    ensures (f | (0x1 | 0x2)) & 0x1 != 0
  {
  }

  lemma BitsNotLarge(f: bv64)
    requires f & 0x000F_FFFF_FFFF_F000 == f
    ensures (f | (0x1 | 0x2)) & 0x80 == 0
  {
  }

  lemma BitsSameFrame(f: bv64)
    requires f & 0x000F_FFFF_FFFF_F000 == f
    ensures (f | (0x1 | 0x2)) & 0x000F_FFFF_FFFF_F000 == f
  {
  }

  /** The entry that `mmu_map_page` writes for a new table. */
  function TableEntry(f: bv64): bv64 {
    f | (PRESENT | RW)
  }

  lemma BitsTableFlags(f: bv64)
    requires f & 0x000F_FFFF_FFFF_F000 == f
    ensures (f | 0x3) & 0xFFF == 0x3 && (f | 0x3) >> 52 == 0
  {
  }

  /** Besides the frame it holds the bits PRESENT and RW and no others. */
  lemma TableEntryFlags(f: bv64)
    requires IsFrame(f)
    ensures Frame(TableEntry(f)) == f && Offset(TableEntry(f)) == 0x3 && TableEntry(f) >> 52 == 0
  {
    assert PRESENT | RW == 0x3;
    BitsTableFlags(f);
    BitsSameFrame(f);
  }

  lemma TableEntryBits(f: bv64)
    requires IsFrame(f)
    ensures Present(TableEntry(f)) && !Large(TableEntry(f)) && Frame(TableEntry(f)) == f
    ensures !Present(0)
  {
    BitsPresent(f);
    BitsNotLarge(f);
    BitsSameFrame(f);
  }

  lemma FrameIsFrame(e: bv64)
    ensures IsFrame(Frame(e))
  {
  }

  /** A store into a slot whose entry is not present changes no successful
      translation: such a walk reads present entries only. */
  lemma StoreKeepsTranslations(mem: Memory, cr3: bv64, va: bv64, slot: bv64, e: bv64)
    requires !Present(mem(slot)) && Translate(mem, cr3, va).Some?
    ensures Translate(Store(mem, slot, e), cr3, va) == Translate(mem, cr3, va)
  {
    hide Slot, Frame, Present, Large, Pml4e, Pdpte, Pde, Pte, Canonical, Offset, Join, Page1G, Page2M;
  }

  lemma StoreKeepsSelfMap(mem: Memory, cr3: bv64, slot: bv64, e: bv64)
    requires SelfMapped(mem, cr3) && !Present(mem(slot))
    ensures SelfMapped(Store(mem, slot, e), cr3)
  {
    hide Slot, Frame, Present, Large;
  }

  // ----- linking a new, empty table -----

  /** Entry `i` of table `t`, at level `k`, is not present, and `f` is a frame of
      zeroes that is no table: what must hold before `f` is linked there. */
  ghost predicate Linkable(mem: Memory, root: bv64, level: Levels, t: bv64, i: bv64, f: bv64) {
    && Leveled(mem, root, level)
    && level(t) >= 2 && IsIndex(i) && !(t == root && i == MMU_RE)
    && !Present(mem(Slot(t, i)))
    && IsFrame(f) && level(f) == 0 && ZeroFrame(mem, f)
  }

  function Link(mem: Memory, t: bv64, i: bv64, f: bv64): Memory {
    Store(mem, Slot(t, i), TableEntry(f))
  }

  /** Other entries keep their value, the new table stays empty, and the entry names it. */
  lemma LinkReads(mem: Memory, root: bv64, level: Levels, t: bv64, i: bv64, f: bv64)
    requires Linkable(mem, root, level, t, i, f)
    ensures var mem' := Link(mem, t, i, f);
            && ZeroFrame(mem', f)
            && Present(mem'(Slot(t, i))) && !Large(mem'(Slot(t, i))) && Frame(mem'(Slot(t, i))) == f
            && (forall u, j {:trigger Slot(u, j)} :: IsFrame(u) && IsIndex(j) && !(u == t && j == i) ==>
               mem'(Slot(u, j)) == mem(Slot(u, j)))
  {
    hide Slot, TableEntry, Present, Large, Frame, IsIndex, IsFrame;
    TableEntryBits(f);
    var mem' := Link(mem, t, i, f);
    assert IsFrame(t);
    forall u, j {:trigger Slot(u, j)} | IsFrame(u) && IsIndex(j) && !(u == t && j == i)
      ensures mem'(Slot(u, j)) == mem(Slot(u, j))
    {
      if Slot(u, j) == Slot(t, i) {
        SlotInjective(u, j, t, i);
      }
    }
  }

  lemma LinkRanks(mem: Memory, root: bv64, level: Levels, t: bv64, i: bv64, f: bv64)
    requires Linkable(mem, root, level, t, i, f)
    ensures var level' := SetLevel(level, f, level(t) - 1);
            && (forall u :: level'(u) > 0 ==> IsFrame(u) && level'(u) <= 4)
            && (forall u :: level'(u) == 4 <==> u == root)
            && (forall e, k :: k >= 2 && EntryFits(e, level, k) ==> EntryFits(e, level', k))
  {
    hide IsFrame, IsIndex, Slot, Present, Large, Frame, ZeroFrame;
    assert level(t) <= 4;
    assert root != f;
  }

  /** The new entry fits the levels, and so do those that stayed as they were. */
  lemma LinkEntryFits(mem: Memory, root: bv64, level: Levels, t: bv64, i: bv64, f: bv64, u: bv64, j: bv64)
    requires Linkable(mem, root, level, t, i, f)
    requires var level' := SetLevel(level, f, level(t) - 1); level'(u) >= 2 && IsIndex(j) && !(u == root && j == MMU_RE)
    ensures var level' := SetLevel(level, f, level(t) - 1);
            EntryFits(Link(mem, t, i, f)(Slot(u, j)), level', level'(u))
  {
    if u == f || (u == t && j == i) {
      NewEntryFits(mem, root, level, t, i, f, u, j);
    } else {
      hide Slot, TableEntry, Present, Large, Frame, IsIndex, IsFrame, Link, ZeroFrame, EntryFits;
      LinkReads(mem, root, level, t, i, f);
      LinkRanks(mem, root, level, t, i, f);
      assert IsFrame(u) && EntryFits(mem(Slot(u, j)), level, level(u));
    }
  }

  lemma NewEntryFits(mem: Memory, root: bv64, level: Levels, t: bv64, i: bv64, f: bv64, u: bv64, j: bv64)
    requires Linkable(mem, root, level, t, i, f) && IsIndex(j) && (u == f || (u == t && j == i))
    ensures var level' := SetLevel(level, f, level(t) - 1);
            EntryFits(Link(mem, t, i, f)(Slot(u, j)), level', level'(u))
  {
    hide Slot, TableEntry, Large, Frame, IsIndex, IsFrame, Link, Leveled;
    LinkReads(mem, root, level, t, i, f);
    if u == f {
      assert Link(mem, t, i, f)(Slot(f, j)) == 0;
    }
  }

  /** The new table gets the level below; all others keep theirs. */
  lemma LinkKeepsLevels(mem: Memory, root: bv64, level: Levels, t: bv64, i: bv64, f: bv64)
    requires Linkable(mem, root, level, t, i, f)
    ensures Leveled(Link(mem, t, i, f), root, SetLevel(level, f, level(t) - 1))
  {
    assert level(t) >= 2;
    hide Slot, Linkable, EntryFits, IsIndex, IsFrame, Link, SetLevel;
    var mem', level' := Link(mem, t, i, f), SetLevel(level, f, level(t) - 1);
    LinkRanks(mem, root, level, t, i, f);
    forall u, j {:trigger Slot(u, j)} | level'(u) >= 2 && IsIndex(j) && !(u == root && j == MMU_RE)
      ensures EntryFits(mem'(Slot(u, j)), level', level'(u))
    {
      LinkEntryFits(mem, root, level, t, i, f, u, j);
    }
  }

  lemma LinkKeepsSelfMap(mem: Memory, cr3: bv64, level: Levels, t: bv64, i: bv64, f: bv64)
    requires Linkable(mem, Frame(cr3), level, t, i, f) && SelfMapped(mem, cr3)
    ensures SelfMapped(Link(mem, t, i, f), cr3)
  {
    hide Slot, TableEntry, Present, Large, Frame, IsIndex, IsFrame, Leveled, ZeroFrame, SelfMapped, Store;
    StoreKeepsSelfMap(mem, cr3, Slot(t, i), TableEntry(f));
  }

  lemma LinkKeepsZero(mem: Memory, root: bv64, level: Levels, t: bv64, i: bv64, f: bv64, g: bv64)
    requires Linkable(mem, root, level, t, i, f)
    requires IsFrame(g) && level(g) == 0 && ZeroFrame(mem, g)
    ensures ZeroFrame(Link(mem, t, i, f), g)
  {
    hide Slot, TableEntry, Present, Large, Frame, IsIndex, IsFrame, Link;
    LinkReads(mem, root, level, t, i, f);
  }

  /** Outside slot 0x180, a walk meets a table of level 3, then 2, then 1. */
  lemma WalkLevels(mem: Memory, root: bv64, level: Levels, va: bv64, e4: bv64, e3: bv64, e2: bv64)
    requires Leveled(mem, root, level) && Pml4e(va) != MMU_RE
    requires e4 == mem(Slot(root, Pml4e(va))) && e3 == mem(Slot(Frame(e4), Pdpte(va))) &&
             e2 == mem(Slot(Frame(e3), Pde(va)))
    ensures IsFrame(root) && (Present(e4) ==> !Large(e4) && level(Frame(e4)) == 3 && IsFrame(Frame(e4)))
    ensures Present(e4) && Present(e3) && !Large(e3) ==> level(Frame(e3)) == 2 && IsFrame(Frame(e3))
    ensures Present(e4) && Present(e3) && !Large(e3) && Present(e2) && !Large(e2) ==>
            level(Frame(e2)) == 1 && IsFrame(Frame(e2))
  {
    hide Slot, Present, Large, Frame, IsIndex, IsFrame, Pml4e, Pdpte, Pde, Pte;
    IndexBounds(va);
  }

  /** An entry whose next entry is present is not the one just linked. */
  lemma NotTheLink(mem: Memory, root: bv64, level: Levels, t: bv64, i: bv64, f: bv64, u: bv64, x: bv64, y: bv64)
    requires Linkable(mem, root, level, t, i, f) && IsFrame(u) && IsIndex(x) && IsIndex(y)
    requires var mem' := Link(mem, t, i, f); Present(mem'(Slot(Frame(mem'(Slot(u, x))), y)))
    ensures Link(mem, t, i, f)(Slot(u, x)) == mem(Slot(u, x))
  {
    hide Slot, TableEntry, Present, Large, Frame, IsIndex, IsFrame, Link;
    LinkReads(mem, root, level, t, i, f);
    TableEntryBits(f);
  }

  // A walk that succeeds after the link has read nothing that the link changed, at
  // whichever of the three leaf levels it stops.

  lemma LinkMeaning1G(mem: Memory, cr3: bv64, level: Levels, t: bv64, i: bv64, f: bv64, va: bv64, e4: bv64, e3: bv64)
    requires Linkable(mem, Frame(cr3), level, t, i, f) && Pml4e(va) != MMU_RE && Canonical(va)
    requires var mem' := Link(mem, t, i, f);
             e4 == mem'(Slot(Frame(cr3), Pml4e(va))) &&
             e3 == mem'(Slot(Frame(e4), Pdpte(va)))
    requires Present(e4) && !Large(e4) && Present(e3) && Large(e3)
    ensures Translate(mem, cr3, va) == Translate(Link(mem, t, i, f), cr3, va)
  {
    hide Slot, TableEntry, Present, Large, Frame, IsIndex, IsFrame, Link, SetLevel, Pml4e, Pdpte, Pde, Pte,
      Canonical, Offset, Join, Page1G, Page2M;
    var mem' := Link(mem, t, i, f);
    IndexBounds(va);
    FrameIsFrame(cr3);
    FrameIsFrame(e4);
    LinkReads(mem, Frame(cr3), level, t, i, f);
    NotTheLink(mem, Frame(cr3), level, t, i, f, Frame(cr3), Pml4e(va), Pdpte(va));
    assert e3 == mem(Slot(Frame(e4), Pdpte(va)));
  }

  lemma LinkMeaning2M(mem: Memory, cr3: bv64, level: Levels, t: bv64, i: bv64, f: bv64, va: bv64, e4: bv64,
                      e3: bv64, e2: bv64)
    requires Linkable(mem, Frame(cr3), level, t, i, f) && Pml4e(va) != MMU_RE && Canonical(va)
    requires var mem' := Link(mem, t, i, f);
             e4 == mem'(Slot(Frame(cr3), Pml4e(va))) &&
             e3 == mem'(Slot(Frame(e4), Pdpte(va))) && e2 == mem'(Slot(Frame(e3), Pde(va)))
    requires Present(e4) && !Large(e4) && Present(e3) && !Large(e3) && Present(e2) && Large(e2)
    ensures Translate(mem, cr3, va) == Translate(Link(mem, t, i, f), cr3, va)
  {
    hide Slot, TableEntry, Present, Large, Frame, IsIndex, IsFrame, Link, SetLevel, Pml4e, Pdpte, Pde, Pte,
      Canonical, Offset, Join, Page1G, Page2M;
    var mem' := Link(mem, t, i, f);
    IndexBounds(va);
    FrameIsFrame(cr3);
    FrameIsFrame(e4);
    FrameIsFrame(e3);
    LinkReads(mem, Frame(cr3), level, t, i, f);
    NotTheLink(mem, Frame(cr3), level, t, i, f, Frame(cr3), Pml4e(va), Pdpte(va));
    NotTheLink(mem, Frame(cr3), level, t, i, f, Frame(e4), Pdpte(va), Pde(va));
    assert e2 == mem(Slot(Frame(e3), Pde(va)));
  }

  lemma LinkMeaning4K(mem: Memory, cr3: bv64, level: Levels, t: bv64, i: bv64, f: bv64, va: bv64, e4: bv64,
                      e3: bv64, e2: bv64, e1: bv64)
    requires Linkable(mem, Frame(cr3), level, t, i, f) && Pml4e(va) != MMU_RE && Canonical(va)
    requires var mem' := Link(mem, t, i, f);
             e4 == mem'(Slot(Frame(cr3), Pml4e(va))) &&
             e3 == mem'(Slot(Frame(e4), Pdpte(va))) && e2 == mem'(Slot(Frame(e3), Pde(va))) &&
             e1 == mem'(Slot(Frame(e2), Pte(va)))
    requires Present(e4) && !Large(e4) && Present(e3) && !Large(e3) && Present(e2) && !Large(e2) && Present(e1)
    ensures Translate(mem, cr3, va) == Translate(Link(mem, t, i, f), cr3, va)
  {
    hide Slot, TableEntry, Present, Large, Frame, IsIndex, IsFrame, Link, SetLevel, Pml4e, Pdpte, Pde, Pte,
      Canonical, Offset, Join, Page1G, Page2M;
    var mem', root := Link(mem, t, i, f), Frame(cr3);
    IndexBounds(va);
    LinkKeepsLevels(mem, root, level, t, i, f);
    WalkLevels(mem', root, SetLevel(level, f, level(t) - 1), va, e4, e3, e2);
    LeafIsNotTheLink(level, t, f, Frame(e2));
    LinkReads(mem, root, level, t, i, f);
    NotTheLink(mem, root, level, t, i, f, root, Pml4e(va), Pdpte(va));
    NotTheLink(mem, root, level, t, i, f, Frame(e4), Pdpte(va), Pde(va));
    NotTheLink(mem, root, level, t, i, f, Frame(e3), Pde(va), Pte(va));
    assert e1 == mem(Slot(Frame(e2), Pte(va)));
  }

  lemma LeafIsNotTheLink(level: Levels, t: bv64, f: bv64, u: bv64)
    requires level(t) >= 2 && level(f) == 0 && SetLevel(level, f, level(t) - 1)(u) == 1
    ensures u != t
  {
  }

  /** Linking an empty table changes no translation outside slot 0x180. */
  lemma LinkKeepsMeaning(mem: Memory, cr3: bv64, level: Levels, t: bv64, i: bv64, f: bv64, va: bv64)
    requires Linkable(mem, Frame(cr3), level, t, i, f) && Pml4e(va) != MMU_RE
    ensures Translate(Link(mem, t, i, f), cr3, va) == Translate(mem, cr3, va)
  {
    var mem' := Link(mem, t, i, f);
    if Translate(mem, cr3, va).Some? {
      hide *;
      LinkableSlot(mem, Frame(cr3), level, t, i, f);
      StoreKeepsTranslations(mem, cr3, va, Slot(t, i), TableEntry(f));
    } else if Translate(mem', cr3, va).Some? {
      hide Linkable, Slot, TableEntry, Present, Large, Frame, Link, Pml4e, Pdpte, Pde, Pte, Canonical, Offset,
        Join, Page1G, Page2M;
      var e4 := mem'(Slot(Frame(cr3), Pml4e(va)));
      var e3 := mem'(Slot(Frame(e4), Pdpte(va)));
      var e2 := mem'(Slot(Frame(e3), Pde(va)));
      var e1 := mem'(Slot(Frame(e2), Pte(va)));
      if Large(e3) {
        LinkMeaning1G(mem, cr3, level, t, i, f, va, e4, e3);
      } else if Large(e2) {
        LinkMeaning2M(mem, cr3, level, t, i, f, va, e4, e3, e2);
      } else {
        LinkMeaning4K(mem, cr3, level, t, i, f, va, e4, e3, e2, e1);
      }
    }
  }

  lemma LinkableSlot(mem: Memory, root: bv64, level: Levels, t: bv64, i: bv64, f: bv64)
    requires Linkable(mem, root, level, t, i, f)
    ensures !Present(mem(Slot(t, i))) && Link(mem, t, i, f) == Store(mem, Slot(t, i), TableEntry(f))
  {
  }

  // ----- writing a leaf -----

  /** The walk of `va` stops in the given slot of a level-1 table. */
  ghost predicate EndsIn(mem: Memory, cr3: bv64, va: bv64, slot: bv64) {
    var o := Walk(mem, cr3, va);
    o.Leaf? && o.level == 1 && o.slot == slot
  }

  lemma LeafReads(mem: Memory, root: bv64, level: Levels, t: bv64, i: bv64, e: bv64)
    requires Leveled(mem, root, level) && level(t) == 1 && IsIndex(i)
    ensures forall u, j {:trigger Slot(u, j)} :: IsFrame(u) && IsIndex(j) && !(u == t && j == i) ==>
              Store(mem, Slot(t, i), e)(Slot(u, j)) == mem(Slot(u, j))
  {
    hide Slot, Frame, IsIndex, IsFrame;
    assert IsFrame(t);
    forall u, j {:trigger Slot(u, j)} | IsFrame(u) && IsIndex(j) && !(u == t && j == i)
      ensures Store(mem, Slot(t, i), e)(Slot(u, j)) == mem(Slot(u, j))
    {
      if Slot(u, j) == Slot(t, i) {
        SlotInjective(u, j, t, i);
      }
    }
  }

  lemma LeafKeepsLevels(mem: Memory, root: bv64, level: Levels, t: bv64, i: bv64, e: bv64)
    requires Leveled(mem, root, level) && level(t) == 1 && IsIndex(i)
    ensures Leveled(Store(mem, Slot(t, i), e), root, level)
  {
    hide Slot, IsIndex, IsFrame, EntryFits, Store;
    var mem' := Store(mem, Slot(t, i), e);
    LeafReads(mem, root, level, t, i, e);
    forall u, j {:trigger Slot(u, j)} | level(u) >= 2 && IsIndex(j) && !(u == root && j == MMU_RE)
      ensures EntryFits(mem'(Slot(u, j)), level, level(u))
    {
      assert IsFrame(u) && EntryFits(mem(Slot(u, j)), level, level(u));
    }
  }

  lemma LeafKeepsZero(mem: Memory, root: bv64, level: Levels, t: bv64, i: bv64, e: bv64, g: bv64)
    requires Leveled(mem, root, level) && level(t) == 1 && IsIndex(i)
    requires IsFrame(g) && level(g) == 0 && ZeroFrame(mem, g)
    ensures ZeroFrame(Store(mem, Slot(t, i), e), g)
  {
    hide Slot, IsIndex, IsFrame, Store;
    LeafReads(mem, root, level, t, i, e);
  }

  /** Writing a leaf leaves every entry above it, so all walks keep their way. */
  lemma LeafKeepsUpper(mem: Memory, root: bv64, level: Levels, t: bv64, i: bv64, e: bv64, va: bv64, e4: bv64,
                       e3: bv64, e2: bv64)
    requires Leveled(mem, root, level) && level(t) == 1 && IsIndex(i) && Pml4e(va) != MMU_RE
    requires e4 == mem(Slot(root, Pml4e(va))) && e3 == mem(Slot(Frame(e4), Pdpte(va))) &&
             e2 == mem(Slot(Frame(e3), Pde(va)))
    ensures var mem' := Store(mem, Slot(t, i), e);
            && mem'(Slot(root, Pml4e(va))) == e4
            && (Present(e4) ==> mem'(Slot(Frame(e4), Pdpte(va))) == e3)
            && (Present(e4) && Present(e3) && !Large(e3) ==> mem'(Slot(Frame(e3), Pde(va))) == e2)
  {
    hide Slot, Present, Large, Frame, IsIndex, IsFrame, Pml4e, Pdpte, Pde, Pte, Store;
    IndexBounds(va);
    WalkLevels(mem, root, level, va, e4, e3, e2);
    LeafReads(mem, root, level, t, i, e);
  }

  lemma SameWalk(mem: Memory, mem': Memory, cr3: bv64, va: bv64, e4: bv64, e3: bv64, e2: bv64)
    requires e4 == mem(Slot(Frame(cr3), Pml4e(va))) && e3 == mem(Slot(Frame(e4), Pdpte(va))) &&
             e2 == mem(Slot(Frame(e3), Pde(va)))
    requires mem'(Slot(Frame(cr3), Pml4e(va))) == e4
    requires Present(e4) ==> mem'(Slot(Frame(e4), Pdpte(va))) == e3
    requires Present(e4) && Present(e3) && !Large(e3) ==> mem'(Slot(Frame(e3), Pde(va))) == e2
    requires Present(e4) && Present(e3) && !Large(e3) && Present(e2) && !Large(e2) ==>
               mem'(Slot(Frame(e2), Pte(va))) == mem(Slot(Frame(e2), Pte(va)))
    ensures Walk(mem', cr3, va) == Walk(mem, cr3, va) && Translate(mem', cr3, va) == Translate(mem, cr3, va)
  {
    hide Slot, Present, Large, Frame, IsIndex, IsFrame, Pml4e, Pdpte, Pde, Pte, Canonical, Offset, Join, Page1G, Page2M;
  }

  lemma WalkReaches(mem: Memory, cr3: bv64, va: bv64, e4: bv64, e3: bv64, e2: bv64)
    requires e4 == mem(Slot(Frame(cr3), Pml4e(va))) && e3 == mem(Slot(Frame(e4), Pdpte(va))) &&
             e2 == mem(Slot(Frame(e3), Pde(va)))
    ensures forall slot :: EndsIn(mem, cr3, va, slot) <==>
              Present(e4) && Present(e3) && !Large(e3) && Present(e2) && !Large(e2) && slot == Slot(Frame(e2), Pte(va))
    ensures Present(e4) && Present(e3) && !Large(e3) && Present(e2) && !Large(e2) ==>
              Walk(mem, cr3, va) == Leaf(1, Slot(Frame(e2), Pte(va)), mem(Slot(Frame(e2), Pte(va))))
  {
    hide Slot, Present, Large, Frame, IsIndex, IsFrame, Pml4e, Pdpte, Pde, Pte, Canonical, Offset, Join, Page1G, Page2M;
  }

  /** Writing a leaf changes exactly the walks that end in it. */
  lemma LeafKeepsWalk(mem: Memory, cr3: bv64, level: Levels, t: bv64, i: bv64, e: bv64, va: bv64)
    requires Leveled(mem, Frame(cr3), level) && level(t) == 1 && IsIndex(i) && Pml4e(va) != MMU_RE
    ensures var mem' := Store(mem, Slot(t, i), e);
            if EndsIn(mem, cr3, va, Slot(t, i)) then Walk(mem', cr3, va) == Leaf(1, Slot(t, i), e)
            else Walk(mem', cr3, va) == Walk(mem, cr3, va) && Translate(mem', cr3, va) == Translate(mem, cr3, va)
  {
    hide Leveled, Walk, Translate, EndsIn, Slot, Present, Large, Frame, IsIndex, Pml4e, Pdpte, Pde, Pte;
    var mem' := Store(mem, Slot(t, i), e);
    var e4 := mem(Slot(Frame(cr3), Pml4e(va)));
    var e3 := mem(Slot(Frame(e4), Pdpte(va)));
    var e2 := mem(Slot(Frame(e3), Pde(va)));
    LeafKeepsUpper(mem, Frame(cr3), level, t, i, e, va, e4, e3, e2);
    WalkReaches(mem, cr3, va, e4, e3, e2);
    if EndsIn(mem, cr3, va, Slot(t, i)) {
      WalkReaches(mem', cr3, va, e4, e3, e2);
    } else {
      SameWalk(mem, mem', cr3, va, e4, e3, e2);
    }
  }

  // ----- parents -----

  /** Entry `i` of table `t`, slot 0x180 of the PML4 apart, names the table `f`. */
  ghost predicate ParentSlot(mem: Memory, root: bv64, level: Levels, t: bv64, i: bv64, f: bv64) {
    && level(t) >= 2 && IsIndex(i) && !(t == root && i == MMU_RE)
    && Present(mem(Slot(t, i))) && !Large(mem(Slot(t, i))) && Frame(mem(Slot(t, i))) == f
  }

  /** A link adds one parent slot, for the new table, and takes none away. */
  lemma LinkParents(mem: Memory, root: bv64, level: Levels, t: bv64, i: bv64, f: bv64, u: bv64, j: bv64, g: bv64)
    requires Linkable(mem, root, level, t, i, f)
    ensures ParentSlot(Link(mem, t, i, f), root, SetLevel(level, f, level(t) - 1), u, j, g)
       <==> ParentSlot(mem, root, level, u, j, g) || (u == t && j == i && g == f)
  {
    if u == f {
      NewTableParents(mem, root, level, t, i, f, j, g);
    } else {
      OldTableParents(mem, root, level, t, i, f, u, j, g);
    }
  }

  lemma NewTableParents(mem: Memory, root: bv64, level: Levels, t: bv64, i: bv64, f: bv64, j: bv64, g: bv64)
    requires Linkable(mem, root, level, t, i, f)
    ensures !ParentSlot(Link(mem, t, i, f), root, SetLevel(level, f, level(t) - 1), f, j, g)
    ensures !ParentSlot(mem, root, level, f, j, g) && f != t
  {
    hide Slot, TableEntry, Large, Frame, IsIndex, IsFrame, Link, SetLevel;
    LinkReads(mem, root, level, t, i, f);
    assert IsIndex(j) ==> Link(mem, t, i, f)(Slot(f, j)) == 0;
  }

  lemma OldTableParents(mem: Memory, root: bv64, level: Levels, t: bv64, i: bv64, f: bv64, u: bv64, j: bv64, g: bv64)
    requires Linkable(mem, root, level, t, i, f) && u != f
    ensures ParentSlot(Link(mem, t, i, f), root, SetLevel(level, f, level(t) - 1), u, j, g)
       <==> ParentSlot(mem, root, level, u, j, g) || (u == t && j == i && g == f)
  {
    hide *;
    if u == t && j == i {
      LinkedSlot(mem, root, level, t, i, f, g);
    } else {
      UnlinkedSlot(mem, root, level, t, i, f, u, j, g);
    }
  }

  lemma LinkedSlot(mem: Memory, root: bv64, level: Levels, t: bv64, i: bv64, f: bv64, g: bv64)
    requires Linkable(mem, root, level, t, i, f) && t != f
    ensures ParentSlot(Link(mem, t, i, f), root, SetLevel(level, f, level(t) - 1), t, i, g) <==> g == f
    ensures !ParentSlot(mem, root, level, t, i, g)
  {
    hide Slot, TableEntry, Present, Large, Frame, IsIndex, IsFrame, Link, Leveled;
    LinkReads(mem, root, level, t, i, f);
    TableEntryBits(f);
  }

  lemma UnlinkedSlot(mem: Memory, root: bv64, level: Levels, t: bv64, i: bv64, f: bv64, u: bv64, j: bv64, g: bv64)
    requires Linkable(mem, root, level, t, i, f) && u != f && !(u == t && j == i)
    ensures ParentSlot(Link(mem, t, i, f), root, SetLevel(level, f, level(t) - 1), u, j, g)
       <==> ParentSlot(mem, root, level, u, j, g)
  {
    assert level(u) > 0 ==> IsFrame(u);
    hide Slot, TableEntry, Present, Large, Frame, IsIndex, IsFrame, Link, Leveled;
    LinkReads(mem, root, level, t, i, f);
  }

  /** Nothing names a frame that is no table. */
  lemma NoParent(mem: Memory, root: bv64, level: Levels, u: bv64, j: bv64, g: bv64)
    requires Leveled(mem, root, level) && level(g) == 0
    ensures !ParentSlot(mem, root, level, u, j, g)
  {
    hide Slot, Present, Large, Frame, IsIndex, IsFrame;
  }

  lemma LeafParents(mem: Memory, root: bv64, level: Levels, t: bv64, i: bv64, e: bv64, u: bv64, j: bv64, g: bv64)
    requires Leveled(mem, root, level) && level(t) == 1 && IsIndex(i)
    ensures ParentSlot(Store(mem, Slot(t, i), e), root, level, u, j, g) <==> ParentSlot(mem, root, level, u, j, g)
  {
    hide Slot, Present, Large, Frame, IsIndex, IsFrame, Store;
    LeafReads(mem, root, level, t, i, e);
    assert level(u) > 0 ==> IsFrame(u);
  }
}
