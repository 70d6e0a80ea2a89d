/** Memory in which `mmu_req_page` reports that it has mapped page 0 and has not. */
module PageZero {
  import opened Words
  import opened Paging
  import opened Tables
  import opened Mapping
  import opened MapRuns
  import opened Bootstrap

  const PML4: bv64 := 0x1000
  const PDPT: bv64 := 0x2000
  const PD: bv64 := 0x3000
  const SPARE: bv64 := 0x4000

  /** Three tables that map the first 2 MB by a large page; the self slot is in place. */
  ghost function Low(): Memory {
    var m1 := Store(_ => 0, Slot(PML4, 0), TableEntry(PDPT));
    var m2 := Store(m1, Slot(PML4, MMU_RE), TableEntry(PML4));
    Store(Store(m2, Slot(PDPT, 0), TableEntry(PD)), Slot(PD, 0), LargeEntry(0))
  }

  ghost function LowLevels(): Levels {
    t => if t == PML4 then 4 else if t == PDPT then 3 else if t == PD then 2 else 0
  }

  lemma LowFrames()
    ensures IsFrame(PML4) && IsFrame(PDPT) && IsFrame(PD) && IsFrame(SPARE) && IsIndex(0) && IsIndex(MMU_RE)
  {
  }

  lemma LowAt(t: bv64, i: bv64)
    requires IsFrame(t) && IsIndex(i)
    ensures Low()(Slot(t, i)) ==
            if t == PD && i == 0 then LargeEntry(0)
            else if t == PDPT && i == 0 then TableEntry(PD)
            else if t == PML4 && i == MMU_RE then TableEntry(PML4)
            else if t == PML4 && i == 0 then TableEntry(PDPT) else 0
  {
    hide Slot, IsFrame, IsIndex, TableEntry, LargeEntry, Store;
    LowFrames();
    var m1 := Store(_ => 0, Slot(PML4, 0), TableEntry(PDPT));
    var m2 := Store(m1, Slot(PML4, MMU_RE), TableEntry(PML4));
    var m3 := Store(m2, Slot(PDPT, 0), TableEntry(PD));
    StoreAt(_ => 0, PML4, 0, TableEntry(PDPT), t, i);
    StoreAt(m1, PML4, MMU_RE, TableEntry(PML4), t, i);
    StoreAt(m2, PDPT, 0, TableEntry(PD), t, i);
    StoreAt(m3, PD, 0, LargeEntry(0), t, i);
  }

  lemma LowFits(t: bv64, i: bv64)
    requires IsFrame(t) && IsIndex(i) && LowLevels()(t) >= 2 && !(t == PML4 && i == MMU_RE)
    ensures EntryFits(Low()(Slot(t, i)), LowLevels(), LowLevels()(t))
  {
    hide Slot, Present, Large, Frame, IsFrame, IsIndex, TableEntry, LargeEntry, Low;
    LowFrames();
    LowAt(t, i);
    TableEntryBits(PDPT);
    TableEntryBits(PD);
    LargeEntryBits(0);
  }

  lemma LowSound()
    ensures Sound(Low(), PML4, LowLevels(), [SPARE])
  {
    assert Frame(PML4) == PML4;
    hide Slot, Present, Large, Frame, IsFrame, IsIndex, TableEntry, LargeEntry, Low, Leveled, ZeroFrame;
    LowFrames();
    LowLeveled();
    LowAt(PML4, MMU_RE);
    TableEntryBits(PML4);
    SpareIsZero();
  }

  lemma SpareIsZero()
    ensures ZeroFrame(Low(), SPARE)
  {
    hide Slot, IsFrame, IsIndex, TableEntry, LargeEntry, Low;
    LowFrames();
    forall i {:trigger Slot(SPARE, i)} | IsIndex(i) ensures Low()(Slot(SPARE, i)) == 0 {
      LowAt(SPARE, i);
    }
  }

  lemma LowLeveled()
    ensures Leveled(Low(), PML4, LowLevels())
  {
    hide Slot, IsFrame, IsIndex, Low, EntryFits;
    LowFrames();
    forall t, i {:trigger Slot(t, i)} | LowLevels()(t) >= 2 && IsIndex(i) && !(t == PML4 && i == MMU_RE)
      ensures EntryFits(Low()(Slot(t, i)), LowLevels(), LowLevels()(t))
    {
      LowFits(t, i);
    }
  }

  lemma LowWalk()
    ensures Walk(Low(), PML4, 0) == Leaf(2, Slot(PD, 0), LargeEntry(0))
    ensures Pml4e(0) != MMU_RE && PageBase(0) == 0
  {
    assert Frame(PML4) == PML4 && Pml4e(0) == 0 && Pdpte(0) == 0 && Pde(0) == 0;
    hide Slot, Present, Large, Frame, IsFrame, IsIndex, TableEntry, LargeEntry, Low, Pml4e, Pdpte, Pde, Pte;
    LowFrames();
    LowAt(PML4, 0);
    LowAt(PDPT, 0);
    LowAt(PD, 0);
    TableEntryBits(PDPT);
    TableEntryBits(PD);
    LargeEntryBits(0);
  }

  /** The call returns the spare frame as a page at address 0, and no table entry has changed. */
  lemma PageZeroNotMapped(flags: bv64)
    ensures Sound(Low(), PML4, LowLevels(), [SPARE])
    ensures var r := ReqPage(Low(), PML4, [SPARE], 0, flags);
            r.Some? && r.value.page == Some(SPARE) && r.value.mem == Low()
  {
    LowSound();
    LowWalk();
    hide Sound, Walk, Low, Slot, LargeEntry, Pml4e, PageBase, LeafEntry, MapPage, VirtToPhys;
    LowMaps(flags);
    ReqPageMaps(Low(), PML4, LowLevels(), [SPARE], 0, flags);
  }

  lemma LowMaps(flags: bv64)
    requires Sound(Low(), PML4, LowLevels(), [SPARE]) && Pml4e(0) != MMU_RE && PageBase(0) == 0
    requires Walk(Low(), PML4, 0) == Leaf(2, Slot(PD, 0), LargeEntry(0))
    ensures ReqPage(Low(), PML4, [SPARE], 0, flags).Some?
  {
    assert [SPARE][1..] == [];
    hide Sound, Walk, Low, Slot, LargeEntry, Pml4e, PageBase, LeafEntry, MapPage, Frame;
    SpareTail(Low(), PML4, LowLevels(), [SPARE]);
    MapPageNeeds(Low(), PML4, LowLevels(), [], 0, LeafEntry(SPARE, flags));
  }
}
