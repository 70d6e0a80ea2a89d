/** Which physical bytes `mmu_bootstrap` puts at their place in the kernel's window, and
    whether the page array is among them. */
module BootWindow {
  import Sizes
  import opened Words
  import opened Paging
  import opened Tables
  import opened PageAddress
  import opened Bootstrap
  import Layout

  lemma {:induction false} HighWindowMaps(before: Memory, mem: Memory, physical: nat, pml4: bv64, pdpt: bv64,
                                          pd: bv64, k: nat, off: bv64)
    requires ThreeFrames(pml4, pdpt, pd) && physical <= MEMORY_LIMIT && Cleared(before, pml4, pdpt, pd)
    requires Built(before, mem, physical, pml4, pdpt, pd) && 512 <= k < 1024 && LargeOffset(off)
    ensures Translate(mem, pml4, P2V(LargeByte(k, off))) ==
            if Pdpte(ToWord(physical)) == LAST then MappedByte(physical, k - 512, off) else None
  {
    hide Slot, IsFrame, IsIndex, TableEntry, LargeByte, ToWord, P2V, Pml4e, Pdpte, Pde, Canonical, Page2M, LargeOffset,
      Translate, Present, Large, MappedByte, LargeEntry, LargeAddress, Directory, OnlyTables, Upper, ZeroFrame;
    var va := P2V(LargeByte(k, off));
    WindowIndices(k, off);
    WindowEntry(before, mem, physical, pd, k - 512, k, off);
    LastEntry(before, mem, pml4, pdpt, pd, Pdpte(ToWord(physical)));
    if Pdpte(ToWord(physical)) == LAST {
      WalkDirectory(mem, pml4, pdpt, pd, va, LAST, ToWord(k - 512), mem(Slot(pd, ToWord(k - 512))));
    } else {
      WalkStops(mem, pml4, pdpt, va, LAST);
    }
  }

  lemma LastEntry(before: Memory, mem: Memory, pml4: bv64, pdpt: bv64, pd: bv64, low: bv64)
    requires Upper(before, mem, pml4, pdpt, pd, low) && ZeroFrame(before, pdpt)
    ensures mem(Slot(pml4, LAST)) == TableEntry(pdpt)
    ensures if low == LAST then mem(Slot(pdpt, LAST)) == TableEntry(pd) else !Present(mem(Slot(pdpt, LAST)))
  {
    hide Slot, TableEntry;
    KernelIndices();
    TableEntryBits(0);
    assert low != LAST ==> mem(Slot(pdpt, LAST)) == before(Slot(pdpt, LAST)) == 0;
  }

  // ----- every address -----

  lemma BitsDirectory(x: bv64, va: bv64)
    requires x & 0xFFFF_FFFF_8000_0000 == 0
    ensures (((x << 21) | (0x1 | 0x2 | 0x80)) & 0x000F_FFFF_FFE0_0000) | (va & 0x1F_FFFF) ==
            (x << 21) | (va & 0x1F_FFFF)
  {
  }

  lemma DirectoryPage(k: nat, va: bv64)
    requires k < 0x8000_0000
    ensures Page2M(LargeEntry(LargeAddress(k)), va) == LargeByte(k, va & 0x1F_FFFF)
  {
    hide ToWord;
    Word31(k);
    BitsDirectory(ToWord(k), va);
  }

  /** What the directory makes of an address with index `j`. */
  lemma {:induction false} AnyEntry(before: Memory, mem: Memory, physical: nat, pd: bv64, j: nat, va: bv64)
    requires Directory(before, mem, pd, Rounds(physical)) && ZeroFrame(before, pd) && physical <= MEMORY_LIMIT
    requires j < 512
    ensures var e := mem(Slot(pd, ToWord(j)));
            && (Present(e) ==> Large(e))
            && (if Present(e) then Some(Page2M(e, va)) else None) == MappedByte(physical, j, va & 0x1F_FFFF)
  {
    hide Slot, IsIndex, LargeByte, ToWord, Page2M, Present, Large, LargeEntry, LargeAddress;
    SmallIndex(j);
    var n := Rounds(physical);
    if j < n {
      LargeEntryBits(LargeAddress(Latest(j, n)));
      DirectoryPage(Latest(j, n), va);
    } else {
      TableEntryBits(0);
    }
  }

  lemma OtherPml4(before: Memory, mem: Memory, pml4: bv64, pdpt: bv64, pd: bv64, low: bv64, va: bv64)
    requires IsFrame(pml4) && Upper(before, mem, pml4, pdpt, pd, low) && ZeroFrame(before, pml4)
    requires Pml4e(va) != LAST && Pml4e(va) != MMU_RE
    ensures Translate(mem, pml4, va) == None
  {
    assert Frame(pml4) == pml4;
    IndexBounds(va);
    TableEntryBits(0);
    hide Slot, Frame, IsFrame, IsIndex, Pml4e, TableEntry;
    assert mem(Slot(pml4, Pml4e(va))) == before(Slot(pml4, Pml4e(va))) == 0;
  }

  lemma PdptIs(before: Memory, mem: Memory, pml4: bv64, pdpt: bv64, pd: bv64, low: bv64, i: bv64)
    requires Upper(before, mem, pml4, pdpt, pd, low) && ZeroFrame(before, pdpt) && IsIndex(i)
    ensures mem(Slot(pml4, LAST)) == TableEntry(pdpt)
    ensures if i == KERNEL || i == low then mem(Slot(pdpt, i)) == TableEntry(pd) else !Present(mem(Slot(pdpt, i)))
  {
    TableEntryBits(0);
    hide Slot, IsIndex, TableEntry;
    assert i == KERNEL || i == low || mem(Slot(pdpt, i)) == before(Slot(pdpt, i)) == 0;
  }

  /** The new tables translate exactly two gigabytes of the last slot of the PML4, that of the
      kernel and that of `physical`, both through the one directory, and nothing else outside
      slot 0x180. */
  lemma {:induction false} BootstrapTranslates(before: Memory, mem: Memory, physical: nat, pml4: bv64, pdpt: bv64,
                                               pd: bv64, va: bv64, j: nat)
    requires ThreeFrames(pml4, pdpt, pd) && physical <= MEMORY_LIMIT && Cleared(before, pml4, pdpt, pd)
    requires Built(before, mem, physical, pml4, pdpt, pd)
    requires Canonical(va) && Pml4e(va) != MMU_RE && j < 512 && Pde(va) == ToWord(j)
    ensures Translate(mem, pml4, va) ==
            if Pml4e(va) == LAST && (Pdpte(va) == KERNEL || Pdpte(va) == Pdpte(ToWord(physical)))
            then MappedByte(physical, j, va & 0x1F_FFFF) else None
  {
    hide Slot, IsFrame, IsIndex, TableEntry, LargeByte, ToWord, Pml4e, Pdpte, Pde, Canonical, Page2M, Translate,
      Present, Large, MappedByte, LargeEntry, LargeAddress, Directory, OnlyTables, Upper, ZeroFrame, LAST, KERNEL;
    var low := Pdpte(ToWord(physical));
    if Pml4e(va) != LAST {
      OtherPml4(before, mem, pml4, pdpt, pd, low, va);
    } else {
      IndexBounds(va);
      PdptIs(before, mem, pml4, pdpt, pd, low, Pdpte(va));
      if Pdpte(va) == KERNEL || Pdpte(va) == low {
        AnyEntry(before, mem, physical, pd, j, va);
        WalkDirectory(mem, pml4, pdpt, pd, va, Pdpte(va), ToWord(j), mem(Slot(pd, ToWord(j))));
      } else {
        WalkStops(mem, pml4, pdpt, va, Pdpte(va));
      }
    }
  }

  // ----- bytes -----

  lemma BitsLargeOffset(x: bv64)
    requires x & 0xFFFF_FFFF_FFE0_0000 == 0
    ensures x & 0x1F_FFFF == x
  {
  }

  /** A byte address is an offset in a large page. */
  lemma {:induction false} ByteSplit(b: nat)
    ensures var off := ToWord(b % Layout.LARGE_PAGE);
            LargeOffset(off) && ToWord(b) == LargeByte(b / Layout.LARGE_PAGE, off)
  {
    var q, c := b / Layout.LARGE_PAGE, b % Layout.LARGE_PAGE;
    assert b == q * 0x20_0000 + c;
    hide ToWord, LargeByte, LargeOffset;
    OffsetOf(c);
    JoinWords(q, c);
  }

  lemma {:induction false} OffsetOf(c: nat)
    requires c < 0x20_0000
    ensures LargeOffset(ToWord(c))
  {
    hide ToWord;
    SplitAt21(0, c);
    BitsLargeOffset(ToWord(c));
  }

  lemma {:induction false} JoinWords(q: nat, c: nat)
    requires c < 0x20_0000
    ensures ToWord(q * 0x20_0000 + c) == LargeByte(q, ToWord(c))
  {
    hide ToWord;
    SplitJoin(q, c);
  }

  lemma SplitJoin(q: nat, c: nat)
    requires c < 0x20_0000
    ensures ToWord(q * 0x20_0000 + c) == (ToWord(q) << 21) | ToWord(c)
  {
    hide *;
    SplitAt21(q, c);
  }

  lemma BitsLargeNumber(x: bv64, off: bv64)
    requires x & 0xFFFF_FFFF_8000_0000 == 0 && off & 0x1F_FFFF == off
    ensures ((x << 21) | off) >> 21 == x
  {
  }

  lemma LargeInjective(j: nat, k: nat, off: bv64)
    requires j < 0x8000_0000 && k < 0x8000_0000 && LargeOffset(off) && LargeByte(j, off) == LargeByte(k, off)
    ensures j == k
  {
    hide ToWord;
    Word31(j);
    Word31(k);
    BitsLargeNumber(ToWord(j), off);
    BitsLargeNumber(ToWord(k), off);
    ToWordInjective(j, k);
  }

  lemma BitsPdpteOf(a: bv64, j: bv64, c: bv64)
    requires j & 0xFFFF_FFFF_FFFF_FE00 == 0 && c & 0xFFFF_FFFF_FFE0_0000 == 0
    ensures ((((((a << 9) | j) << 21) | c) >> 30) & 0x1FF) == a & 0x1FF
  {
  }

  lemma BitsIndexMask(x: bv64)
    requires x < 512
    ensures x & 0x1FF == x
  {
  }

  lemma LastWord()
    ensures ToWord(511) == 0x1FF
  {
    ToWordDigits(511);
    ToWordDigits(255);
    ToWordDigits(127);
    ToWordDigits(63);
    ToWordDigits(31);
    ToWordDigits(15);
    ToWordDigits(7);
    ToWordDigits(3);
    OneWord();
  }

  /** The entry at `PDPTE(physical)` is in the window only from 511 GB on. */
  lemma {:induction false} LowIsLast(physical: nat)
    requires Pdpte(ToWord(physical)) == LAST
    ensures physical >= 511 * GIGABYTE
  {
    hide ToWord;
    var q, c := physical / Layout.LARGE_PAGE, physical % Layout.LARGE_PAGE;
    var a, j := q / 512, q % 512;
    SplitAt21(q, c);
    SplitAt9(a, j);
    BitsPdpteOf(ToWord(a), ToWord(j), ToWord(c));
    if a < 511 {
      SmallIndex(a);
      BitsIndexMask(ToWord(a));
      LastWord();
      DifferentWords(a, 511);
    }
  }

  // ----- which bytes are at their place -----

  /** The byte at physical address `b` is found at `P2V(b)`. */
  ghost predicate AtPlace(mem: Memory, cr3: bv64, b: nat) {
    Translate(mem, cr3, P2V(ToWord(b))) == Some(ToWord(b))
  }

  /** A directory entry maps large page `k` onto itself if no later page has taken it. */
  lemma MapsItself(physical: nat, j: nat, k: nat, off: bv64)
    requires physical <= MEMORY_LIMIT && LargeOffset(off) && j < 512 && k % 512 == j && k < 1024
    ensures MappedByte(physical, j, off) == Some(LargeByte(k, off)) <==> k < Rounds(physical) <= k + 512
  {
    hide LargeByte, LargeOffset;
    var n := Rounds(physical);
    if j < n {
      if LargeByte(Latest(j, n), off) == LargeByte(k, off) {
        LargeInjective(Latest(j, n), k, off);
      }
      if k < n <= k + 512 {
        LatestUnique(j, n, k);
      }
    }
  }

  /** Below 2 GB, the bytes at their place are exactly those of the first gigabyte whose
      large page was mapped and not overwritten by a later one. */
  lemma AtPlaceIff(before: Memory, mem: Memory, physical: nat, pml4: bv64, pdpt: bv64, pd: bv64, b: nat)
    requires ThreeFrames(pml4, pdpt, pd) && physical <= MEMORY_LIMIT && Cleared(before, pml4, pdpt, pd)
    requires Built(before, mem, physical, pml4, pdpt, pd) && b < 2 * GIGABYTE
    ensures AtPlace(mem, pml4, b) <==>
            b < GIGABYTE && b / Layout.LARGE_PAGE < Rounds(physical) <= b / Layout.LARGE_PAGE + 512
  {
    hide ThreeFrames, Cleared, Built, Translate, LargeByte, LargeOffset, ToWord, P2V, Pdpte, MappedByte;
    var k, off := b / Layout.LARGE_PAGE, ToWord(b % Layout.LARGE_PAGE);
    ByteSplit(b);
    MapsItself(physical, k % 512, k, off);
    if k < 512 {
      WindowMaps(before, mem, physical, pml4, pdpt, pd, k, off);
    } else {
      HighWindowMaps(before, mem, physical, pml4, pdpt, pd, k, off);
      if Pdpte(ToWord(physical)) == LAST {
        LowIsLast(physical);
      }
    }
  }

  lemma BitsFold(a: bv64, j: bv64, off: bv64)
    ensures ((((a << 10) | j) << 21) | off) | 0xFFFF_FFFF_8000_0000 == ((j << 21) | off) | 0xFFFF_FFFF_8000_0000
  {
  }

  /** The window has 2 GB: addresses further up fold onto it. */
  lemma WindowFolds(k: nat, off: bv64)
    ensures P2V(LargeByte(k, off)) == P2V(LargeByte(k % 1024, off))
  {
    assert k == k / 1024 * 0x400 + k % 1024;
    hide ToWord;
    FoldWord(k, off, ToWord(k / 1024), ToWord(k % 1024));
  }

  lemma {:induction false} FoldWord(k: nat, off: bv64, a: bv64, j: bv64)
    requires a == ToWord(k / 1024) && j == ToWord(k % 1024)
    ensures ((ToWord(k) << 21) | off) | 0xFFFF_FFFF_8000_0000 == ((j << 21) | off) | 0xFFFF_FFFF_8000_0000
  {
    assert k == k / 1024 * 0x400 + k % 1024;
    hide ToWord;
    SplitAt10(k / 1024, k % 1024);
    BitsFold(a, j, off);
  }

  /** A byte from 2 GB on is never at its place while at most 1 GB is mapped. */
  lemma FarNotAtPlace(before: Memory, mem: Memory, physical: nat, pml4: bv64, pdpt: bv64, pd: bv64, b: nat)
    requires ThreeFrames(pml4, pdpt, pd) && physical <= GIGABYTE && Cleared(before, pml4, pdpt, pd)
    requires Built(before, mem, physical, pml4, pdpt, pd) && 2 * GIGABYTE <= b < MEMORY_LIMIT
    ensures !AtPlace(mem, pml4, b)
  {
    hide ThreeFrames, Cleared, Built, Translate, LargeByte, LargeOffset, ToWord, P2V, Pdpte;
    var k, off := b / Layout.LARGE_PAGE, ToWord(b % Layout.LARGE_PAGE);
    ByteSplit(b);
    WindowFolds(k, off);
    var j, n := k % 1024, Rounds(physical);
    if j < 512 {
      WindowMaps(before, mem, physical, pml4, pdpt, pd, j, off);
      if j < n && LargeByte(Latest(j, n), off) == LargeByte(k, off) {
        LargeInjective(Latest(j, n), k, off);
      }
    } else {
      HighWindowMaps(before, mem, physical, pml4, pdpt, pd, j, off);
      if Pdpte(ToWord(physical)) == LAST {
        LowIsLast(physical);
      }
    }
  }

  /** The loop runs for the large pages that start below `physical`. */
  lemma RoundsCover(physical: nat, k: nat)
    ensures k < Rounds(physical) <==> k * 0x20_0000 < physical
  {
  }

  /** While at most 1 GB is mapped, exactly the bytes of the large pages that start below
      `physical` are at their place. */
  lemma AtPlaceBelow(before: Memory, mem: Memory, physical: nat, pml4: bv64, pdpt: bv64, pd: bv64, b: nat)
    requires ThreeFrames(pml4, pdpt, pd) && physical <= GIGABYTE && Cleared(before, pml4, pdpt, pd)
    requires Built(before, mem, physical, pml4, pdpt, pd) && b < MEMORY_LIMIT
    ensures AtPlace(mem, pml4, b) <==> b / Layout.LARGE_PAGE < Rounds(physical)
    ensures AtPlace(mem, pml4, b) <==> b / 0x20_0000 * 0x20_0000 < physical
  {
    RoundsCover(physical, b / 0x20_0000);
    hide ThreeFrames, Cleared, Built, AtPlace;
    if b < 2 * GIGABYTE {
      AtPlaceIff(before, mem, physical, pml4, pdpt, pd, b);
    } else {
      FarNotAtPlace(before, mem, physical, pml4, pdpt, pd, b);
    }
  }

  // ----- the page array -----

  ghost predicate ArrayAtPlace(mem: Memory, cr3: bv64, plan: Layout.Plan) {
    forall b: nat :: plan.structs <= b < plan.structs + plan.numpages * Layout.STRUCT_SIZE ==> AtPlace(mem, cr3, b)
  }

  /** After `mmu_bootstrap` as `page_init` calls it, the whole page array can be used if and
      only if the mapping fits in one directory and the three frames that the tables take
      away do not push the array's end over the next large-page boundary.  The kernel's own
      end is in the 4 MB that are mapped before. */
  lemma ArrayAtPlaceIff(memory: nat, table: nat, before: Memory, mem: Memory, pml4: bv64, pdpt: bv64, pd: bv64)
    requires memory <= MEMORY_LIMIT && table <= MEMORY_LIMIT && Layout.PlanFor(memory, table).bootstrap
    requires Layout.PlanFor(memory, table).tables + 3 * Sizes.PAGE_SIZE <= Layout.INITIAL_TOP
    requires ThreeFrames(pml4, pdpt, pd) && Cleared(before, pml4, pdpt, pd)
    requires Built(before, mem, Layout.PlanFor(memory, table).mapped, pml4, pdpt, pd)
    ensures ArrayAtPlace(mem, pml4, Layout.PlanFor(memory, table)) <==>
            Layout.PlanFor(memory, table).mapped <= GIGABYTE && Layout.RoomForTables(Layout.PlanFor(memory, table))
  {
    hide ThreeFrames, Cleared, Built, AtPlace;
    var plan := Layout.PlanFor(memory, table);
    PlanBounds(memory, table);
    var end := plan.structs + plan.numpages * Layout.STRUCT_SIZE;
    hide Layout.PlanFor, Layout.RoomForTables;
    if plan.mapped > GIGABYTE {
      AtPlaceIff(before, mem, plan.mapped, pml4, pdpt, pd, GIGABYTE);
    } else if end > plan.mapped {
      AtPlaceIff(before, mem, plan.mapped, pml4, pdpt, pd, end - 1);
    } else {
      forall b: nat | plan.structs <= b < end ensures AtPlace(mem, pml4, b) {
        AtPlaceIff(before, mem, plan.mapped, pml4, pdpt, pd, b);
      }
    }
  }

  /** Where the array lies with respect to what is mapped. */
  lemma PlanBounds(memory: nat, table: nat)
    requires memory <= MEMORY_LIMIT && table <= MEMORY_LIMIT && Layout.PlanFor(memory, table).bootstrap
    requires Layout.PlanFor(memory, table).tables + 3 * Sizes.PAGE_SIZE <= Layout.INITIAL_TOP
    ensures var plan := Layout.PlanFor(memory, table);
            var end := plan.structs + plan.numpages * Layout.STRUCT_SIZE;
            && plan.mapped <= MEMORY_LIMIT && plan.mapped % Layout.LARGE_PAGE == 0
            && plan.structs < GIGABYTE && plan.numpages > 0 && plan.structs < end
            && (plan.mapped > GIGABYTE ==> end > GIGABYTE)
            && end <= plan.mapped + 3 * Sizes.PAGE_SIZE
            && (end <= plan.mapped <==> Layout.RoomForTables(plan))
  {
    hide Layout.PlanFor;
    Layout.PlanIs(memory, table);
  }

  /** The byte is part of the page array, and the kernel cannot reach it. */
  ghost predicate Missed(mem: Memory, cr3: bv64, plan: Layout.Plan, b: nat) {
    && plan.structs <= b < plan.structs + plan.numpages * Layout.STRUCT_SIZE
    && Translate(mem, cr3, P2V(ToWord(b))) == None
  }

  /** With about 319 MB of memory and a kernel that ends at 0x101FFF, the last structs lie
      from 6 MB on, where the mapping ends. */
  lemma BootstrapCanMissArrayEnd(before: Memory, mem: Memory, pml4: bv64, pdpt: bv64, pd: bv64)
    requires ThreeFrames(pml4, pdpt, pd) && Cleared(before, pml4, pdpt, pd)
    requires Built(before, mem, Layout.PlanFor(0x13F2_3000, 0x10_1FFF).mapped, pml4, pdpt, pd)
    ensures Layout.PlanFor(0x13F2_3000, 0x10_1FFF).bootstrap
    ensures Missed(mem, pml4, Layout.PlanFor(0x13F2_3000, 0x10_1FFF), 0x60_0000)
  {
    MissingMachine();
    hide ThreeFrames, Cleared, Built, Translate, LargeByte, LargeOffset, ToWord, P2V, Layout.PlanFor;
    ByteSplit(0x60_0000);
    WindowMaps(before, mem, 0x60_0000, pml4, pdpt, pd, 3, ToWord(0));
  }

  lemma MissingMachine()
    ensures var plan := Layout.PlanFor(0x13F2_3000, 0x10_1FFF);
            && plan.bootstrap && plan.mapped == 0x60_0000
            && plan.structs <= 0x60_0000 < plan.structs + plan.numpages * Layout.STRUCT_SIZE
  {
    hide Layout.PlanFor;
    Layout.PlanIs(0x13F2_3000, 0x10_1FFF);
  }

  /** With 128 GB the array goes past the one gigabyte that the directory can map. */
  lemma BootstrapCanWrap(before: Memory, mem: Memory, pml4: bv64, pdpt: bv64, pd: bv64)
    requires ThreeFrames(pml4, pdpt, pd) && Cleared(before, pml4, pdpt, pd)
    requires Built(before, mem, Layout.PlanFor(0x20_0000_0000, 0x11_0000).mapped, pml4, pdpt, pd)
    ensures Layout.PlanFor(0x20_0000_0000, 0x11_0000).bootstrap
    ensures Missed(mem, pml4, Layout.PlanFor(0x20_0000_0000, 0x11_0000), GIGABYTE)
  {
    WrappingMachine();
    var physical := Layout.PlanFor(0x20_0000_0000, 0x11_0000).mapped;
    hide ThreeFrames, Cleared, Built, Translate, LargeByte, LargeOffset, ToWord, P2V, Pdpte, Layout.PlanFor;
    ByteSplit(GIGABYTE);
    HighWindowMaps(before, mem, physical, pml4, pdpt, pd, 512, ToWord(0));
    if Pdpte(ToWord(physical)) == LAST {
      LowIsLast(physical);
    }
  }

  lemma WrappingMachine()
    ensures var plan := Layout.PlanFor(0x20_0000_0000, 0x11_0000);
            && plan.bootstrap && GIGABYTE < plan.mapped < 511 * GIGABYTE
            && plan.structs <= GIGABYTE < plan.structs + plan.numpages * Layout.STRUCT_SIZE
  {
    hide Layout.PlanFor;
    Layout.PlanIs(0x20_0000_0000, 0x11_0000);
  }
}
