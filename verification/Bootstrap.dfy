/** `mmu_bootstrap`: the tables that map the page array before there is an allocator, and
    exactly which addresses of the kernel's window they map. */
module Bootstrap {
  import opened Words
  import opened Paging
  import opened Tables
  import opened PageAddress
  import Layout

  const GIGABYTE: nat := 0x4000_0000
  const MEMORY_LIMIT: nat := 0x10_0000_0000_0000  // physical addresses have 52 bits

  /** The address of large page `k`. */
  function LargeAddress(k: nat): bv64 {
    ToWord(k) << 21
  }

  /** The directory entry for the large page at `i`. */
  function LargeEntry(i: bv64): bv64 {
    i | (PRESENT | RW | PS)
  }

  /** Byte `off` of large page `k`. */
  function LargeByte(k: nat, off: bv64): bv64 {
    LargeAddress(k) | off
  }

  predicate LargeOffset(off: bv64) {
    off & 0x1F_FFFF == off
  }

  // ----- words -----

  lemma BitsSmall(x: bv64)
    requires x & 0xFFFF_FFFF_FFFF_FE00 == 0
    ensures x < 512
  {
  }

  lemma {:induction false} SmallIndex(k: nat)
    requires k < 512
    ensures IsIndex(ToWord(k))
  {
    hide ToWord;
    SplitAt9(0, k);
    BitsSmall(ToWord(k));
  }

  lemma {:induction false} DifferentWords(j: nat, k: nat)
    requires j < 512 && k < 512 && j != k
    ensures ToWord(j) != ToWord(k)
  {
    hide ToWord;
    if ToWord(j) == ToWord(k) {
      ToWordInjective(j, k);
    }
  }

  lemma BitsIndexOf(a: bv64, j: bv64)
    requires j & 0xFFFF_FFFF_FFFF_FE00 == 0
    ensures ((((a << 9) | j) << 21) >> 21) & 0x1FF == j
  {
  }

  /** The directory index of large page `k` is `k` modulo 512. */
  lemma {:induction false} PdeOfLarge(k: nat)
    ensures Pde(LargeAddress(k)) == ToWord(k % 512)
  {
    hide ToWord;
    SplitAt9(k / 512, k % 512);
    BitsIndexOf(ToWord(k / 512), ToWord(k % 512));
  }

  lemma {:induction false} Word31(k: nat)
    requires k < 0x8000_0000
    ensures ToWord(k) & 0xFFFF_FFFF_8000_0000 == 0
  {
    hide ToWord, High, Pow2;
    HighTable();
    HighStep(21);
    HighStep(25);
    HighTwo(29);
    ToWordFits(k, 31);
  }

  lemma BitsLargePresent(i: bv64)
    ensures (i | (0x1 | 0x2 | 0x80)) & 0x1 != 0
  {
  }

  lemma BitsLargeLarge(i: bv64)
    ensures (i | (0x1 | 0x2 | 0x80)) & 0x80 != 0
  {
  }

  lemma BitsLargeEntry(x: bv64)
    ensures ((x << 21) | (0x1 | 0x2 | 0x80)) & 0x1F_FFFF == 0x83
    ensures ((x << 21) | (0x1 | 0x2 | 0x80)) & !0x1F_FFFF == x << 21
  {
  }

  /** Besides the address it holds the bits PRESENT, RW and PS and no others. */
  lemma LargeEntryFlags(k: nat)
    ensures LargeEntry(LargeAddress(k)) & 0x1F_FFFF == 0x83
    ensures LargeEntry(LargeAddress(k)) & !0x1F_FFFF == LargeAddress(k)
  {
    hide ToWord;
    BitsLargeEntry(ToWord(k));
  }

  lemma LargeEntryBits(i: bv64)
    ensures Present(LargeEntry(i)) && Large(LargeEntry(i))
  {
    BitsLargePresent(i);
    BitsLargeLarge(i);
  }

  lemma BitsLargePage(x: bv64, y: bv64, off: bv64)
    requires x & 0xFFFF_FFFF_8000_0000 == 0 && off & 0x1F_FFFF == off
    ensures (((x << 21) | (0x1 | 0x2 | 0x80)) & 0x000F_FFFF_FFE0_0000)
          | ((((y << 21) | off) | 0xFFFF_FFFF_8000_0000) & 0x1F_FFFF) == (x << 21) | off
  {
  }

  /** What the directory entry of large page `k` makes of an address with that offset. */
  lemma WindowPage(k: nat, j: nat, off: bv64)
    requires k < 0x8000_0000 && LargeOffset(off)
    ensures Page2M(LargeEntry(LargeAddress(k)), P2V(LargeByte(j, off))) == LargeByte(k, off)
  {
    hide *;
    Word31(k);
    PageOfLarge(k, j, off);
  }

  lemma {:induction false} PageOfLarge(k: nat, j: nat, off: bv64)
    requires ToWord(k) & 0xFFFF_FFFF_8000_0000 == 0 && LargeOffset(off)
    ensures Page2M(LargeEntry(LargeAddress(k)), P2V(LargeByte(j, off))) == LargeByte(k, off)
  {
    hide ToWord;
    BitsLargePage(ToWord(k), ToWord(j), off);
  }

  lemma BitsLargePml4e(x: bv64, off: bv64)
    ensures ((((x << 21) | off) | 0xFFFF_FFFF_8000_0000) >> 39) & 0x1FF == 0x1FF
  {
  }

  lemma BitsLargeTop(x: bv64, off: bv64)
    ensures (((x << 21) | off) | 0xFFFF_FFFF_8000_0000) >> 47 == 0x1FFFF
  {
  }

  lemma BitsLowPdpte(x: bv64, off: bv64)
    requires x & 0xFFFF_FFFF_FFFF_FE00 == 0 && off & 0x1F_FFFF == off
    ensures ((((x << 21) | off) | 0xFFFF_FFFF_8000_0000) >> 30) & 0x1FF == 0x1FE
  {
  }

  lemma BitsHighPdpte(x: bv64, off: bv64)
    requires x & 0xFFFF_FFFF_FFFF_FE00 == 0 && off & 0x1F_FFFF == off
    ensures (((((0x200 | x) << 21) | off) | 0xFFFF_FFFF_8000_0000) >> 30) & 0x1FF == 0x1FF
  {
  }

  lemma BitsLargePde(a: bv64, x: bv64, off: bv64)
    requires x & 0xFFFF_FFFF_FFFF_FE00 == 0 && off & 0x1F_FFFF == off && a <= 1
    ensures ((((((a << 9) | x) << 21) | off) | 0xFFFF_FFFF_8000_0000) >> 21) & 0x1FF == x
  {
  }

  lemma OneWord()
    ensures ToWord(0) == 0 && ToWord(1) == 1
  {
    ToWordDigits(1);
  }

  lemma BitsZeroOr(x: bv64)
    ensures (0 << 9) | x == x
  {
  }

  /** The indices of a window address: the first and the second gigabyte differ in the
      second one. */
  lemma {:induction false} WindowIndices(k: nat, off: bv64)
    requires k < 1024 && LargeOffset(off)
    ensures var va := P2V(LargeByte(k, off));
            && Canonical(va) && Pml4e(va) == LAST && Pde(va) == ToWord(k % 512)
            && Pdpte(va) == if k < 512 then KERNEL else LAST
  {
    hide ToWord;
    var x := ToWord(k % 512);
    SplitAt9(k / 512, k % 512);
    OneWord();
    BitsZeroOr(x);
    BitsLargePml4e(ToWord(k), off);
    BitsLargeTop(ToWord(k), off);
    WindowPde(k, off);
    WindowPdpte(k, off);
  }

  lemma {:induction false} WindowPde(k: nat, off: bv64)
    requires k < 1024 && LargeOffset(off)
    ensures Pde(P2V(LargeByte(k, off))) == ToWord(k % 512)
  {
    hide ToWord;
    SplitAt9(k / 512, k % 512);
    OneWord();
    BitsLargePde(ToWord(k / 512), ToWord(k % 512), off);
  }

  lemma BitsBit9(x: bv64)
    ensures (1 << 9) | x == 0x200 | x
  {
  }

  lemma WindowPdpte(k: nat, off: bv64)
    requires k < 1024 && LargeOffset(off)
    ensures Pdpte(P2V(LargeByte(k, off))) == if k < 512 then KERNEL else LAST
  {
    hide ToWord;
    var x := ToWord(k % 512);
    SplitAt9(k / 512, k % 512);
    OneWord();
    if k < 512 {
      BitsLowPdpte(x, off);
    } else {
      BitsBit9(x);
      BitsHighPdpte(x, off);
    }
  }

  const LAST: bv64 := 0x1FF    // the index PML4E(KERNEL_VIRT)
  const KERNEL: bv64 := 0x1FE  // the index PDPTE(KERNEL_VIRT)

  lemma KernelIndices()
    ensures Pml4e(KERNEL_VIRT) == LAST && Pdpte(KERNEL_VIRT) == KERNEL
    ensures IsIndex(LAST) && IsIndex(KERNEL) && IsIndex(0) && IsIndex(MMU_RE)
  {
  }

  // ----- the loop -----

  /** How often the loop runs. */
  function Rounds(physical: nat): nat {
    (physical + Layout.LARGE_PAGE - 1) / Layout.LARGE_PAGE
  }

  /** The last of the first `n` large pages that has directory index `j`: the directory
      has 512 entries, and later pages overwrite earlier ones. */
  function Latest(j: nat, n: nat): (k: nat)
    requires j < n
    ensures j <= k < n <= k + 512 && k % 512 == j % 512
    ensures n <= 512 ==> k == j
    decreases n - j
  {
    if j + 512 < n then Latest(j + 512, n) else j
  }

  lemma {:induction false} LatestStep(j: nat, n: nat)
    requires j < 512
    ensures j < n ==> Latest(j, n + 1) == if n % 512 == j then n else Latest(j, n)
    ensures n == j ==> Latest(j, n + 1) == n
  {
    if j < n {
      LatestUnique(j, n + 1, if n % 512 == j then n else Latest(j, n));
    }
  }

  /** Between two multiples of 512 there is one number with a given remainder. */
  lemma {:induction false} LatestUnique(j: nat, n: nat, k: nat)
    requires j < n && k < n <= k + 512 && k % 512 == j % 512
    ensures Latest(j, n) == k
  {
    var d := Latest(j, n) - k;
    assert d % 512 == 0 && -512 < d < 512;
  }

  predicate LargeLeaf(e: bv64) {
    Present(e) && Large(e)
  }

  /** The entries of the two upper tables. */
  ghost predicate Upper(before: Memory, mem: Memory, pml4: bv64, pdpt: bv64, pd: bv64, low: bv64) {
    && mem(Slot(pml4, LAST)) == TableEntry(pdpt)
    && mem(Slot(pml4, MMU_RE)) == TableEntry(pml4)
    && mem(Slot(pdpt, KERNEL)) == TableEntry(pd)
    && mem(Slot(pdpt, low)) == TableEntry(pd)
    && (forall i {:trigger Slot(pml4, i)} :: IsIndex(i) && i != LAST && i != MMU_RE ==>
          mem(Slot(pml4, i)) == before(Slot(pml4, i)))
    && (forall i {:trigger Slot(pdpt, i)} :: IsIndex(i) && i != KERNEL && i != low ==>
          mem(Slot(pdpt, i)) == before(Slot(pdpt, i)))
  }

  ghost function DirectoryEntry(before: Memory, pd: bv64, n: nat, j: nat): bv64 {
    if j < n then LargeEntry(LargeAddress(Latest(j, n))) else before(Slot(pd, ToWord(j)))
  }

  /** The directory after the first `n` large pages. */
  ghost predicate Directory(before: Memory, mem: Memory, pd: bv64, n: nat) {
    && (forall j: nat :: j < 512 ==> mem(Slot(pd, ToWord(j))) == DirectoryEntry(before, pd, n, j))
    && (forall i {:trigger Slot(pd, i)} :: IsIndex(i) ==>
          mem(Slot(pd, i)) == before(Slot(pd, i)) || LargeLeaf(mem(Slot(pd, i))))
  }

  /** Nothing outside the three tables has changed. */
  ghost predicate OnlyTables(before: Memory, mem: Memory, pml4: bv64, pdpt: bv64, pd: bv64) {
    forall t, i {:trigger Slot(t, i)} :: IsFrame(t) && IsIndex(i) && t != pml4 && t != pdpt && t != pd ==>
      mem(Slot(t, i)) == before(Slot(t, i))
  }

  ghost predicate ThreeFrames(pml4: bv64, pdpt: bv64, pd: bv64) {
    IsFrame(pml4) && IsFrame(pdpt) && IsFrame(pd) && pml4 != pdpt && pml4 != pd && pdpt != pd
  }

  /** All that `mmu_bootstrap(physical, pml4, pdpt, pd)` writes. */
  ghost predicate Built(before: Memory, mem: Memory, physical: nat, pml4: bv64, pdpt: bv64, pd: bv64) {
    && Upper(before, mem, pml4, pdpt, pd, Pdpte(ToWord(physical)))
    && Directory(before, mem, pd, Rounds(physical))
    && OnlyTables(before, mem, pml4, pdpt, pd)
  }

  lemma StoreElsewhere(mem: Memory, t: bv64, i: bv64, e: bv64, u: bv64, j: bv64)
    requires IsFrame(t) && IsFrame(u) && IsIndex(i) && IsIndex(j) && !(t == u && i == j)
    ensures Store(mem, Slot(t, i), e)(Slot(u, j)) == mem(Slot(u, j))
  {
    hide Slot, IsFrame, IsIndex;
    if Slot(t, i) == Slot(u, j) {
      SlotInjective(t, i, u, j);
    }
  }

  lemma StoreHere(mem: Memory, a: bv64, e: bv64)
    ensures Store(mem, a, e)(a) == e
  {
  }

  lemma OnlyTablesStore(before: Memory, mem: Memory, pml4: bv64, pdpt: bv64, pd: bv64, t: bv64, i: bv64, e: bv64)
    requires OnlyTables(before, mem, pml4, pdpt, pd)
    requires IsFrame(t) && IsIndex(i) && (t == pml4 || t == pdpt || t == pd)
    ensures OnlyTables(before, Store(mem, Slot(t, i), e), pml4, pdpt, pd)
  {
    hide Slot, IsFrame, IsIndex, Store;
    forall u, j {:trigger Slot(u, j)} | IsFrame(u) && IsIndex(j) && u != pml4 && u != pdpt && u != pd
      ensures Store(mem, Slot(t, i), e)(Slot(u, j)) == before(Slot(u, j))
    {
      StoreElsewhere(mem, t, i, e, u, j);
    }
  }

  /** A store into the directory leaves the upper tables. */
  lemma UpperStays(before: Memory, mem: Memory, pml4: bv64, pdpt: bv64, pd: bv64, low: bv64, i: bv64, e: bv64)
    requires ThreeFrames(pml4, pdpt, pd) && IsIndex(low) && IsIndex(i)
    requires Upper(before, mem, pml4, pdpt, pd, low)
    ensures Upper(before, Store(mem, Slot(pd, i), e), pml4, pdpt, pd, low)
  {
    hide Slot, IsFrame, IsIndex, TableEntry, Store;
    KernelIndices();
    var mem' := Store(mem, Slot(pd, i), e);
    forall j {:trigger Slot(pml4, j)} | IsIndex(j) ensures mem'(Slot(pml4, j)) == mem(Slot(pml4, j)) {
      StoreElsewhere(mem, pd, i, e, pml4, j);
    }
    forall j {:trigger Slot(pdpt, j)} | IsIndex(j) ensures mem'(Slot(pdpt, j)) == mem(Slot(pdpt, j)) {
      StoreElsewhere(mem, pd, i, e, pdpt, j);
    }
  }

  /** One round of the loop. */
  lemma DirectoryStep(before: Memory, mem: Memory, pd: bv64, n: nat)
    requires IsFrame(pd) && Directory(before, mem, pd, n)
    ensures Directory(before, Store(mem, Slot(pd, Pde(LargeAddress(n))), LargeEntry(LargeAddress(n))), pd, n + 1)
  {
    hide Slot, IsFrame, IsIndex, LargeEntry, LargeAddress, ToWord, Pde, Store, LargeLeaf;
    var i, e := ToWord(n % 512), LargeEntry(LargeAddress(n));
    PdeOfLarge(n);
    SmallIndex(n % 512);
    StoreHere(mem, Slot(pd, i), e);
    assert LargeLeaf(e) by { LeafOfEntry(n); }
    forall j: nat | j < 512
      ensures Store(mem, Slot(pd, i), e)(Slot(pd, ToWord(j))) == DirectoryEntry(before, pd, n + 1, j)
    {
      SmallIndex(j);
      LatestStep(j, n);
      if j != n % 512 {
        DifferentWords(j, n % 512);
        StoreElsewhere(mem, pd, i, e, pd, ToWord(j));
      }
    }
    forall j {:trigger Slot(pd, j)} | IsIndex(j)
      ensures var x := Store(mem, Slot(pd, i), e)(Slot(pd, j)); x == before(Slot(pd, j)) || LargeLeaf(x)
    {
      if j != i {
        StoreElsewhere(mem, pd, i, e, pd, j);
      }
    }
  }

  lemma LeafOfEntry(n: nat)
    ensures LargeLeaf(LargeEntry(LargeAddress(n)))
  {
    hide LargeEntry, LargeAddress, Present, Large;
    LargeEntryBits(LargeAddress(n));
  }

  /** The four entries in front of the loop. */
  method LinkTables(before: Memory, physical: nat, pml4: bv64, pdpt: bv64, pd: bv64) returns (mem: Memory)
    requires ThreeFrames(pml4, pdpt, pd)
    ensures Upper(before, mem, pml4, pdpt, pd, Pdpte(ToWord(physical)))
    ensures Directory(before, mem, pd, 0)
    ensures OnlyTables(before, mem, pml4, pdpt, pd)
  {
    hide Slot, IsFrame, IsIndex, TableEntry, Store, Pml4e, Pdpte, ToWord, Upper, Directory, OnlyTables;
    KernelIndices();
    IndexBounds(ToWord(physical));
    mem := Store(before, Slot(pml4, Pml4e(KERNEL_VIRT)), TableEntry(pdpt));
    mem := Store(mem, Slot(pml4, MMU_RE), TableEntry(pml4));
    mem := Store(mem, Slot(pdpt, Pdpte(ToWord(physical))), TableEntry(pd));
    mem := Store(mem, Slot(pdpt, Pdpte(KERNEL_VIRT)), TableEntry(pd));
    FourStores(before, pml4, pdpt, pd, Pdpte(ToWord(physical)));
  }

  ghost function Linked(before: Memory, pml4: bv64, pdpt: bv64, pd: bv64, low: bv64): Memory {
    var m2 := Store(Store(before, Slot(pml4, LAST), TableEntry(pdpt)), Slot(pml4, MMU_RE), TableEntry(pml4));
    Store(Store(m2, Slot(pdpt, low), TableEntry(pd)), Slot(pdpt, KERNEL), TableEntry(pd))
  }

  lemma FourStores(before: Memory, pml4: bv64, pdpt: bv64, pd: bv64, low: bv64)
    requires ThreeFrames(pml4, pdpt, pd) && IsIndex(low)
    ensures var mem := Linked(before, pml4, pdpt, pd, low);
            && Upper(before, mem, pml4, pdpt, pd, low) && Directory(before, mem, pd, 0)
            && OnlyTables(before, mem, pml4, pdpt, pd)
  {
    hide Slot, IsFrame, IsIndex, TableEntry, Store, ToWord, LargeLeaf;
    KernelIndices();
    var mem := Linked(before, pml4, pdpt, pd, low);
    forall t, i {:trigger Slot(t, i)} | IsFrame(t) && IsIndex(i)
      ensures mem(Slot(t, i)) ==
              if t == pdpt && (i == KERNEL || i == low) then TableEntry(pd)
              else if t == pml4 && i == MMU_RE then TableEntry(pml4)
              else if t == pml4 && i == LAST then TableEntry(pdpt)
              else before(Slot(t, i))
    {
      LinkedAt(before, pml4, pdpt, pd, low, t, i);
    }
    forall j: nat | j < 512 ensures mem(Slot(pd, ToWord(j))) == before(Slot(pd, ToWord(j))) {
      SmallIndex(j);
    }
  }

  lemma LinkedAt(before: Memory, pml4: bv64, pdpt: bv64, pd: bv64, low: bv64, t: bv64, i: bv64)
    requires ThreeFrames(pml4, pdpt, pd) && IsIndex(low) && IsFrame(t) && IsIndex(i)
    ensures Linked(before, pml4, pdpt, pd, low)(Slot(t, i)) ==
            if t == pdpt && (i == KERNEL || i == low) then TableEntry(pd)
            else if t == pml4 && i == MMU_RE then TableEntry(pml4)
            else if t == pml4 && i == LAST then TableEntry(pdpt)
            else before(Slot(t, i))
  {
    var m1 := Store(before, Slot(pml4, LAST), TableEntry(pdpt));
    var m2 := Store(m1, Slot(pml4, MMU_RE), TableEntry(pml4));
    var m3 := Store(m2, Slot(pdpt, low), TableEntry(pd));
    assert Linked(before, pml4, pdpt, pd, low) == Store(m3, Slot(pdpt, KERNEL), TableEntry(pd));
    hide *;
    KernelIndices();
    StoreAt(before, pml4, LAST, TableEntry(pdpt), t, i);
    StoreAt(m1, pml4, MMU_RE, TableEntry(pml4), t, i);
    StoreAt(m2, pdpt, low, TableEntry(pd), t, i);
    StoreAt(m3, pdpt, KERNEL, TableEntry(pd), t, i);
  }

  lemma StoreAt(mem: Memory, t: bv64, i: bv64, e: bv64, u: bv64, j: bv64)
    requires IsFrame(t) && IsFrame(u) && IsIndex(i) && IsIndex(j)
    ensures Store(mem, Slot(t, i), e)(Slot(u, j)) == if u == t && j == i then e else mem(Slot(u, j))
  {
    hide *;
    if u == t && j == i {
      StoreHere(mem, Slot(t, i), e);
    } else {
      StoreElsewhere(mem, t, i, e, u, j);
    }
  }

  /** `mmu_bootstrap`, for any size and tables with any previous contents. */
  method MmuBootstrap(before: Memory, physical: nat, pml4: bv64, pdpt: bv64, pd: bv64) returns (mem: Memory)
    requires ThreeFrames(pml4, pdpt, pd) && physical <= MEMORY_LIMIT
    ensures Built(before, mem, physical, pml4, pdpt, pd)
  {
    hide Slot, IsFrame, IsIndex, Store, Pde, Pdpte, Upper, Directory, OnlyTables, LargeAddress, LargeEntry, ToWord;
    mem := LinkTables(before, physical, pml4, pdpt, pd);
    IndexBounds(ToWord(physical));
    var k := 0;  // the loop variable i is k * 2 MB
    while k * Layout.LARGE_PAGE < physical
      invariant k <= Rounds(physical)
      invariant Upper(before, mem, pml4, pdpt, pd, Pdpte(ToWord(physical)))
      invariant Directory(before, mem, pd, k) && OnlyTables(before, mem, pml4, pdpt, pd)
    {
      var i := LargeAddress(k);
      IndexBounds(i);
      UpperStays(before, mem, pml4, pdpt, pd, Pdpte(ToWord(physical)), Pde(i), LargeEntry(i));
      DirectoryStep(before, mem, pd, k);
      OnlyTablesStore(before, mem, pml4, pdpt, pd, pd, Pde(i), LargeEntry(i));
      mem := Store(mem, Slot(pd, Pde(i)), LargeEntry(i));
      k := k + 1;
    }
  }

  // ----- what is mapped -----

  /** Tables whose entries were not present before. */
  ghost predicate Cleared(before: Memory, pml4: bv64, pdpt: bv64, pd: bv64) {
    ZeroFrame(before, pml4) && ZeroFrame(before, pdpt) && ZeroFrame(before, pd)
  }

  lemma WalkDirectory(mem: Memory, pml4: bv64, pdpt: bv64, pd: bv64, va: bv64, i3: bv64, i2: bv64, e: bv64)
    requires IsFrame(pml4) && IsFrame(pdpt) && IsFrame(pd)
    requires Canonical(va) && Pml4e(va) == LAST && Pdpte(va) == i3 && Pde(va) == i2
    requires mem(Slot(pml4, LAST)) == TableEntry(pdpt) && mem(Slot(pdpt, i3)) == TableEntry(pd)
    requires mem(Slot(pd, i2)) == e && (Present(e) ==> Large(e))
    ensures Translate(mem, pml4, va) == if Present(e) then Some(Page2M(e, va)) else None
  {
    assert Frame(pml4) == pml4;
    hide Slot, Frame, IsFrame, Present, Large, TableEntry, Pml4e, Pdpte, Pde, Canonical, Page2M;
    TableEntryBits(pdpt);
    TableEntryBits(pd);
  }

  lemma WalkStops(mem: Memory, pml4: bv64, pdpt: bv64, va: bv64, i3: bv64)
    requires IsFrame(pml4) && IsFrame(pdpt) && Pml4e(va) == LAST && Pdpte(va) == i3
    requires mem(Slot(pml4, LAST)) == TableEntry(pdpt) && !Present(mem(Slot(pdpt, i3)))
    ensures Translate(mem, pml4, va) == None
  {
    assert Frame(pml4) == pml4;
    hide Slot, Frame, IsFrame, Present, Large, TableEntry, Pml4e, Pdpte, Pde, Canonical, Page2M;
    TableEntryBits(pdpt);
  }

  /** The address that entry `j` of the directory gives to byte `off` of its page. */
  ghost function MappedByte(physical: nat, j: nat, off: bv64): Option<bv64> {
    if j < Rounds(physical) then Some(LargeByte(Latest(j, Rounds(physical)), off)) else None
  }

  /** The first gigabyte of the window: large page `k` is found at its place as long as the
      directory does not wrap, and those that the loop does not reach are not found. */
  lemma WindowMaps(before: Memory, mem: Memory, physical: nat, pml4: bv64, pdpt: bv64, pd: bv64, k: nat, off: bv64)
    requires ThreeFrames(pml4, pdpt, pd) && physical <= MEMORY_LIMIT && Cleared(before, pml4, pdpt, pd)
    requires Built(before, mem, physical, pml4, pdpt, pd) && k < 512 && LargeOffset(off)
    ensures Translate(mem, pml4, P2V(LargeByte(k, off))) == MappedByte(physical, k, off)
  {
    hide Slot, IsFrame, IsIndex, TableEntry, LargeByte, ToWord, P2V, Pml4e, Pdpte, Pde, Canonical, Page2M, LargeOffset,
      Translate, Present, Large, MappedByte, LargeEntry, LargeAddress, Directory, ZeroFrame, OnlyTables;
    WindowEntry(before, mem, physical, pd, k, k, off);
    WindowIndices(k, off);
    WalkDirectory(mem, pml4, pdpt, pd, P2V(LargeByte(k, off)), KERNEL, ToWord(k), mem(Slot(pd, ToWord(k))));
  }

  /** What the directory says of window page `w`, which has directory index `k`. */
  lemma {:induction false} WindowEntry(before: Memory, mem: Memory, physical: nat, pd: bv64, k: nat, w: nat, off: bv64)
    requires Directory(before, mem, pd, Rounds(physical)) && ZeroFrame(before, pd) && physical <= MEMORY_LIMIT
    requires k < 512 && LargeOffset(off)
    ensures var e := mem(Slot(pd, ToWord(k)));
            && (Present(e) ==> Large(e))
            && (if Present(e) then Some(Page2M(e, P2V(LargeByte(w, off)))) else None) == MappedByte(physical, k, off)
  {
    hide Slot, IsIndex, LargeByte, ToWord, P2V, Page2M, LargeOffset, Present, Large, LargeEntry, LargeAddress;
    SmallIndex(k);
    var n := Rounds(physical);
    if k < n {
      LargeEntryBits(LargeAddress(Latest(k, n)));
      WindowPage(Latest(k, n), w, off);
    } else {
      TableEntryBits(0);
    }
  }

  /** Slot 0x180 leads back to the new PML4. */
  lemma BuiltSelfMapped(before: Memory, mem: Memory, physical: nat, pml4: bv64, pdpt: bv64, pd: bv64)
    requires IsFrame(pml4) && Built(before, mem, physical, pml4, pdpt, pd)
    ensures SelfMapped(mem, pml4)
    ensures Translate(mem, pml4, Recursive(MMU_RE, MMU_RE, MMU_RE, MMU_RE)) == Some(pml4)
  {
    assert Frame(pml4) == pml4;
    hide Slot, Frame, IsFrame, Present, Large, TableEntry, Directory, OnlyTables, ToWord, Translate, Recursive, Element;
    TableEntryBits(pml4);
    KernelIndices();
    ReadPml4(mem, pml4, 0);
    FirstElement(Recursive(MMU_RE, MMU_RE, MMU_RE, MMU_RE));
    FirstSlot(pml4);
  }

  lemma FirstElement(v: bv64)
    ensures Element(v, 0) == v
  {
  }

  lemma FirstSlot(t: bv64)
    ensures Slot(t, 0) == t
  {
  }
}
