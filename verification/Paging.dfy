/** Four-level paging: the walk the processor makes for every access, the same
    walk made directly on physical memory, and `mmu_virt_to_phys`, which reads the
    tables only through addresses that the processor itself has to translate. */
module Paging {
  import opened Words

  /** Physical memory: the 8-byte word at each 8-aligned physical address. */
  type Memory = bv64 -> bv64

  function Store(mem: Memory, address: bv64, word: bv64): Memory {
    a => if a == address then word else mem(a)
  }

  /** Bits 51..12: the frame named by a table entry or by CR3. */
  function Frame(e: bv64): bv64 {
    e & 0x000F_FFFF_FFFF_F000
  }

  function Join(base: bv64, low: bv64): bv64 {
    base | low
  }

  /** Physical address of entry `index` of the table in frame `table`. */
  function Slot(table: bv64, index: bv64): bv64 {
    Join(table, index << 3)
  }

  predicate Present(e: bv64) {
    e & PRESENT != 0
  }

  predicate Large(e: bv64) {
    e & PS != 0
  }

  function Page1G(e: bv64, va: bv64): bv64 {
    (e & 0x000F_FFFF_C000_0000) | (va & 0x3FFF_FFFF)
  }

  function Page2M(e: bv64, va: bv64): bv64 {
    (e & 0x000F_FFFF_FFE0_0000) | (va & 0x1F_FFFF)
  }

  /** The processor's translation of `va` (Intel SDM volume 3A, section 4.5): the
      physical address, or `None` for a page fault.  Bit 7 is reserved in a PML4
      entry and selects a large page in the two levels below. */
  function Translate(mem: Memory, cr3: bv64, va: bv64): Option<bv64> {
    if !Canonical(va) then None else
    var e4 := mem(Slot(Frame(cr3), Pml4e(va)));
    if !Present(e4) || Large(e4) then None else
    var e3 := mem(Slot(Frame(e4), Pdpte(va)));
    if !Present(e3) then None else
    if Large(e3) then Some(Page1G(e3, va)) else
    var e2 := mem(Slot(Frame(e3), Pde(va)));
    if !Present(e2) then None else
    if Large(e2) then Some(Page2M(e2, va)) else
    var e1 := mem(Slot(Frame(e2), Pte(va)));
    if !Present(e1) then None else Some(Join(Frame(e1), Offset(va)))
  }

  /** An 8-byte load through the processor's translation. */
  function Load(mem: Memory, cr3: bv64, va: bv64): Option<bv64> {
    match Translate(mem, cr3, va)
    case None => None
    case Some(pa) => Some(mem(pa))
  }

  /** Where a walk made directly on physical memory stops: at an entry that is not
      present above the last level, or at a leaf entry in its slot. */
  datatype Outcome = Missing(level: nat) | Leaf(level: nat, slot: bv64, entry: bv64)

  function Walk(mem: Memory, cr3: bv64, va: bv64): Outcome {
    var s4 := Slot(Frame(cr3), Pml4e(va));
    if !Present(mem(s4)) then Missing(4) else
    var s3 := Slot(Frame(mem(s4)), Pdpte(va));
    if !Present(mem(s3)) then Missing(3) else
    if Large(mem(s3)) then Leaf(3, s3, mem(s3)) else
    var s2 := Slot(Frame(mem(s3)), Pde(va));
    if !Present(mem(s2)) then Missing(2) else
    if Large(mem(s2)) then Leaf(2, s2, mem(s2)) else
    var s1 := Slot(Frame(mem(s2)), Pte(va));
    Leaf(1, s1, mem(s1))
  }

  /** What `mmu_virt_to_phys` returns (value, error) for a walk. */
  function Report(o: Outcome): (bv64, nat) {
    match o
    case Missing(level) => (0, level)
    case Leaf(_, _, entry) => (entry, 0)
  }

  /** `mmu_virt_to_phys`: every table access is a load of a virtual address; `None`
      when one of them faults. */
  function VirtToPhys(mem: Memory, cr3: bv64, virt: bv64): Option<(bv64, nat)> {
    var pml4 := Recursive(MMU_RE, MMU_RE, MMU_RE, MMU_RE);
    match Load(mem, cr3, Element(pml4, Pml4e(virt)))
    case None => None
    case Some(e4) =>
    if !Present(e4) then Some((0, 4)) else
    var pml3 := Recursive(MMU_RE, MMU_RE, MMU_RE, Pml4e(virt));
    match Load(mem, cr3, Element(pml3, Pdpte(virt)))
    case None => None
    case Some(e3) =>
    if !Present(e3) then Some((0, 3)) else
    if Large(e3) then Some((e3, 0)) else
    var pml2 := Recursive(MMU_RE, MMU_RE, Pml4e(virt), Pdpte(virt));
    match Load(mem, cr3, Element(pml2, Pde(virt)))
    case None => None
    case Some(e2) =>
    if !Present(e2) then Some((0, 2)) else
    if Large(e2) then Some((e2, 0)) else
    var pml1 := Recursive(MMU_RE, Pml4e(virt), Pdpte(virt), Pde(virt));
    match Load(mem, cr3, Element(pml1, Pte(virt)))
    case None => None
    case Some(e1) => Some((e1, 0))
  }

  /** Slot 0x180 of the PML4 points back at the PML4. */
  ghost predicate SelfMapped(mem: Memory, cr3: bv64) {
    var e := mem(Slot(Frame(cr3), MMU_RE));
    Present(e) && !Large(e) && Frame(e) == Frame(cr3)
  }

  /** The virtual address of entry `i` of the table that `mmu_recursive(a, b, c, d)`
      names has the four indices as they were given, and the entry as its offset. */
  lemma EntryAddress(a: bv64, b: bv64, c: bv64, d: bv64, i: bv64)
    requires IsIndex(a) && IsIndex(b) && IsIndex(c) && IsIndex(d) && IsIndex(i)
    ensures var v := Element(Recursive(a, b, c, d), i);
            && Pml4e(v) == a && Pdpte(v) == b && Pde(v) == c && Pte(v) == d
            && Canonical(v) && forall f :: Join(f, Offset(v)) == Slot(f, i)
  {
    hide Recursive, Element, Pml4e, Pdpte, Pde, Pte, Canonical, Offset, IsIndex, Join;
    RecursiveIndices(a, b, c, d);
    ElementIndices(Recursive(a, b, c, d), i);
  }

  /** With all four indices at slot 0x180 the walk ends on the PML4 itself. */
  lemma ReadPml4(mem: Memory, cr3: bv64, i: bv64)
    requires SelfMapped(mem, cr3) && IsIndex(i)
    ensures Translate(mem, cr3, Element(Recursive(MMU_RE, MMU_RE, MMU_RE, MMU_RE), i)) == Some(Slot(Frame(cr3), i))
  {
    hide Join, Slot, Frame, Present, Large, Element, IsIndex, Pml4e, Pdpte, Pde, Pte, Canonical, Offset, Recursive,
      Page1G, Page2M;
    IndexBounds(0);
    EntryAddress(MMU_RE, MMU_RE, MMU_RE, MMU_RE, i);
  }

  /** With three indices at slot 0x180 the walk ends on the table that the PML4
      entry `i4` names. */
  lemma ReadPdpt(mem: Memory, cr3: bv64, i4: bv64, i: bv64)
    requires SelfMapped(mem, cr3) && IsIndex(i4) && IsIndex(i)
    requires Present(mem(Slot(Frame(cr3), i4)))
    ensures Translate(mem, cr3, Element(Recursive(MMU_RE, MMU_RE, MMU_RE, i4), i))
         == Some(Slot(Frame(mem(Slot(Frame(cr3), i4))), i))
  {
    hide Join, Slot, Frame, Present, Large, Element, IsIndex, Pml4e, Pdpte, Pde, Pte, Canonical, Offset, Recursive,
      Page1G, Page2M;
    IndexBounds(0);
    EntryAddress(MMU_RE, MMU_RE, MMU_RE, i4, i);
  }

  lemma ReadPd(mem: Memory, cr3: bv64, i4: bv64, e4: bv64, i3: bv64, e3: bv64, i: bv64)
    requires SelfMapped(mem, cr3) && IsIndex(i4) && IsIndex(i3) && IsIndex(i)
    requires e4 == mem(Slot(Frame(cr3), i4)) && Present(e4) && !Large(e4)
    requires e3 == mem(Slot(Frame(e4), i3)) && Present(e3)
    ensures Translate(mem, cr3, Element(Recursive(MMU_RE, MMU_RE, i4, i3), i)) == Some(Slot(Frame(e3), i))
  {
    hide Join, Slot, Frame, Present, Large, Element, IsIndex, Pml4e, Pdpte, Pde, Pte, Canonical, Offset, Recursive,
      Page1G, Page2M;
    IndexBounds(0);
    EntryAddress(MMU_RE, MMU_RE, i4, i3, i);
  }

  lemma ReadPt(mem: Memory, cr3: bv64, i4: bv64, e4: bv64, i3: bv64, e3: bv64, i2: bv64, e2: bv64, i: bv64)
    requires SelfMapped(mem, cr3) && IsIndex(i4) && IsIndex(i3) && IsIndex(i2) && IsIndex(i)
    requires e4 == mem(Slot(Frame(cr3), i4)) && Present(e4) && !Large(e4)
    requires e3 == mem(Slot(Frame(e4), i3)) && Present(e3) && !Large(e3)
    requires e2 == mem(Slot(Frame(e3), i2)) && Present(e2)
    ensures Translate(mem, cr3, Element(Recursive(MMU_RE, i4, i3, i2), i)) == Some(Slot(Frame(e2), i))
  {
    hide Join, Slot, Frame, Present, Large, Element, IsIndex, Pml4e, Pdpte, Pde, Pte, Canonical, Offset, Recursive,
      Page1G, Page2M;
    IndexBounds(0);
    EntryAddress(MMU_RE, i4, i3, i2, i);
  }

  // The four depths at which `mmu_virt_to_phys` can stop.

  lemma ViewStopsAtPml4(mem: Memory, cr3: bv64, virt: bv64)
    requires SelfMapped(mem, cr3)
    requires !Present(mem(Slot(Frame(cr3), Pml4e(virt))))
    ensures VirtToPhys(mem, cr3, virt) == Some(Report(Walk(mem, cr3, virt)))
  {
    hide SelfMapped, Translate, Slot, Frame, Present, Large, Element, IsIndex, Pml4e, Pdpte, Pde, Pte, Recursive;
    IndexBounds(virt);
    ReadPml4(mem, cr3, Pml4e(virt));
  }

  lemma ViewStopsAtPdpt(mem: Memory, cr3: bv64, virt: bv64, e4: bv64, e3: bv64)
    requires SelfMapped(mem, cr3)
    requires e4 == mem(Slot(Frame(cr3), Pml4e(virt))) && Present(e4)
    requires e3 == mem(Slot(Frame(e4), Pdpte(virt))) && (!Present(e3) || Large(e3))
    ensures VirtToPhys(mem, cr3, virt) == Some(Report(Walk(mem, cr3, virt)))
  {
    hide SelfMapped, Translate, Slot, Frame, Present, Large, Element, IsIndex, Pml4e, Pdpte, Pde, Pte, Recursive;
    IndexBounds(virt);
    ReadPml4(mem, cr3, Pml4e(virt));
    ReadPdpt(mem, cr3, Pml4e(virt), Pdpte(virt));
  }

  lemma ViewStopsAtPd(mem: Memory, cr3: bv64, virt: bv64, e4: bv64, e3: bv64, e2: bv64)
    requires SelfMapped(mem, cr3)
    requires e4 == mem(Slot(Frame(cr3), Pml4e(virt))) && Present(e4) && !Large(e4)
    requires e3 == mem(Slot(Frame(e4), Pdpte(virt))) && Present(e3) && !Large(e3)
    requires e2 == mem(Slot(Frame(e3), Pde(virt))) && (!Present(e2) || Large(e2))
    ensures VirtToPhys(mem, cr3, virt) == Some(Report(Walk(mem, cr3, virt)))
  {
    hide SelfMapped, Translate, Slot, Frame, Present, Large, Element, IsIndex, Pml4e, Pdpte, Pde, Pte, Recursive;
    IndexBounds(virt);
    ReadPml4(mem, cr3, Pml4e(virt));
    ReadPdpt(mem, cr3, Pml4e(virt), Pdpte(virt));
    ReadPd(mem, cr3, Pml4e(virt), e4, Pdpte(virt), e3, Pde(virt));
  }

  lemma ViewReachesPt(mem: Memory, cr3: bv64, virt: bv64, e4: bv64, e3: bv64, e2: bv64)
    requires SelfMapped(mem, cr3)
    requires e4 == mem(Slot(Frame(cr3), Pml4e(virt))) && Present(e4) && !Large(e4)
    requires e3 == mem(Slot(Frame(e4), Pdpte(virt))) && Present(e3) && !Large(e3)
    requires e2 == mem(Slot(Frame(e3), Pde(virt))) && Present(e2) && !Large(e2)
    ensures VirtToPhys(mem, cr3, virt) == Some(Report(Walk(mem, cr3, virt)))
  {
    hide SelfMapped, Translate, Slot, Frame, Present, Large, Element, IsIndex, Pml4e, Pdpte, Pde, Pte, Recursive;
    IndexBounds(virt);
    ReadPml4(mem, cr3, Pml4e(virt));
    ReadPdpt(mem, cr3, Pml4e(virt), Pdpte(virt));
    ReadPd(mem, cr3, Pml4e(virt), e4, Pdpte(virt), e3, Pde(virt));
    ReadPt(mem, cr3, Pml4e(virt), e4, Pdpte(virt), e3, Pde(virt), e2, Pte(virt));
  }

  /** Through slot 0x180 the tables are read where they are: for every address,
      `mmu_virt_to_phys` makes no access that faults and returns the raw leaf entry
      or the missing level that a walk on physical memory finds. */
  lemma RecursiveViewIsWalk(mem: Memory, cr3: bv64, virt: bv64)
    requires SelfMapped(mem, cr3)
    requires var e := mem(Slot(Frame(cr3), Pml4e(virt))); Present(e) ==> !Large(e)
    ensures VirtToPhys(mem, cr3, virt) == match Walk(mem, cr3, virt)
                                          case Missing(level) => Some((0, level))
                                          case Leaf(_, _, entry) => Some((entry, 0))
  {
    assert Report(Walk(mem, cr3, virt)) == match Walk(mem, cr3, virt)
                                           case Missing(level) => (0, level)
                                           case Leaf(_, _, entry) => (entry, 0) by { hide Walk; }
    hide *;
    var e4 := mem(Slot(Frame(cr3), Pml4e(virt)));
    var e3 := mem(Slot(Frame(e4), Pdpte(virt)));
    var e2 := mem(Slot(Frame(e3), Pde(virt)));
    if !Present(e4) {
      ViewStopsAtPml4(mem, cr3, virt);
    } else if !Present(e3) || Large(e3) {
      ViewStopsAtPdpt(mem, cr3, virt, e4, e3);
    } else if !Present(e2) || Large(e2) {
      ViewStopsAtPd(mem, cr3, virt, e4, e3, e2);
    } else {
      ViewReachesPt(mem, cr3, virt, e4, e3, e2);
    }
  }
}
