/** Machine words, the rounding and address macros of the kernel, and the index
    macros of the page tables.  A `size_t` is a `bv64`, so shifts, masks and
    wrap-around are the processor's own. */
module Words {

  datatype Option<+T> = None | Some(value: T)

  const KERNEL_VIRT: bv64 := 0xFFFF_FFFF_8000_0000

  const PRESENT: bv64 := 0x1
  const RW: bv64 := 0x2
  const PS: bv64 := 0x80
  const MMU_RE: bv64 := 0x180

  /** `ROUND_DOWN` of an address to its page. */
  function PageBase(a: bv64): bv64 {
    a & !(0x1000 - 1)
  }

  function P2V(x: bv64): bv64 {
    x | KERNEL_VIRT
  }

  function Pml4e(x: bv64): bv64 {
    (x >> 39) & 0x1FF
  }

  function Pdpte(x: bv64): bv64 {
    (x >> 30) & 0x1FF
  }

  function Pde(x: bv64): bv64 {
    (x >> 21) & 0x1FF
  }

  function Pte(x: bv64): bv64 {
    (x >> 12) & 0x1FF
  }

  /** An index into a table of 512 entries. */
  predicate IsIndex(i: bv64) {
    i < 512
  }

  /** Bits 63..48 of a canonical address repeat bit 47. */
  predicate Canonical(x: bv64) {
    x >> 47 == 0 || x >> 47 == 0x1FFFF
  }

  /** The bits below a page boundary. */
  function Offset(x: bv64): bv64 {
    x & 0xFFF
  }

  /** The address of `base[i]` for a pointer to 8-byte words. */
  function Element(base: bv64, i: bv64): bv64 {
    base + (i << 3)
  }

  /** `mmu_recursive`: the address whose four table indices are the arguments. */
  function Recursive(pml4: bv64, pdp: bv64, pd: bv64, pt: bv64): bv64 {
    var top := pml4 << 39;
    var ext := if top & 0x8000_0000_0000 != 0 then top | 0xFFFF_0000_0000_0000 else top;
    ext | (pdp << 30) | (pd << 21) | (pt << 12)
  }

  // Bit-level facts, one goal each and free of function calls: this keeps every one
  // of them cheap for the solver.

  lemma BitsPml4e(a: bv64, b: bv64, c: bv64, d: bv64)
    requires a < 512 && b < 512 && c < 512 && d < 512
    ensures (Recursive(a, b, c, d) >> 39) & 0x1FF == a
  {
  }

  lemma BitsPdpte(a: bv64, b: bv64, c: bv64, d: bv64)
    requires a < 512 && b < 512 && c < 512 && d < 512
    ensures (Recursive(a, b, c, d) >> 30) & 0x1FF == b
  {
  }

  lemma BitsPde(a: bv64, b: bv64, c: bv64, d: bv64)
    requires a < 512 && b < 512 && c < 512 && d < 512
    ensures (Recursive(a, b, c, d) >> 21) & 0x1FF == c
  {
  }

  lemma BitsPte(a: bv64, b: bv64, c: bv64, d: bv64)
    requires a < 512 && b < 512 && c < 512 && d < 512
    ensures (Recursive(a, b, c, d) >> 12) & 0x1FF == d
  {
  }

  lemma BitsCanonical(a: bv64, b: bv64, c: bv64, d: bv64)
    requires a < 512 && b < 512 && c < 512 && d < 512
    ensures Recursive(a, b, c, d) >> 47 == 0 || Recursive(a, b, c, d) >> 47 == 0x1FFFF
  {
  }

  lemma BitsAligned(a: bv64, b: bv64, c: bv64, d: bv64)
    requires a < 512 && b < 512 && c < 512 && d < 512
    ensures Recursive(a, b, c, d) & 0xFFF == 0
  {
  }

  lemma BitsRebuild(v: bv64)
    requires v >> 47 == 0 || v >> 47 == 0x1FFFF
    ensures Recursive((v >> 39) & 0x1FF, (v >> 30) & 0x1FF, (v >> 21) & 0x1FF, (v >> 12) & 0x1FF)
         == v & 0xFFFF_FFFF_FFFF_F000
  {
  }

  lemma BitsElementPte(v: bv64, i: bv64)
    requires v & 0xFFF == 0 && i < 512
    ensures ((v + (i << 3)) >> 12) & 0x1FF == (v >> 12) & 0x1FF
  {
  }

  lemma BitsElementPde(v: bv64, i: bv64)
    requires v & 0xFFF == 0 && i < 512
    ensures ((v + (i << 3)) >> 21) & 0x1FF == (v >> 21) & 0x1FF
  {
  }

  lemma BitsElementPdpte(v: bv64, i: bv64)
    requires v & 0xFFF == 0 && i < 512
    ensures ((v + (i << 3)) >> 30) & 0x1FF == (v >> 30) & 0x1FF
  {
  }

  lemma BitsElementPml4e(v: bv64, i: bv64)
    requires v & 0xFFF == 0 && i < 512
    ensures ((v + (i << 3)) >> 39) & 0x1FF == (v >> 39) & 0x1FF
  {
  }

  lemma BitsElementTop(v: bv64, i: bv64)
    requires v & 0xFFF == 0 && i < 512
    ensures (v + (i << 3)) >> 47 == v >> 47
  {
  }

  lemma BitsElementLow(v: bv64, i: bv64)
    requires v & 0xFFF == 0 && i < 512
    ensures (v + (i << 3)) & 0xFFF == i << 3
  {
  }

  lemma ElementPte(v: bv64, i: bv64)
    requires Offset(v) == 0 && IsIndex(i)
    ensures Pte(Element(v, i)) == Pte(v)
  {
    BitsElementPte(v, i);
  }

  lemma ElementPde(v: bv64, i: bv64)
    requires Offset(v) == 0 && IsIndex(i)
    ensures Pde(Element(v, i)) == Pde(v)
  {
    BitsElementPde(v, i);
  }

  lemma ElementPdpte(v: bv64, i: bv64)
    requires Offset(v) == 0 && IsIndex(i)
    ensures Pdpte(Element(v, i)) == Pdpte(v)
  {
    BitsElementPdpte(v, i);
  }

  lemma ElementPml4e(v: bv64, i: bv64)
    requires Offset(v) == 0 && IsIndex(i)
    ensures Pml4e(Element(v, i)) == Pml4e(v)
  {
    BitsElementPml4e(v, i);
  }

  lemma ElementCanonical(v: bv64, i: bv64)
    requires Offset(v) == 0 && IsIndex(i)
    ensures Canonical(Element(v, i)) == Canonical(v)
  {
    BitsElementTop(v, i);
  }

  lemma ElementOffset(v: bv64, i: bv64)
    requires Offset(v) == 0 && IsIndex(i)
    ensures Offset(Element(v, i)) == i << 3
  {
    BitsElementLow(v, i);
  }

  lemma IndexBounds(v: bv64)
    ensures IsIndex(Pml4e(v)) && IsIndex(Pdpte(v)) && IsIndex(Pde(v)) && IsIndex(Pte(v)) && IsIndex(MMU_RE)
  {
  }

  /** The index macros recover every index quadruple given to `mmu_recursive`, and
      the address built is canonical and page aligned. */
  lemma RecursiveIndices(a: bv64, b: bv64, c: bv64, d: bv64)
    requires IsIndex(a) && IsIndex(b) && IsIndex(c) && IsIndex(d)
    ensures var v := Recursive(a, b, c, d);
            && Pml4e(v) == a && Pdpte(v) == b && Pde(v) == c && Pte(v) == d
            && Canonical(v) && Offset(v) == 0
  {
    hide Recursive;
    BitsPml4e(a, b, c, d);
    BitsPdpte(a, b, c, d);
    BitsPde(a, b, c, d);
    BitsPte(a, b, c, d);
    BitsCanonical(a, b, c, d);
    BitsAligned(a, b, c, d);
  }

  /** Every canonical address rebuilds, from its own indices, to itself rounded
      down to a page. */
  lemma RecursiveRebuilds(v: bv64)
    requires Canonical(v)
    ensures Recursive(Pml4e(v), Pdpte(v), Pde(v), Pte(v)) == PageBase(v)
  {
    hide Recursive;
    BitsRebuild(v);
  }

  /** Indexing a page-aligned table stays inside the page. */
  lemma ElementIndices(v: bv64, i: bv64)
    requires Offset(v) == 0 && IsIndex(i)
    ensures var w := Element(v, i);
            && Pml4e(w) == Pml4e(v) && Pdpte(w) == Pdpte(v) && Pde(w) == Pde(v) && Pte(w) == Pte(v)
            && Canonical(w) == Canonical(v) && Offset(w) == i << 3
  {
    hide *;
    ElementPte(v, i);
    ElementPde(v, i);
    ElementPdpte(v, i);
    ElementPml4e(v, i);
    ElementCanonical(v, i);
    ElementOffset(v, i);
  }
}
