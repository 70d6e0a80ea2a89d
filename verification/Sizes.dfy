/** Sizes and addresses as numbers, with the wrap-around of a 64-bit `size_t` written out. */
module Sizes {
  const PAGE_SIZE: nat := 0x1000
  const WORD: nat := 0x1_0000_0000_0000_0000

  /** `ROUND_DOWN` and `ROUND_UP` of a 64-bit size to pages.  The second goes strictly
      above an aligned value and wraps around at the top of the address space. */
  function RoundDown(a: nat): nat {
    a / PAGE_SIZE * PAGE_SIZE
  }

  function RoundUp(a: nat): nat {
    (a + PAGE_SIZE) % WORD / PAGE_SIZE * PAGE_SIZE
  }

  lemma RoundUpIs(a: nat)
    requires a < WORD - PAGE_SIZE
    ensures RoundUp(a) == (a / PAGE_SIZE + 1) * PAGE_SIZE
  {
    assert (a + PAGE_SIZE) / PAGE_SIZE == a / PAGE_SIZE + 1;
  }
}
