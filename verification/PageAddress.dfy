/** The `address` field of a page struct: the index of the page times the page size, as
    a machine word.  Indices are numbers in the allocator and words in the tables; this is
    the bridge, built from binary digits. */
module PageAddress {
  import opened Tables
  import opened Rings

  function Bit(n: nat): bv64 {
    if n % 2 == 1 then 1 else 0
  }

  /** The word whose binary digits are those of `n`. */
  function ToWord(n: nat): bv64 {
    if n == 0 then 0 else (ToWord(n / 2) << 1) | Bit(n)
  }

  function Address(page: nat): bv64 {
    ToWord(page) << 12
  }

  /** The word with zeroes in the lowest `k` places. */
  ghost function High(k: nat): bv64 {
    if k == 0 then 0xFFFF_FFFF_FFFF_FFFF else High(k - 1) << 1
  }

  ghost function Pow2(k: nat): nat {
    if k == 0 then 1 else 2 * Pow2(k - 1)
  }

  lemma BitsShift(x: bv64, h: bv64, b: bv64)
    requires x & h == 0 && b <= 1
    ensures ((x << 1) | b) & (h << 1) == 0
  {
  }

  lemma BitBound(n: nat)
    ensures Bit(n) <= 1
  {
  }

  lemma ToWordStep(n: nat, k: nat)
    requires n > 0 && k > 0
    ensures ToWord(n) == (ToWord(n / 2) << 1) | Bit(n)
    ensures High(k) == High(k - 1) << 1
  {
    hide Bit;
  }

  lemma {:induction false} ZeroFits(k: nat)
    ensures ToWord(0) & High(k) == 0
  {
  }

  lemma {:induction false} ToWordFits(n: nat, k: nat)
    requires n < Pow2(k)
    ensures ToWord(n) & High(k) == 0
  {
    if n == 0 {
      ZeroFits(k);
    } else {
      assert k > 0 && n / 2 < Pow2(k - 1);
      hide ToWord, High, Bit;
      ToWordFits(n / 2, k - 1);
      BitBound(n);
      BitsShift(ToWord(n / 2), High(k - 1), Bit(n));
      ToWordStep(n, k);
    }
  }

  lemma HighUnfold(k: nat)
    ensures High(k + 1) == High(k) << 1 && Pow2(k + 1) == 2 * Pow2(k)
  {
  }

  lemma BitsShiftTwice(h: bv64)
    ensures (h << 1) << 1 == h << 2
  {
  }

  lemma BitsShiftFour(h: bv64)
    ensures (h << 2) << 2 == h << 4
  {
  }

  lemma HighTwo(k: nat)
    ensures High(k + 2) == High(k) << 2 && Pow2(k + 2) == 4 * Pow2(k)
  {
    hide High, Pow2;
    HighUnfold(k);
    HighUnfold(k + 1);
    BitsShiftTwice(High(k));
  }

  lemma HighStep(k: nat)
    ensures High(k + 4) == High(k) << 4 && Pow2(k + 4) == 16 * Pow2(k)
  {
    hide High, Pow2;
    HighTwo(k);
    HighTwo(k + 2);
    BitsShiftFour(High(k));
  }

  lemma High40()
    ensures High(40) == 0xFFFF_FF00_0000_0000 && Pow2(40) == 0x100_0000_0000
  {
    assert High(0) == 0xFFFF_FFFF_FFFF_FFFF && Pow2(0) == 1;
    hide High, Pow2;
    HighStep(0);
    HighStep(4);
    HighStep(8);
    HighStep(12);
    HighStep(16);
    HighStep(20);
    HighStep(24);
    HighStep(28);
    HighStep(32);
    HighStep(36);
  }

  lemma BitsHalf(x: bv64, b: bv64)
    requires x & 0xFFFF_FF00_0000_0000 == 0 && b <= 1
    ensures ((x << 1) | b) >> 1 == x
  {
  }

  lemma BitsLowest(x: bv64, b: bv64)
    requires b <= 1
    ensures ((x << 1) | b) & 1 == b
  {
  }

  lemma {:induction false} WordFits(n: nat)
    requires n < 0x100_0000_0000
    ensures ToWord(n) & 0xFFFF_FF00_0000_0000 == 0
  {
    hide ToWord, High;
    High40();
    ToWordFits(n, 40);
  }

  lemma {:induction false} ToWordDigits(n: nat)
    ensures ToWord(n) == (ToWord(n / 2) << 1) | Bit(n)
  {
  }

  lemma {:induction false} HalfOf(n: nat)
    requires n < 0x100_0000_0000
    ensures ToWord(n) >> 1 == ToWord(n / 2)
  {
    hide *;
    WordFits(n / 2);
    ToWordDigits(n);
    BitBound(n);
    BitsHalf(ToWord(n / 2), Bit(n));
  }

  lemma {:induction false} LowestOf(n: nat)
    ensures ToWord(n) & 1 == Bit(n)
  {
    hide *;
    ToWordDigits(n);
    BitBound(n);
    BitsLowest(ToWord(n / 2), Bit(n));
  }

  lemma BitEqual(m: nat, n: nat)
    requires Bit(m) == Bit(n)
    ensures m % 2 == n % 2
  {
  }

  lemma {:induction false} ToWordInjective(m: nat, n: nat)
    requires m < 0x100_0000_0000 && n < 0x100_0000_0000 && ToWord(m) == ToWord(n)
    ensures m == n
    decreases m + n
  {
    hide ToWord, Bit;
    if m + n > 0 {
      HalfOf(m);
      HalfOf(n);
      LowestOf(m);
      LowestOf(n);
      BitEqual(m, n);
      ToWordInjective(m / 2, n / 2);
    }
  }

  // ----- splitting a number at a binary place -----

  ghost function Shl(x: bv64, k: nat): bv64 {
    if k == 0 then x else Shl(x, k - 1) << 1
  }

  lemma ShlUnfold(x: bv64, k: nat)
    ensures Shl(x, k + 1) == Shl(x, k) << 1 && Shl(x, 0) == x
  {
  }

  lemma BitsSplit(s: bv64, c: bv64, b: bv64)
    ensures ((s | c) << 1) | b == (s << 1) | ((c << 1) | b)
  {
  }

  lemma BitsOrZero(x: bv64)
    ensures x | 0 == x
  {
  }

  lemma Pow2Unfold(k: nat)
    requires k > 0
    ensures Pow2(k) == 2 * Pow2(k - 1)
  {
  }

  lemma SplitHalves(a: nat, c: nat, k: nat, n: nat)
    requires k > 0 && n == a * Pow2(k) + c && c < Pow2(k)
    ensures n / 2 == a * Pow2(k - 1) + c / 2 && n % 2 == c % 2 && c / 2 < Pow2(k - 1)
  {
    hide *;
    Pow2Unfold(k);
    assert a * (2 * Pow2(k - 1)) == 2 * (a * Pow2(k - 1));
  }

  lemma SameBit(m: nat, n: nat)
    requires m % 2 == n % 2
    ensures Bit(m) == Bit(n)
  {
  }

  lemma ZeroWord()
    ensures ToWord(0) == 0
  {
  }

  lemma NothingSplit(a: nat, c: nat)
    requires c < Pow2(0)
    ensures ToWord(a * Pow2(0) + c) == Shl(ToWord(a), 0) | ToWord(c)
  {
    hide ToWord;
    ZeroWord();
    BitsOrZero(ToWord(a));
  }

  /** The places of `a` above those of `c`. */
  lemma {:induction false} ToWordSplit(a: nat, c: nat, k: nat)
    requires c < Pow2(k)
    ensures ToWord(a * Pow2(k) + c) == Shl(ToWord(a), k) | ToWord(c)
  {
    hide *;
    if k == 0 {
      NothingSplit(a, c);
    } else {
      var n := a * Pow2(k) + c;
      ShlUnfold(ToWord(a), k - 1);
      SplitHalves(a, c, k, n);
      ToWordDigits(n);
      ToWordDigits(c);
      SameBit(n, c);
      ToWordSplit(a, c / 2, k - 1);
      BitsSplit(Shl(ToWord(a), k - 1), ToWord(c / 2), Bit(c));
    }
  }

  lemma ShlFour(x: bv64, k: nat)
    ensures Shl(x, k + 4) == Shl(x, k) << 4
  {
    hide Shl;
    ShlUnfold(x, k);
    ShlUnfold(x, k + 1);
    ShlUnfold(x, k + 2);
    ShlUnfold(x, k + 3);
    BitsShiftTwice(Shl(x, k));
    BitsShiftTwice(Shl(x, k + 2));
    BitsShiftFour(Shl(x, k));
  }

  lemma BitsShift8(x: bv64)
    ensures (x << 4) << 4 == x << 8
  {
  }

  lemma BitsShift9(x: bv64)
    ensures (x << 8) << 1 == x << 9
  {
  }

  lemma BitsShift12(x: bv64)
    ensures (x << 8) << 4 == x << 12
  {
  }

  lemma BitsShift21(x: bv64)
    ensures (x << 12) << 9 == x << 21
  {
  }

  lemma Shl8(x: bv64, k: nat)
    ensures Shl(x, k + 8) == Shl(x, k) << 8
  {
    hide *;
    ShlFour(x, k);
    ShlFour(x, k + 4);
    BitsShift8(Shl(x, k));
  }

  lemma Shl9(x: bv64, k: nat)
    ensures Shl(x, k + 9) == Shl(x, k) << 9
  {
    hide *;
    Shl8(x, k);
    ShlUnfold(x, k + 8);
    BitsShift9(Shl(x, k));
  }

  lemma BitsShift10(x: bv64)
    ensures (x << 9) << 1 == x << 10
  {
  }

  lemma Shl10(x: bv64, k: nat)
    ensures Shl(x, k + 10) == Shl(x, k) << 10
  {
    hide *;
    Shl9(x, k);
    ShlUnfold(x, k + 9);
    BitsShift10(Shl(x, k));
  }

  lemma Shl12(x: bv64, k: nat)
    ensures Shl(x, k + 12) == Shl(x, k) << 12
  {
    hide *;
    Shl8(x, k);
    ShlFour(x, k + 8);
    BitsShift12(Shl(x, k));
  }

  lemma {:induction false} Shl21(x: bv64)
    ensures Shl(x, 21) == x << 21
  {
    hide *;
    ShlUnfold(x, 0);
    Shl12(x, 0);
    Shl9(x, 12);
    BitsShift21(x);
  }

  lemma HighTable()
    ensures High(9) == 0xFFFF_FFFF_FFFF_FE00 && Pow2(9) == 0x200
    ensures High(12) == 0xFFFF_FFFF_FFFF_F000 && Pow2(12) == 0x1000
    ensures High(21) == 0xFFFF_FFFF_FFE0_0000 && Pow2(21) == 0x20_0000
  {
    assert High(0) == 0xFFFF_FFFF_FFFF_FFFF && Pow2(0) == 1;
    hide High, Pow2;
    HighStep(0);
    HighStep(4);
    HighUnfold(8);
    HighStep(8);
    HighStep(12);
    HighStep(16);
    HighUnfold(20);
  }

  /** Splitting after 9, 12 or 21 places, as table indices, pages and large pages do. */
  lemma SplitAt9(a: nat, c: nat)
    requires c < 0x200
    ensures ToWord(a * 0x200 + c) == (ToWord(a) << 9) | ToWord(c)
    ensures ToWord(c) & 0xFFFF_FFFF_FFFF_FE00 == 0
  {
    hide ToWord, High, Pow2, Shl;
    HighTable();
    ToWordSplit(a, c, 9);
    ShlUnfold(ToWord(a), 0);
    Shl9(ToWord(a), 0);
    ToWordFits(c, 9);
  }

  lemma SplitAt10(a: nat, c: nat)
    requires c < 0x400
    ensures ToWord(a * 0x400 + c) == (ToWord(a) << 10) | ToWord(c)
  {
    hide ToWord, High, Pow2, Shl;
    HighTable();
    HighUnfold(9);
    ToWordSplit(a, c, 10);
    ShlUnfold(ToWord(a), 0);
    Shl10(ToWord(a), 0);
  }

  lemma SplitAt12(a: nat, c: nat)
    requires c < 0x1000
    ensures ToWord(a * 0x1000 + c) == (ToWord(a) << 12) | ToWord(c)
    ensures ToWord(c) & 0xFFFF_FFFF_FFFF_F000 == 0
  {
    hide ToWord, High, Pow2, Shl;
    HighTable();
    ToWordSplit(a, c, 12);
    ShlUnfold(ToWord(a), 0);
    Shl12(ToWord(a), 0);
    ToWordFits(c, 12);
  }

  lemma SplitAt21(a: nat, c: nat)
    requires c < 0x20_0000
    ensures ToWord(a * 0x20_0000 + c) == (ToWord(a) << 21) | ToWord(c)
    ensures ToWord(c) & 0xFFFF_FFFF_FFE0_0000 == 0
  {
    hide ToWord, High, Pow2, Shl;
    HighTable();
    ToWordSplit(a, c, 21);
    Shl21(ToWord(a));
    ToWordFits(c, 21);
  }

  // ----- the address of a page -----

  lemma BitsAddress(x: bv64)
    requires x & 0xFFFF_FF00_0000_0000 == 0
    ensures (x << 12) >> 12 == x
  {
  }

  lemma BitsAddressFrame(x: bv64)
    requires x & 0xFFFF_FF00_0000_0000 == 0
    ensures (x << 12) & 0x000F_FFFF_FFFF_F000 == x << 12
  {
  }

  lemma AddressIsFrame(page: nat)
    requires page < 0x100_0000_0000
    ensures IsFrame(Address(page))
  {
    hide ToWord;
    WordFits(page);
    BitsAddressFrame(ToWord(page));
  }

  /** Below 2^52 bytes, different pages have different addresses. */
  lemma AddressInjective(m: nat, n: nat)
    requires m < 0x100_0000_0000 && n < 0x100_0000_0000 && Address(m) == Address(n)
    ensures m == n
  {
    hide ToWord;
    WordFits(m);
    WordFits(n);
    BitsAddress(ToWord(m));
    BitsAddress(ToWord(n));
    ToWordInjective(m, n);
  }

  function Addresses(pages: seq<nat>): (r: seq<bv64>)
    ensures |r| == |pages| && forall i :: 0 <= i < |pages| ==> r[i] == Address(pages[i])
  {
    seq(|pages|, i requires 0 <= i < |pages| => Address(pages[i]))
  }

  /** The frames of distinct pages are distinct frames. */
  lemma AddressesDistinct(pages: seq<nat>)
    requires Distinct(pages) && forall i :: 0 <= i < |pages| ==> pages[i] < 0x100_0000_0000
    ensures Distinct(Addresses(pages)) && forall f :: f in Addresses(pages) ==> IsFrame(f)
  {
    hide Address, IsFrame;
    forall i, j | 0 <= i < j < |pages| ensures Addresses(pages)[i] != Addresses(pages)[j] {
      if Address(pages[i]) == Address(pages[j]) {
        AddressInjective(pages[i], pages[j]);
      }
    }
    forall f | f in Addresses(pages) ensures IsFrame(f) {
      var i :| 0 <= i < |pages| && Addresses(pages)[i] == f;
      AddressIsFrame(pages[i]);
    }
  }
}
