/** Numerals: `strrev` and `ulltostr`, in place on a character buffer. */
module Digits {
  import opened Sizes
  import opened Strings
  import opened Words

  function DigitChar(d: nat): char
    requires d < 36
  {
    if d > 9 then ((d - 10) + 'A' as int) as char else (d + '0' as int) as char
  }

  /** What a character is worth as a digit, if it is one. */
  function DigitValue(c: char): Option<nat> {
    if '0' <= c <= '9' then Some(c as int - '0' as int)
    else if 'A' <= c <= 'Z' then Some(c as int - 'A' as int + 10)
    else None
  }

  /** The last `len` digits of `num`, most significant first, without leading zeroes of
      the whole number. */
  function Digits(num: nat, base: nat, len: nat): seq<char>
    requires 2 <= base <= 36
    decreases len
  {
    if num == 0 || len == 0 then [] else Digits(num / base, base, len - 1) + [DigitChar(num % base)]
  }

  /** What `ulltostr` leaves in the buffer. */
  function Numeral(num: nat, base: nat, len: nat): seq<char>
    requires 2 <= base <= 36
  {
    if num == 0 then ['0'] else Digits(num, base, len)
  }

  function Reversed(s: seq<char>): (r: seq<char>)
    ensures |r| == |s| && forall i :: 0 <= i < |s| ==> r[i] == s[|s| - 1 - i]
  {
    seq(|s|, i requires 0 <= i < |s| => s[|s| - 1 - i])
  }

  // ----- what the numeral means -----

  /** The number that a string of digits of the base stands for; nothing if any other
      character is in it. */
  function Decode(s: seq<char>, base: nat): Option<nat> {
    if s == [] then Some(0) else
    var before, d := Decode(s[..|s| - 1], base), DigitValue(s[|s| - 1]);
    if before.None? || d.None? || d.value >= base then None else Some(before.value * base + d.value)
  }

  /** The string is the way to write the number: digits of the base only, at least one, and no
      leading zero. */
  predicate Spells(s: seq<char>, base: nat, num: nat) {
    s != [] && Decode(s, base) == Some(num) && (|s| == 1 || s[0] != '0')
  }

  function Pow(b: nat, n: nat): (p: nat)
    ensures b > 0 ==> p > 0
  {
    if n == 0 then 1 else b * Pow(b, n - 1)
  }

  lemma SignedMultiple(d: int, b: int)
    requires b > 0
    ensures d >= 1 ==> d * b >= b
    ensures d <= -1 ==> d * b <= -b
  {
  }

  /** Division with remainder is unique. */
  lemma DivModUnique(a: int, b: int, q: int, r: int)
    requires b > 0 && a == q * b + r && 0 <= r < b
    ensures a / b == q && a % b == r
  {
    var d := a / b - q;
    assert a == (a / b) * b + a % b;
    assert d * b == r - a % b by { assert (a / b) * b - q * b == d * b; }
    SignedMultiple(d, b);
  }

  lemma DivMod(a: nat, b: nat)
    requires b > 0
    ensures a == (a / b) * b + a % b && 0 <= a % b < b
    ensures a < b ==> a / b == 0 && a % b == a
    ensures a >= b ==> a / b > 0
  {
    if a < b {
      DivModUnique(a, b, 0, a);
    }
  }

  lemma Regroup(u: int, p: int, v: int, b: int, r: int)
    ensures (u * p + v) * b + r == u * (b * p) + (v * b + r)
  {
    assert (u * p + v) * b == (u * p) * b + v * b;
    assert (u * p) * b == u * (b * p);
  }

  lemma DigitBelow(v: int, p: int, b: int, r: int)
    requires 0 <= v < p && 0 <= r < b
    ensures 0 <= v * b + r < b * p
  {
    SignedMultiple(p - v, b);
    assert (p - v) * b == b * p - v * b;
  }

  /** Splitting off the last digit of a remainder. */
  lemma ModStep(num: nat, base: nat, p: nat)
    requires base > 0 && p > 0
    ensures (num / base % p) * base + num % base == num % (base * p)
  {
    var q, r := num / base, num % base;
    DivMod(num, base);
    DivMod(q, p);
    SplitUnique(num, base, p, q, r, q / p, q % p);
  }

  lemma SplitUnique(num: nat, base: nat, p: nat, q: int, r: int, u: int, v: int)
    requires base > 0 && p > 0 && num == q * base + r && q == u * p + v && 0 <= r < base && 0 <= v < p
    ensures v * base + r == num % (base * p)
  {
    Regroup(u, p, v, base, r);
    DigitBelow(v, p, base, r);
    DivModUnique(num, base * p, u, v * base + r);
  }

  lemma DigitRoundTrip(d: nat)
    requires d < 36
    ensures DigitValue(DigitChar(d)) == Some(d) && DigitChar(d) != NUL
    ensures DigitChar(d) == "0123456789ABCDEFGHIJKLMNOPQRSTUVWXYZ"[d]
  {
  }

  lemma DigitUnique(c: char)
    requires DigitValue(c).Some?
    ensures DigitValue(c).value < 36 && DigitChar(DigitValue(c).value) == c
  {
  }

  /** Reading the digits back gives the number modulo `base^len`. */
  lemma {:induction false} DigitsDecode(num: nat, base: nat, len: nat)
    requires 2 <= base <= 36
    ensures Decode(Digits(num, base, len), base) == Some(num % Pow(base, len))
    decreases len
  {
    if num == 0 || len == 0 {
      DecodeNothing(num, base, len);
    } else {
      DigitsDecode(num / base, base, len - 1);
      hide *;
      DigitRoundTrip(num % base);
      DigitsLast(num, base, len);
      DecodeLast(Digits(num / base, base, len - 1), DigitChar(num % base), base);
      PowUnfold(base, len - 1);
      ModStep(num, base, Pow(base, len - 1));
    }
  }

  lemma {:induction false} DecodeNothing(num: nat, base: nat, len: nat)
    requires 2 <= base <= 36 && (num == 0 || len == 0)
    ensures Decode(Digits(num, base, len), base) == Some(num % Pow(base, len))
  {
    assert Pow(base, len) > 0 && (len == 0 ==> Pow(base, len) == 1);
    hide Pow;
    if num == 0 {
      DivModUnique(0, Pow(base, len), 0, 0);
    }
  }

  lemma {:induction false} DigitsLast(num: nat, base: nat, len: nat)
    requires 2 <= base <= 36 && num > 0 && len > 0
    ensures Digits(num, base, len) == Digits(num / base, base, len - 1) + [DigitChar(num % base)]
  {
  }

  lemma {:induction false} DecodeLast(s: seq<char>, c: char, base: nat)
    requires Decode(s, base).Some? && DigitValue(c).Some? && DigitValue(c).value < base
    ensures Decode(s + [c], base) == Some(Decode(s, base).value * base + DigitValue(c).value)
  {
    assert (s + [c])[..|s|] == s;
  }

  /** The numeral has no NUL, at most `len` digits, and at least one. */
  lemma {:induction false} DigitsShape(num: nat, base: nat, len: nat)
    requires 2 <= base <= 36
    ensures |Digits(num, base, len)| <= len
    ensures num > 0 && len > 0 ==> |Digits(num, base, len)| > 0
    ensures forall i :: 0 <= i < |Digits(num, base, len)| ==> Digits(num, base, len)[i] != NUL
    decreases len
  {
    if num != 0 && len != 0 {
      DigitsShape(num / base, base, len - 1);
      DigitRoundTrip(num % base);
    }
  }

  /** Every character of the numeral is a digit of the base. */
  lemma {:induction false} NumeralDigits(num: nat, base: nat, len: nat)
    requires 2 <= base <= 36
    ensures forall c :: c in Numeral(num, base, len) ==> DigitValue(c).Some? && DigitValue(c).value < base
    ensures forall c :: c in Digits(num, base, len) ==> DigitValue(c).Some? && DigitValue(c).value < base
    decreases len
  {
    if num != 0 && len != 0 {
      NumeralDigits(num / base, base, len - 1);
      DigitRoundTrip(num % base);
    }
  }

  lemma PowStep(base: nat, q: nat, r: nat, k: nat)
    requires k >= 1 && Pow(base, k - 1) <= q < Pow(base, k) && r < base
    ensures Pow(base, k) <= q * base + r < Pow(base, k + 1)
  {
    assert Pow(base, k) == base * Pow(base, k - 1) && Pow(base, k + 1) == base * Pow(base, k);
    hide Pow;
    MulMonotone(base, Pow(base, k - 1), q);
    MulMonotone(base, q + 1, Pow(base, k));
    assert base * (q + 1) == q * base + base && base * q == q * base;
  }

  lemma {:induction false} OneDigit(num: nat, base: nat, len: nat)
    requires 2 <= base <= 36 && 0 < num < base && len > 0
    ensures Digits(num, base, len) == [DigitChar(num)] && DigitChar(num) != '0'
    ensures Pow(base, 0) <= num < Pow(base, 1)
  {
    DivMod(num, base);
    assert Digits(0, base, len - 1) == [];
    PowUnfold(base, 0);
  }

  /** When `len` digits suffice, the first one is not a zero, and there are as many as the
      number has. */
  lemma {:induction false} DigitsExact(num: nat, base: nat, len: nat)
    requires 2 <= base <= 36 && 0 < num < Pow(base, len)
    ensures var s := Digits(num, base, len); |s| > 0 && s[0] != '0' && Pow(base, |s| - 1) <= num < Pow(base, |s|)
    decreases len
  {
    assert len > 0;
    PowUnfold(base, len - 1);
    hide Pow, Digits;
    var q := num / base;
    DivMod(num, base);
    if num < base {
      OneDigit(num, base, len);
    } else {
      QuotientBound(q, base, Pow(base, len - 1));
      DigitsExact(q, base, len - 1);
      DigitsUnfold(num, base, len);
      PowStep(base, q, num % base, |Digits(q, base, len - 1)|);
    }
  }

  lemma QuotientBound(q: nat, b: nat, p: nat)
    requires b > 0 && q * b < b * p
    ensures q < p
  {
    if q >= p { MulMonotone(b, p, q); }
  }

  lemma MulMonotone(b: nat, x: nat, y: nat)
    requires x <= y
    ensures b * x <= b * y
  {
  }

  lemma ModSmall(num: nat, p: nat)
    requires p > 0
    ensures num % p == num <==> num < p
  {
    assert num % p < p;
    if num < p {
      DivModUnique(num, p, 0, num);
    }
  }

  lemma {:induction false} DecodeZero(base: nat)
    requires base > 0
    ensures Decode(['0'], base) == Some(0)
  {
    assert ['0'][..0] == [];
    assert Decode([], base) == Some(0);
  }

  /** The numeral is the number written out exactly when that takes no more than `len` digits,
      and then it has as many digits as the number. */
  lemma NumeralExact(num: nat, base: nat, len: nat)
    requires 2 <= base <= 36 && len > 0
    ensures Spells(Numeral(num, base, len), base, num) <==> num < Pow(base, len)
    ensures num < Pow(base, len) || Decode(Numeral(num, base, len), base) == Some(num % Pow(base, len))
    ensures 0 < num < Pow(base, len) ==>
              var s := Numeral(num, base, len); |s| > 0 && s[0] != '0' && Pow(base, |s| - 1) <= num < Pow(base, |s|)
  {
    assert Pow(base, len) > 0;
    hide Pow, Decode, Digits;
    if num == 0 {
      DecodeZero(base);
    } else {
      DigitsDecode(num, base, len);
      ModSmall(num, Pow(base, len));
      if num < Pow(base, len) {
        DigitsExact(num, base, len);
      }
    }
  }

  /** A string without a leading zero is made of the digits of what it stands for. */
  lemma {:induction false} DecodedDigits(s: seq<char>, base: nat, len: nat)
    requires 2 <= base <= 36 && |s| <= len && Decode(s, base).Some? && (s == [] || s[0] != '0')
    ensures var num := Decode(s, base).value; Digits(num, base, len) == s && (num == 0 <==> s == [])
    decreases |s|
  {
    if s != [] {
      var t, c := s[..|s| - 1], s[|s| - 1];
      DecodedDigits(t, base, len - 1);
      var v, d := Decode(t, base).value, DigitValue(c).value;
      assert s == t + [c] && Decode(s, base).value == v * base + d && d < base && (t == [] ==> d > 0);
      hide *;
      DigitUnique(c);
      SignedMultiple(v, base);
      DivModUnique(v * base + d, base, v, d);
      DigitsUnfold(v * base + d, base, len);
    }
  }

  /** There is only one way to write a number, and the numeral is it. */
  lemma {:induction false} SpelledOnce(s: seq<char>, base: nat, num: nat, len: nat)
    requires 2 <= base <= 36 && |s| <= len && Spells(s, base, num)
    ensures Numeral(num, base, len) == s
  {
    assert s[0] == '0' && |s| == 1 ==> s == ['0'];
    hide Decode;
    DecodeZero(base);
    if s[0] != '0' {
      DecodedDigits(s, base, len);
    }
  }

  lemma PowUnfold(b: nat, n: nat)
    ensures Pow(b, n + 1) == b * Pow(b, n)
  {
  }

  lemma PowTimes4(b: nat, n: nat)
    ensures Pow(b, n + 4) == b * (b * (b * (b * Pow(b, n))))
  {
    hide Pow;
    PowUnfold(b, n);
    PowUnfold(b, n + 1);
    PowUnfold(b, n + 2);
    PowUnfold(b, n + 3);
  }

  lemma Powers()
    ensures Pow(16, 16) == 0x1_0000_0000_0000_0000 && Pow(8, 16) == 0x1_0000_0000_0000
    ensures Pow(10, 20) > 0x1_0000_0000_0000_0000
  {
    assert Pow(16, 0) == 1 && Pow(10, 0) == 1 && Pow(8, 0) == 1;
    hide Pow;
    PowTimes4(16, 0); PowTimes4(16, 4); PowTimes4(16, 8); PowTimes4(16, 12);
    PowTimes4(10, 0); PowTimes4(10, 4); PowTimes4(10, 8); PowTimes4(10, 12); PowTimes4(10, 16);
    PowTimes4(8, 0); PowTimes4(8, 4); PowTimes4(8, 8); PowTimes4(8, 12);
  }

  /** No 64-bit number is cut in base 16 with 16 digits or in base 10 with 20; in base 8
      with 16 digits exactly the numbers below 2^48 are whole, and of the others the last 48
      bits are written. */
  lemma SixtyFourBits(num: nat)
    requires num < WORD
    ensures Spells(Numeral(num, 16, 16), 16, num)
    ensures Spells(Numeral(num, 10, 20), 10, num)
    ensures Spells(Numeral(num, 8, 16), 8, num) <==> num < 0x1_0000_0000_0000
    ensures Decode(Numeral(num, 8, 16), 8) == Some(num % 0x1_0000_0000_0000)
  {
    assert WORD == 0x1_0000_0000_0000_0000;
    hide *;
    Powers();
    NumeralExact(num, 16, 16);
    NumeralExact(num, 10, 20);
    NumeralExact(num, 8, 16);
    SpelledDecodes(Numeral(num, 8, 16), 8, num);
    if num < 0x1_0000_0000_0000 {
      ModSmall(num, 0x1_0000_0000_0000);
    }
  }

  lemma {:induction false} SpelledDecodes(s: seq<char>, base: nat, num: nat)
    ensures Spells(s, base, num) ==> Decode(s, base) == Some(num)
  {
  }

  // ----- in place -----

  /** `strrev`, on a string that is not empty: on the empty string the first pass of the
      loop swaps with the byte in front of it. */
  method StrRev(s: array<char>, ghost n: nat) returns (r: nat)
    requires n > 0 && IsLength(s[..], n)
    modifies s
    ensures r == n
    ensures s[..n] == Reversed(old(s[..n]))
    ensures forall j :: n <= j < s.Length ==> s[j] == old(s[j])
  {
    var len := StrLen(s[..]);
    assert len == n;
    var length := len - 1;
    var i := 0;
    while i <= length / 2
      invariant 0 <= i <= length / 2 + 1
      invariant forall k :: 0 <= k < n ==> s[k] == if k < i || k > length - i then old(s[length - k]) else old(s[k])
      invariant forall k :: n <= k < s.Length ==> s[k] == old(s[k])
    {
      var temp := s[i];
      s[i] := s[length - i];
      s[length - i] := temp;
      i := i + 1;
    }
    r := length + 1;
  }

  lemma ReversedTwice(s: seq<char>)
    ensures Reversed(Reversed(s)) == s
  {
  }

  /** The loop of `ulltostr`: the digits come out least significant first. */
  method WriteDigits(num: nat, buffer: array<char>, base: nat, len: nat) returns (i: nat)
    requires 2 <= base <= 36 && |Digits(num, base, len)| < buffer.Length
    modifies buffer
    ensures i == |Digits(num, base, len)| && buffer[..i] == Reversed(Digits(num, base, len))
    ensures forall j :: i <= j < buffer.Length ==> buffer[j] == old(buffer[j])
  {
    hide Digits, DigitChar;
    i := 0;
    var n: nat, left: nat := num, len;
    ghost var whole := Digits(num, base, len);
    while n != 0 && left > 0
      invariant i <= |whole| < buffer.Length
      invariant Digits(n, base, left) == whole[..|whole| - i]
      invariant forall k :: 0 <= k < i ==> buffer[k] == whole[|whole| - 1 - k]
      invariant forall k :: i <= k < buffer.Length ==> buffer[k] == old(buffer[k])
      decreases left
    {
      var remainder := n % base;
      DigitsUnfold(n, base, left);
      assert whole[..|whole| - i][..|whole| - i - 1] == whole[..|whole| - (i + 1)];
      buffer[i] := DigitChar(remainder);
      i := i + 1;
      n := n / base;
      left := left - 1;
    }
    DigitsEnd(n, base, left);
  }

  lemma {:induction false} DigitsEnd(n: nat, base: nat, left: nat)
    requires 2 <= base <= 36 && (n == 0 || left == 0)
    ensures Digits(n, base, left) == []
  {
  }

  lemma DigitsUnfold(n: nat, base: nat, left: nat)
    requires 2 <= base <= 36 && n > 0 && left > 0
    ensures var s := Digits(n, base, left);
            |s| > 0 && s[|s| - 1] == DigitChar(n % base) && s[..|s| - 1] == Digits(n / base, base, left - 1)
  {
  }

  /** `ulltostr`. */
  method Ulltostr(num: nat, buffer: array<char>, base: nat, len: nat) returns (r: nat)
    requires 2 <= base <= 36 && len >= 1 && |Numeral(num, base, len)| < buffer.Length
    modifies buffer
    ensures r == |Numeral(num, base, len)|
    ensures buffer[..r] == Numeral(num, base, len) && buffer[r] == NUL
    ensures forall j :: r < j < buffer.Length ==> buffer[j] == old(buffer[j])
  {
    if num == 0 {
      buffer[0] := '0';
      buffer[1] := NUL;
      return 1;
    }
    hide Digits, Reversed;
    ghost var whole := Digits(num, base, len);
    DigitsShape(num, base, len);
    var i := WriteDigits(num, buffer, base, len);
    assert buffer[..i] == Reversed(whole);
    buffer[i] := NUL;
    assert buffer[..i] == Reversed(whole);
    ReversedKeeps(whole, buffer[..i]);
    r := StrRev(buffer, i);
    ReversedTwice(whole);
  }

  lemma ReversedKeeps(s: seq<char>, t: seq<char>)
    requires t == Reversed(s) && forall i :: 0 <= i < |s| ==> s[i] != NUL
    ensures forall i :: 0 <= i < |t| ==> t[i] != NUL
  {
  }
}
