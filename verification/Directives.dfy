/** What each directive of `vsnprintf` prints, in terms of the argument alone: numbers in their
    base, characters, signs, prefixes and widths. */
module Directives {
  import opened Sizes
  import opened Words
  import opened Digits
  import opened Format

  // ----- one directive after another -----

  /** A conversion character ends the options. */
  lemma {:induction false} ParseEnd(c: char, rest: seq<char>, flags: Flags, pad: nat)
    requires IsConversion(c)
    ensures WellFormedOptions([c] + rest) && Parse([c] + rest, flags, pad) == Options([c] + rest, flags, pad)
  {
  }

  lemma {:induction false} ParseMark(f: seq<char>, flags: Flags, pad: nat)
    requires WellFormedOptions(f)
    ensures WellFormedOptions(['#'] + f) && WellFormedOptions(['+'] + f)
    ensures Parse(['#'] + f, flags, pad) == Parse(f, flags.(prefix := true, padded := true), 16)
    ensures Parse(['+'] + f, flags, pad) == Parse(f, flags.(sign := true), pad)
  {
    assert (['#'] + f)[1..] == f && (['+'] + f)[1..] == f;
  }

  predicate AllDigits(w: seq<char>) {
    forall i :: 0 <= i < |w| ==> IsDigit(w[i])
  }

  lemma {:induction false} DecodeMore(s: seq<char>, c: char)
    requires Decode(s, 10).Some? && IsDigit(c)
    ensures Decode(s + [c], 10) == Some(Decode(s, 10).value * 10 + (c as int - '0' as int))
  {
    assert (s + [c])[..|s|] == s;
  }

  lemma WrapTenfold(v: nat, d: nat)
    ensures (v % WORD * 10 + d) % WORD == (v * 10 + d) % WORD
  {
    assert v == v / WORD * WORD + v % WORD;
    assert v * 10 + d == v / WORD * 10 * WORD + (v % WORD * 10 + d);
  }

  /** A run of digits is read as a decimal number, modulo 2^64. */
  lemma {:induction false} NumberReads(done: seq<char>, w: seq<char>, f: seq<char>)
    requires AllDigits(w) && Decode(done, 10).Some? && (f == [] || !IsDigit(f[0]))
    ensures Decode(done + w, 10).Some?
    ensures Number(w + f, Decode(done, 10).value % WORD) == (Decode(done + w, 10).value % WORD, f)
    decreases |w|
  {
    if w == [] {
      assert w + f == f && done + w == done;
    } else {
      assert AllDigits(w[1..]) && IsDigit(w[0]);
      NumberStep(done, w, f);
      hide Decode, Number, AllDigits, IsDigit;
      DecodeMore(done, w[0]);
      NumberReads(done + [w[0]], w[1..], f);
      assert done + [w[0]] + w[1..] == done + w;
    }
  }

  lemma {:induction false} NumberStep(done: seq<char>, w: seq<char>, f: seq<char>)
    requires w != [] && IsDigit(w[0]) && Decode(done, 10).Some?
    ensures Decode(done + [w[0]], 10).Some?
    ensures Number(w + f, Decode(done, 10).value % WORD) == Number(w[1..] + f, Decode(done + [w[0]], 10).value % WORD)
  {
    DecodeMore(done, w[0]);
    WrapTenfold(Decode(done, 10).value, w[0] as int - '0' as int);
    assert (w + f)[1..] == w[1..] + f && (w + f)[0] == w[0];
    hide Decode;
  }

  /** The number that a width is. */
  function Width(w: seq<char>): nat {
    if Decode(w, 10).Some? then Decode(w, 10).value % WORD else 0
  }

  lemma {:induction false} ParseDigits(w: seq<char>, c: char, rest: seq<char>, flags: Flags, pad: nat)
    requires w != [] && AllDigits(w) && IsConversion(c)
    ensures WellFormedOptions(w + [c] + rest)
    ensures Parse(w + [c] + rest, flags, pad) == Options([c] + rest, flags.(padded := true), Width(w))
  {
    var f := [c] + rest;
    assert w + [c] + rest == w + f && [] + w == w && Decode([], 10) == Some(0);
    NumberReads([], w, f);
    ParseEnd(c, rest, flags.(padded := true), Width(w));
  }

  /** A directive with its argument, and the rest after it with what the flags are then. */
  lemma {:induction false} DirectiveFirst(o: seq<char>, c: char, rest: seq<char>, a: Arg, args: seq<Arg>, flags: Flags,
                                          pad: nat, flags': Flags, pad': nat, size: nat)
    requires IsConversion(c) && TakesArgument(c) && Usable(a, size) && WellFormed(rest, args, size)
    requires WellFormedOptions(o + [c] + rest)
    requires Parse(o + [c] + rest, flags, pad) == Options([c] + rest, flags', pad')
    ensures WellFormed(['%'] + o + [c] + rest, [a] + args, size)
    ensures Rendered(['%'] + o + [c] + rest, [a] + args, flags, pad, size) ==
            Piece(c, a, flags', pad') + Rendered(rest, args, FlagsAfter(c, flags'), pad', size)
  {
    var f := o + [c] + rest;
    assert ['%'] + o + [c] + rest == ['%'] + f && (['%'] + f)[1..] == f;
    assert ([c] + rest)[1..] == rest && ([a] + args)[1..] == args;
    ParseSame(f, NO_FLAGS, 0, flags, pad);
    hide Parse, WellFormedOptions, Piece, FlagsAfter, Usable, IsConversion;
  }

  /** Twice the room, and the output is what the pieces are. */
  lemma {:induction false} Uncut(f: seq<char>, args: seq<Arg>, size: nat)
    requires WellFormed(f, args, size) && size > 0 && 2 * |Rendered(f, args, NO_FLAGS, 0, size)| <= size
    ensures Output(f, args, NO_FLAGS, 0, [], size) == Rendered(f, args, NO_FLAGS, 0, size)
  {
    hide *;
    TwiceTheRoom(f, args, NO_FLAGS, 0, 0, size);
    UncutIffAllFit(f, args, NO_FLAGS, 0, [], size);
  }

  /** A format that is a single directive. */
  lemma {:induction false} Lone(o: seq<char>, c: char, a: Arg, flags: Flags, pad: nat, size: nat)
    requires IsConversion(c) && TakesArgument(c) && Usable(a, size)
    requires WellFormedOptions(o + [c]) && Parse(o + [c], NO_FLAGS, 0) == Options([c], flags, pad)
    requires 2 * |Piece(c, a, flags, pad)| <= size
    ensures WellFormed(['%'] + o + [c], [a], size)
    ensures Output(['%'] + o + [c], [a], NO_FLAGS, 0, [], size) == Piece(c, a, flags, pad)
  {
    assert o + [c] + [] == o + [c] && [c] + [] == [c] && [a] + [] == [a] && ['%'] + o + [c] + [] == ['%'] + o + [c];
    assert WellFormed([], [], size) && Rendered([], [], FlagsAfter(c, flags), pad, size) == [] && size > 0;
    hide *;
    DirectiveFirst(o, c, [], a, [], NO_FLAGS, 0, flags, pad, size);
    Uncut(['%'] + o + [c], [a], size);
  }

  // ----- numbers -----

  /** Two ways to write a number are the same. */
  lemma SpellsUnique(s: seq<char>, t: seq<char>, base: nat, num: nat)
    requires 2 <= base <= 36 && Spells(s, base, num) && Spells(t, base, num)
    ensures s == t
  {
    hide *;
    SpelledOnce(s, base, num, |s| + |t|);
    SpelledOnce(t, base, num, |s| + |t|);
  }

  lemma DecimalBody(c: char, a: Arg, s: seq<char>)
    requires c == 'd' || c == 'u' || c == 'i'
    requires a.value < WORD && Spells(s, 10, a.value)
    ensures BodyText(c, a) == s && |s| <= 20
  {
    hide Spells, Numeral;
    SixtyFourBits(a.value);
    SpellsUnique(s, Numeral(a.value, 10, 20), 10, a.value);
    NumeralShape(a.value, 10, 20);
  }

  lemma HexBody(c: char, a: Arg, s: seq<char>)
    requires c == 'x' || c == 'X' || c == 'l'
    requires a.value < WORD && Spells(s, 16, a.value)
    ensures BodyText(c, a) == s && |s| <= 16
  {
    hide Spells, Numeral;
    SixtyFourBits(a.value);
    SpellsUnique(s, Numeral(a.value, 16, 16), 16, a.value);
    NumeralShape(a.value, 16, 16);
  }

  lemma OctalBody(a: Arg, s: seq<char>)
    requires a.value < 0x1_0000_0000_0000 && Spells(s, 8, a.value)
    ensures BodyText('o', a) == s && |s| <= 16
  {
    hide Spells, Numeral;
    SixtyFourBits(a.value);
    SpellsUnique(s, Numeral(a.value, 8, 16), 8, a.value);
    NumeralShape(a.value, 8, 16);
  }

  // ----- the four kinds of options -----

  lemma {:induction false} LonePlain(c: char, a: Arg, size: nat)
    requires IsConversion(c) && TakesArgument(c) && Usable(a, size) && 2 * |Piece(c, a, NO_FLAGS, 0)| <= size
    ensures WellFormed(['%', c], [a], size)
    ensures Output(['%', c], [a], NO_FLAGS, 0, [], size) == Piece(c, a, NO_FLAGS, 0)
  {
    assert ['%'] + [] + [c] == ['%', c] && [] + [c] == [c] + [] == [c];
    hide *;
    ParseEnd(c, [], NO_FLAGS, 0);
    Lone([], c, a, NO_FLAGS, 0, size);
  }

  const SHARP := Flags(true, false, true, false)
  const PLUS := Flags(false, true, false, false)
  const WIDE := Flags(false, false, true, false)

  lemma {:induction false} LoneSharp(c: char, a: Arg, size: nat)
    requires IsConversion(c) && TakesArgument(c) && Usable(a, size) && 2 * |Piece(c, a, SHARP, 16)| <= size
    ensures WellFormed(['%', '#', c], [a], size)
    ensures Output(['%', '#', c], [a], NO_FLAGS, 0, [], size) == Piece(c, a, SHARP, 16)
  {
    assert ['%'] + ['#'] + [c] == ['%', '#', c] && [c] + [] == [c];
    assert NO_FLAGS.(prefix := true, padded := true) == SHARP;
    hide *;
    ParseEnd(c, [], SHARP, 16);
    ParseMark([c], NO_FLAGS, 0);
    Lone(['#'], c, a, SHARP, 16, size);
  }

  lemma {:induction false} LonePlus(c: char, a: Arg, size: nat)
    requires IsConversion(c) && TakesArgument(c) && Usable(a, size) && 2 * |Piece(c, a, PLUS, 0)| <= size
    ensures WellFormed(['%', '+', c], [a], size)
    ensures Output(['%', '+', c], [a], NO_FLAGS, 0, [], size) == Piece(c, a, PLUS, 0)
  {
    assert ['%'] + ['+'] + [c] == ['%', '+', c] && [c] + [] == [c];
    assert NO_FLAGS.(sign := true) == PLUS;
    hide *;
    ParseEnd(c, [], PLUS, 0);
    ParseMark([c], NO_FLAGS, 0);
    Lone(['+'], c, a, PLUS, 0, size);
  }

  lemma {:induction false} LoneWide(w: seq<char>, c: char, a: Arg, size: nat)
    requires IsConversion(c) && TakesArgument(c) && Usable(a, size) && w != [] && AllDigits(w)
    requires 2 * |Piece(c, a, WIDE, Width(w))| <= size
    ensures WellFormed(['%'] + w + [c], [a], size)
    ensures Output(['%'] + w + [c], [a], NO_FLAGS, 0, [], size) == Piece(c, a, WIDE, Width(w))
  {
    assert w + [c] + [] == w + [c] && [c] + [] == [c] && NO_FLAGS.(padded := true) == WIDE;
    hide *;
    ParseDigits(w, c, [], NO_FLAGS, 0);
    Lone(w, c, a, WIDE, Width(w), size);
  }

  // ----- what is printed -----

  /** The string moved to the right end of a field of that width, if it is shorter. */
  function Justified(s: seq<char>, width: nat, fill: char): (t: seq<char>) {
    if |s| < width then seq(width - |s|, _ => fill) + s else s
  }

  /** The piece of a directive: sign or prefix, then the body in its field. */
  lemma PieceIs(c: char, a: Arg, flags: Flags, pad: nat, s: seq<char>)
    requires BodyText(c, a) == s && c != 'w' && !flags.notNumber
    ensures Piece(c, a, flags, pad) == SignText(c, a.value, flags) +
            Justified(s, if flags.padded then pad else 0, if c == 's' || c == 'c' then ' ' else '0')
    ensures |Piece(c, a, flags, pad)| == |SignText(c, a.value, flags)| +
            if flags.padded && pad > |s| then pad else |s|
  {
    hide BodyText, SignText;
  }

  predicate Decimal(c: char) {
    c == 'd' || c == 'u' || c == 'i'
  }

  predicate Hexadecimal(c: char) {
    c == 'x' || c == 'X' || c == 'l'
  }

  /** `%d` and `%u` print the argument in decimal; so does `%i`, with a minus sign in front of
      what it takes for a negative number. */
  lemma {:induction false} PrintsDecimal(c: char, a: Arg, s: seq<char>, size: nat)
    requires Decimal(c) && Usable(a, size) && Spells(s, 10, a.value) && size >= 42
    ensures WellFormed(['%', c], [a], size)
    ensures Output(['%', c], [a], NO_FLAGS, 0, [], size) ==
            if c == 'i' && a.value >= 0x8000_0000_0000_0000 then ['-'] + s else s
  {
    DecimalBody(c, a, s);
    hide Spells, BodyText, Output, WellFormed, Usable, Piece, Numeral;
    PieceIs(c, a, NO_FLAGS, 0, s);
    LonePlain(c, a, size);
  }

  /** `%x`, `%X` and `%l` print it in upper-case hexadecimal. */
  lemma {:induction false} PrintsHex(c: char, a: Arg, s: seq<char>, size: nat)
    requires Hexadecimal(c) && Usable(a, size) && Spells(s, 16, a.value) && size >= 32
    ensures WellFormed(['%', c], [a], size)
    ensures Output(['%', c], [a], NO_FLAGS, 0, [], size) == s
  {
    HexBody(c, a, s);
    hide Spells, BodyText, Output, WellFormed, Usable, Piece, Numeral;
    PieceIs(c, a, NO_FLAGS, 0, s);
    LonePlain(c, a, size);
  }

  /** `%o` prints it in octal if it is below 2^48. */
  lemma {:induction false} PrintsOctal(a: Arg, s: seq<char>, size: nat)
    requires Usable(a, size) && a.value < 0x1_0000_0000_0000 && Spells(s, 8, a.value) && size >= 32
    ensures WellFormed("%o", [a], size)
    ensures Output("%o", [a], NO_FLAGS, 0, [], size) == s
  {
    OctalBody(a, s);
    hide Spells, BodyText, Output, WellFormed, Usable, Piece, Numeral;
    PieceIs('o', a, NO_FLAGS, 0, s);
    LonePlain('o', a, size);
  }

  /** From 2^48 on, `%o` prints an octal number that is the argument modulo 2^48. */
  lemma {:induction false} PrintsOctalCut(a: Arg, size: nat)
    requires Usable(a, size) && size >= 32
    ensures WellFormed("%o", [a], size)
    ensures Decode(Output("%o", [a], NO_FLAGS, 0, [], size), 8) == Some(a.value % 0x1_0000_0000_0000)
  {
    assert a.value < WORD;
    NumeralShape(a.value, 8, 16);
    OctalPiece(a);
    hide *;
    SixtyFourBits(a.value);
    LonePlain('o', a, size);
  }

  lemma OctalPiece(a: Arg)
    ensures Piece('o', a, NO_FLAGS, 0) == Numeral(a.value, 8, 16) && IsConversion('o') && TakesArgument('o')
  {
    hide Numeral;
  }

  /** `%c` prints the character whose code is the low byte of the argument, or nothing for 0. */
  lemma {:induction false} PrintsChar(a: Arg, size: nat)
    requires Usable(a, size) && size >= 2
    ensures WellFormed("%c", [a], size)
    ensures Output("%c", [a], NO_FLAGS, 0, [], size) ==
            if a.value % 256 == 0 then [] else [(a.value % 256) as char]
  {
    hide Output, WellFormed, Usable;
    LonePlain('c', a, size);
  }

  /** `%s` prints the text, if it takes no more than half the room. */
  lemma {:induction false} PrintsText(a: Arg, size: nat)
    requires Usable(a, size) && 2 * |a.text| <= size
    ensures WellFormed("%s", [a], size) && Output("%s", [a], NO_FLAGS, 0, [], size) == a.text
  {
    hide Output, WellFormed, Usable;
    LonePlain('s', a, size);
  }

  /** `%%` prints a percent sign and `%w` a blank. */
  lemma {:induction false} PrintsSign(size: nat)
    requires size >= 2
    ensures WellFormed("%%", [], size) && Output("%%", [], NO_FLAGS, 0, [], size) == "%"
    ensures WellFormed("%w", [], size) && Output("%w", [], NO_FLAGS, 0, [], size) == " "
  {
    var f, g := "%%", "%w";
    assert f[1..] == ['%'] && g[1..] == ['w'] && ['%'][1..] == [] && ['w'][1..] == [];
    SignRendered('%', size);
    SignRendered('w', size);
    hide Rendered, Output, WellFormed;
    Uncut(f, [], size);
    Uncut(g, [], size);
  }

  lemma {:induction false} SignRendered(c: char, size: nat)
    requires c == '%' || c == 'w'
    ensures WellFormed(['%', c], [], size)
    ensures Rendered(['%', c], [], NO_FLAGS, 0, size) == [if c == 'w' then ' ' else '%']
  {
    assert ['%', c][1..] == [c] + [] && ([c] + [])[1..] == [];
    ParseEnd(c, [], NO_FLAGS, 0);
    SignPiece(c);
    hide Parse, WellFormedOptions, Piece, FlagsAfter;
  }

  lemma SignPiece(c: char)
    requires c == '%' || c == 'w'
    ensures IsConversion(c) && !TakesArgument(c) && Piece(c, NO_ARG, NO_FLAGS, 0) == [if c == 'w' then ' ' else '%']
  {
  }

  /** `%#x` and `%#X` print 0x and the number in sixteen digits. */
  lemma {:induction false} PrintsPrefix(c: char, a: Arg, s: seq<char>, size: nat)
    requires (c == 'x' || c == 'X') && Usable(a, size) && Spells(s, 16, a.value) && size >= 36
    ensures WellFormed(['%', '#', c], [a], size)
    ensures Output(['%', '#', c], [a], NO_FLAGS, 0, [], size) == "0x" + Justified(s, 16, '0')
  {
    HexBody(c, a, s);
    hide Spells, BodyText, Output, WellFormed, Usable, Piece, Justified;
    PieceIs(c, a, SHARP, 16, s);
    LoneSharp(c, a, size);
  }

  /** `%#o` prints 0 and the number in sixteen octal digits. */
  lemma {:induction false} PrintsOctalPrefix(a: Arg, s: seq<char>, size: nat)
    requires Usable(a, size) && a.value < 0x1_0000_0000_0000 && Spells(s, 8, a.value) && size >= 34
    ensures WellFormed("%#o", [a], size)
    ensures Output("%#o", [a], NO_FLAGS, 0, [], size) == "0" + Justified(s, 16, '0')
  {
    OctalBody(a, s);
    hide Spells, BodyText, Output, WellFormed, Usable, Piece, Justified;
    PieceIs('o', a, SHARP, 16, s);
    LoneSharp('o', a, size);
  }

  /** `%+d` prints a plus sign for the positive numbers, and a minus sign for the others and for
      zero. */
  lemma {:induction false} PrintsPlus(a: Arg, s: seq<char>, size: nat)
    requires Usable(a, size) && Spells(s, 10, a.value) && size >= 42
    ensures WellFormed("%+d", [a], size)
    ensures Output("%+d", [a], NO_FLAGS, 0, [], size) ==
            (if 0 < a.value < 0x8000_0000_0000_0000 then "+" else "-") + s
  {
    DecimalBody('d', a, s);
    hide Spells, BodyText, Output, WellFormed, Usable, Piece;
    PieceIs('d', a, PLUS, 0, s);
    LonePlus('d', a, size);
  }

  /** On other conversions the plus sign has no effect. */
  lemma {:induction false} PlusOnlyForD(c: char, a: Arg, size: nat)
    requires IsConversion(c) && TakesArgument(c) && c != 'd' && Usable(a, size)
    requires 2 * |Piece(c, a, NO_FLAGS, 0)| <= size
    ensures WellFormed(['%', '+', c], [a], size) && WellFormed(['%', c], [a], size)
    ensures Output(['%', '+', c], [a], NO_FLAGS, 0, [], size) == Output(['%', c], [a], NO_FLAGS, 0, [], size)
  {
    assert Piece(c, a, PLUS, 0) == Piece(c, a, NO_FLAGS, 0);
    hide *;
    LonePlain(c, a, size);
    LonePlus(c, a, size);
  }

  /** On conversions without a prefix, `#` sets the width to sixteen and does no more. */
  lemma {:induction false} SharpPads(c: char, a: Arg, s: seq<char>, size: nat)
    requires Usable(a, size) && size >= 40 && size >= 2 * |s|
    requires ((c == 'd' || c == 'u') && Spells(s, 10, a.value)) || (c == 'l' && Spells(s, 16, a.value)) ||
             (c == 's' && s == a.text)
    ensures WellFormed(['%', '#', c], [a], size)
    ensures Output(['%', '#', c], [a], NO_FLAGS, 0, [], size) == Justified(s, 16, if c == 's' then ' ' else '0')
  {
    if c == 'l' {
      HexBody(c, a, s);
    } else if c != 's' {
      DecimalBody(c, a, s);
    }
    SharpSign(c, a, s);
    hide *;
    PieceIs(c, a, SHARP, 16, s);
    LoneSharp(c, a, size);
    assert [] + Justified(s, 16, if c == 's' then ' ' else '0') == Justified(s, 16, if c == 's' then ' ' else '0');
  }

  lemma SharpSign(c: char, a: Arg, s: seq<char>)
    requires c == 'd' || c == 'u' || c == 'l' || (c == 's' && s == a.text)
    ensures SignText(c, a.value, SHARP) == [] && SHARP.padded && !SHARP.notNumber
    ensures IsConversion(c) && TakesArgument(c) && (c == 's' ==> BodyText(c, a) == s)
  {
  }

  /** A width pads a number with zeroes on the left. */
  lemma {:induction false} PadsNumber(w: seq<char>, c: char, a: Arg, s: seq<char>, size: nat)
    requires w != [] && AllDigits(w) && Usable(a, size) && size >= 40 && size >= 2 * Width(w)
    requires ((c == 'd' || c == 'u') && Spells(s, 10, a.value)) || (Hexadecimal(c) && Spells(s, 16, a.value))
    ensures WellFormed(['%'] + w + [c], [a], size)
    ensures Output(['%'] + w + [c], [a], NO_FLAGS, 0, [], size) == Justified(s, Width(w), '0')
  {
    if Hexadecimal(c) {
      HexBody(c, a, s);
    } else {
      DecimalBody(c, a, s);
    }
    hide Spells, BodyText, Output, WellFormed, Usable, Width, AllDigits, Piece, Justified;
    PieceIs(c, a, WIDE, Width(w), s);
    LoneWide(w, c, a, size);
  }

  /** A width pads a text or a character with blanks. */
  lemma {:induction false} PadsText(w: seq<char>, a: Arg, size: nat)
    requires w != [] && AllDigits(w) && Usable(a, size) && size >= 2 * |a.text| && size >= 2 * Width(w) && size >= 2
    ensures WellFormed(['%'] + w + ['s'], [a], size)
    ensures Output(['%'] + w + ['s'], [a], NO_FLAGS, 0, [], size) == Justified(a.text, Width(w), ' ')
    ensures WellFormed(['%'] + w + ['c'], [a], size)
    ensures a.value % 256 != 0 ==> Output(['%'] + w + ['c'], [a], NO_FLAGS, 0, [], size) ==
                                   Justified([(a.value % 256) as char], Width(w), ' ')
  {
    hide Output, WellFormed, Usable, Width, AllDigits, Piece, Justified;
    PieceIs('s', a, WIDE, Width(w), a.text);
    PieceIs('c', a, WIDE, Width(w), CharString(a.value));
    LoneWide(w, 's', a, size);
    LoneWide(w, 'c', a, size);
  }

  /** Seven in a field of four, and two letters. */
  lemma {:induction false} FourWide(size: nat)
    requires size >= 40
    ensures WellFormed("%4d", [Arg(7, [])], size) && Output("%4d", [Arg(7, [])], NO_FLAGS, 0, [], size) == "0007"
    ensures WellFormed("%4s", [Arg(0, "ab")], size) && Output("%4s", [Arg(0, "ab")], NO_FLAGS, 0, [], size) == "  ab"
  {
    var a, b := Arg(7, []), Arg(0, "ab");
    assert "7"[..0] == [] && "4"[..0] == [] && Decode([], 10) == Some(0);
    assert Spells("7", 10, 7) && Width("4") == 4 && AllDigits("4");
    assert ['%'] + "4" + ['d'] == "%4d" && ['%'] + "4" + ['s'] == "%4s";
    assert Justified("7", 4, '0') == "0007" && Justified("ab", 4, ' ') == "  ab";
    assert Usable(a, size) && Usable(b, size);
    hide *;
    PadsNumber("4", 'd', a, "7", size);
    PadsText("4", b, size);
  }

  /** A prefix needs room for itself and one character more, a sign likewise; where there is
      less it is left out. */
  lemma SignsNeedRoom(out: seq<char>, a: Arg, size: nat)
    requires |out| < size
    ensures out + "0x" <= Convert(out, 'x', a, SHARP, 16, size) <==> |out| + 2 < size
    ensures var sign := if 0 < a.value < 0x8000_0000_0000_0000 then "+" else "-";
            out + sign <= Convert(out, 'd', a, PLUS, 0, size) <==> |out| + 1 < size
    ensures a.value >= 0x8000_0000_0000_0000 ==>
            (out + "-" <= Convert(out, 'i', a, NO_FLAGS, 0, size) <==> |out| + 1 < size)
  {
    hide Convert, BodyText, Numeral;
    SignShown(out, 'x', a, SHARP, 16, size);
    SignShown(out, 'd', a, PLUS, 0, size);
    if a.value >= 0x8000_0000_0000_0000 {
      SignShown(out, 'i', a, NO_FLAGS, 0, size);
    }
  }

  lemma SignShown(out: seq<char>, c: char, a: Arg, flags: Flags, pad: nat, size: nat)
    requires IsNumber(c) && !flags.notNumber
    requires var s := SignText(c, a.value, flags); s != [] && DigitValue(s[|s| - 1]).None?
    ensures out + SignText(c, a.value, flags) <= Convert(out, c, a, flags, pad, size) <==> |out| + SignRoom(c) < size
  {
    SignFirst(out, c, a, flags, pad, size);
    hide Convert, DigitValue, IsNumber, SignText;
    StartsWith(out, SignText(c, a.value, flags), Convert(out, c, a, flags, pad, size));
  }

  lemma StartsWith(out: seq<char>, s: seq<char>, t: seq<char>)
    ensures out + s <= t <==> out <= t && |out| + |s| <= |t| && t[|out|..|out| + |s|] == s
    ensures out + s <= t && s != [] ==> t[|out| + |s| - 1] == s[|s| - 1] && t[|out|] == s[0]
  {
    if out <= t && |out| + |s| <= |t| && t[|out|..|out| + |s|] == s {
      assert t[..|out| + |s|] == out + s;
    }
  }

  /** What follows the sign of a number, and comes first if there is none, is a digit. */
  lemma SignFirst(out: seq<char>, c: char, a: Arg, flags: Flags, pad: nat, size: nat)
    requires IsNumber(c) && !flags.notNumber
    ensures var signed := out + Sign(c, a.value, flags, |out|, size);
            var t := Convert(out, c, a, flags, pad, size);
            signed <= t && forall i :: |signed| <= i < |t| ==> DigitValue(t[i]).Some?
  {
    var signed, body := out + Sign(c, a.value, flags, |out|, size), Body(c, a, |out|, size);
    var padding := Padding(|body|, FlagsAfter(c, flags), pad);
    assert Convert(out, c, a, flags, pad, size) == Emit(Emit(signed, padding, size), body, size);
    hide *;
    NumberBody(c, a, |out|, size);
    NumberPadding(|body|, c, flags, pad);
    EmitsDigits(signed, padding, size);
    EmitsDigits(Emit(signed, padding, size), body, size);
  }

  predicate OnlyDigits(s: seq<char>) {
    forall i :: 0 <= i < |s| ==> DigitValue(s[i]).Some?
  }

  lemma EmitsDigits(out: seq<char>, piece: seq<char>, size: nat)
    requires OnlyDigits(piece)
    ensures out <= Emit(out, piece, size)
    ensures forall i :: |out| <= i < |Emit(out, piece, size)| ==> DigitValue(Emit(out, piece, size)[i]).Some?
  {
    hide DigitValue, Room;
  }

  lemma NumberPadding(k: nat, c: char, flags: Flags, pad: nat)
    requires IsNumber(c) && !flags.notNumber
    ensures OnlyDigits(Padding(k, FlagsAfter(c, flags), pad))
  {
  }

  lemma NumberBody(c: char, a: Arg, n: nat, size: nat)
    requires IsNumber(c)
    ensures OnlyDigits(Body(c, a, n, size))
  {
    NumeralDigits(a.value, 16, 16);
    NumeralDigits(a.value, 10, 20);
    NumeralDigits(a.value, 8, 16);
    hide Numeral, DigitValue, Digits.Digits;
  }

  // ----- several directives -----

  predicate Ordinary(t: seq<char>) {
    '%' !in t
  }

  /** Other characters are copied, and the first of them ends the flags that were set. */
  lemma {:induction false} CopiesText(t: seq<char>, f: seq<char>, args: seq<Arg>, flags: Flags, pad: nat, size: nat)
    requires Ordinary(t) && WellFormed(f, args, size)
    ensures WellFormed(t + f, args, size)
    ensures Rendered(t + f, args, flags, pad, size) ==
            t + Rendered(f, args, if t == [] then flags else Flags(false, false, false, false), pad, size)
    decreases |t|
  {
    hide First, Parse, WellFormedOptions, Piece, FlagsAfter, Usable;
    if t == [] {
      assert t + f == f;
    } else {
      assert (t + f)[1..] == t[1..] + f && (t + f)[0] == t[0] && t[0] in t;
      assert Ordinary(t[1..]);
      CopiesText(t[1..], f, args, NO_FLAGS, pad, size);
    }
  }

  /** A number in the middle of a text, as in most messages of the kernel. */
  lemma {:induction false} NumberInText(t: seq<char>, u: seq<char>, a: Arg, s: seq<char>, size: nat)
    requires Ordinary(t) && Ordinary(u) && Usable(a, size) && Spells(s, 10, a.value)
    requires size >= 2 * (|t| + |s| + |u|)
    ensures WellFormed(t + "%d" + u, [a], size)
    ensures Output(t + "%d" + u, [a], NO_FLAGS, 0, [], size) == t + s + u
  {
    assert size > 0 && a.value < WORD;
    assert NO_FLAGS == Flags(false, false, false, false) && FlagsAfter('d', NO_FLAGS) == NO_FLAGS;
    assert SignText('d', a.value, NO_FLAGS) == [] && Justified(s, 0, '0') == s && WellFormed([], [], size);
    assert Rendered([], [], NO_FLAGS, 0, size) == [];
    assert u + [] == u && [a] + [] == [a] && [] + ['d'] + u == ['d'] + u && ['%'] + [] + ['d'] + u == "%d" + u;
    assert t + ("%d" + u) == t + "%d" + u && t + (s + u) == t + s + u && [] + s == s;
    assert IsConversion('d') && TakesArgument('d') && BodyText('d', a) == s by {
      DecimalBody('d', a, s);
    }
    hide *;
    CopiesText(u, [], [], NO_FLAGS, 0, size);
    ParseEnd('d', u, NO_FLAGS, 0);
    DirectiveFirst([], 'd', u, a, [], NO_FLAGS, 0, NO_FLAGS, 0, size);
    PieceIs('d', a, NO_FLAGS, 0, s);
    CopiesText(t, "%d" + u, [a], NO_FLAGS, 0, size);
    Uncut(t + "%d" + u, [a], size);
  }

  /** A lone `%d` at the end of a format, with any width left over and perhaps flags. */
  lemma {:induction false} LastDecimal(b: Arg, s: seq<char>, flags: Flags, pad: nat, size: nat)
    requires Usable(b, size) && Spells(s, 10, b.value) && !flags.sign
    ensures WellFormed("%d", [b], size)
    ensures Rendered("%d", [b], flags, pad, size) ==
            Justified(s, if flags.padded then pad else 0, if flags.notNumber then ' ' else '0')
  {
    DecimalBody('d', b, s);
    LastPiece(b, flags, pad, s);
    assert ['%'] + [] + ['d'] + [] == "%d" && [] + ['d'] + [] == ['d'] + [] && [b] + [] == [b];
    assert WellFormed([], [], size) && Rendered([], [], FlagsAfter('d', flags), pad, size) == [];
    assert IsConversion('d') && TakesArgument('d');
    hide *;
    ParseEnd('d', [], flags, pad);
    DirectiveFirst([], 'd', [], b, [], flags, pad, flags, pad, size);
  }

  lemma LastPiece(b: Arg, flags: Flags, pad: nat, s: seq<char>)
    requires BodyText('d', b) == s && !flags.sign
    ensures Piece('d', b, flags, pad) ==
            Justified(s, if flags.padded then pad else 0, if flags.notNumber then ' ' else '0')
  {
    hide BodyText;
  }

  /** `%w` at the end of a format. */
  lemma {:induction false} LastBlank(flags: Flags, pad: nat, size: nat)
    ensures WellFormed("%w", [], size)
    ensures Rendered("%w", [], flags, pad, size) == Justified(" ", pad, if flags.notNumber then ' ' else '0')
  {
    var f := "%w";
    assert f[1..] == ['w'] + [] && (['w'] + [])[1..] == [];
    ParseEnd('w', [], flags, pad);
    ParseEnd('w', [], NO_FLAGS, 0);
  }

  /** A directive with a width, and what comes after it. */
  lemma {:induction false} WideFirst(w: seq<char>, c: char, a: Arg, s: seq<char>, rest: seq<char>, args: seq<Arg>,
                                     size: nat)
    requires w != [] && AllDigits(w) && Usable(a, size) && WellFormed(rest, args, size)
    requires (c == 's' && s == a.text) || (c == 'd' && Spells(s, 10, a.value))
    ensures WellFormed(['%'] + w + [c] + rest, [a] + args, size)
    ensures Rendered(['%'] + w + [c] + rest, [a] + args, NO_FLAGS, 0, size) ==
            Justified(s, Width(w), if c == 's' then ' ' else '0') +
            Rendered(rest, args, Flags(false, false, true, c == 's'), Width(w), size)
  {
    assert a.value < WORD && WIDE == Flags(false, false, true, false) && NO_FLAGS.(padded := true) == WIDE;
    hide *;
    WideBody(c, a, s);
    ParseDigits(w, c, rest, NO_FLAGS, 0);
    DirectiveFirst(w, c, rest, a, args, NO_FLAGS, 0, WIDE, Width(w), size);
    PieceIs(c, a, WIDE, Width(w), s);
    assert [] + Justified(s, Width(w), if c == 's' then ' ' else '0') ==
           Justified(s, Width(w), if c == 's' then ' ' else '0');
  }

  lemma WideBody(c: char, a: Arg, s: seq<char>)
    requires a.value < WORD && ((c == 's' && s == a.text) || (c == 'd' && Spells(s, 10, a.value)))
    ensures BodyText(c, a) == s && SignText(c, a.value, WIDE) == [] && IsConversion(c) && TakesArgument(c)
    ensures FlagsAfter(c, WIDE) == Flags(false, false, true, c == 's')
  {
    if c == 'd' {
      DecimalBody(c, a, s);
    }
    hide Spells, Numeral;
  }

  /** Width and blanks stay in force for a directive that follows at once. */
  lemma {:induction false} FlagsCarryOver(w: seq<char>, a: Arg, b: Arg, s: seq<char>, size: nat)
    requires w != [] && AllDigits(w) && Usable(a, size) && Usable(b, size) && Spells(s, 10, b.value)
    requires size >= 2 * (|Justified(a.text, Width(w), ' ')| + |Justified(s, Width(w), ' ')|)
    ensures WellFormed(['%'] + w + ['s'] + "%d", [a] + [b], size)
    ensures Output(['%'] + w + ['s'] + "%d", [a] + [b], NO_FLAGS, 0, [], size) ==
            Justified(a.text, Width(w), ' ') + Justified(s, Width(w), ' ')
  {
    assert size > 0;
    var f := ['%'] + w + ['s'] + "%d";
    LastDecimal(b, s, Flags(false, false, true, true), Width(w), size);
    hide *;
    WideFirst(w, 's', a, a.text, "%d", [b], size);
    Uncut(f, [a] + [b], size);
  }

  /** So do a prefix and a sign: in `%#x%x` and `%+d%d` the second number has them too. */
  lemma {:induction false} MarksCarryOver(a: Arg, b: Arg, s: seq<char>, t: seq<char>, size: nat)
    requires Usable(a, size) && Usable(b, size) && size >= 84
    ensures WellFormed("%#x%x", [a] + [b], size) && WellFormed("%+d%d", [a] + [b], size)
    ensures Spells(s, 16, a.value) && Spells(t, 16, b.value) ==>
            Output("%#x%x", [a] + [b], NO_FLAGS, 0, [], size) ==
            "0x" + Justified(s, 16, '0') + ("0x" + Justified(t, 16, '0'))
    ensures Spells(s, 10, a.value) && Spells(t, 10, b.value) ==>
            Output("%+d%d", [a] + [b], NO_FLAGS, 0, [], size) ==
            (if 0 < a.value < 0x8000_0000_0000_0000 then "+" else "-") + s +
            ((if 0 < b.value < 0x8000_0000_0000_0000 then "+" else "-") + t)
  {
    assert ['%'] + ['#'] + ['x'] + "%x" == "%#x%x" && ['%'] + ['+'] + ['d'] + "%d" == "%+d%d";
    TwoMarked('#', 'x', a, b, SHARP, 16, size);
    TwoMarked('+', 'd', a, b, PLUS, 0, size);
    if Spells(s, 16, a.value) && Spells(t, 16, b.value) {
      HexPiece(a, s);
      HexPiece(b, t);
      hide *;
      Uncut("%#x%x", [a] + [b], size);
    }
    if Spells(s, 10, a.value) && Spells(t, 10, b.value) {
      SignedPiece(a, s);
      SignedPiece(b, t);
      hide *;
      Uncut("%+d%d", [a] + [b], size);
    }
  }

  lemma HexPiece(a: Arg, s: seq<char>)
    requires a.value < WORD && Spells(s, 16, a.value)
    ensures Piece('x', a, SHARP, 16) == "0x" + Justified(s, 16, '0') && |Piece('x', a, SHARP, 16)| <= 18
  {
    HexBody('x', a, s);
    PieceIs('x', a, SHARP, 16, s);
    hide Spells, BodyText, Piece, Justified;
  }

  lemma SignedPiece(a: Arg, s: seq<char>)
    requires a.value < WORD && Spells(s, 10, a.value)
    ensures Piece('d', a, PLUS, 0) == (if 0 < a.value < 0x8000_0000_0000_0000 then "+" else "-") + s
    ensures |Piece('d', a, PLUS, 0)| <= 21
  {
    DecimalBody('d', a, s);
    PieceIs('d', a, PLUS, 0, s);
    hide Spells, BodyText, Piece;
  }

  /** Two directives of a kind, the first of them with a mark. */
  lemma {:induction false} TwoMarked(o: char, c: char, a: Arg, b: Arg, flags: Flags, pad: nat, size: nat)
    requires Usable(a, size) && Usable(b, size)
    requires || (o == '#' && c == 'x' && flags == SHARP && pad == 16)
             || (o == '+' && c == 'd' && flags == PLUS && pad == 0)
    ensures WellFormed(['%'] + [o] + [c] + ['%', c], [a] + [b], size)
    ensures Rendered(['%'] + [o] + [c] + ['%', c], [a] + [b], NO_FLAGS, 0, size) ==
            Piece(c, a, flags, pad) + Piece(c, b, flags, pad)
  {
    var rest := ['%', c];
    assert ['%'] + [] + [c] + [] == rest && [] + [c] + [] == [c] + [] && [b] + [] == [b];
    assert IsConversion(c) && TakesArgument(c) && FlagsAfter(c, flags) == flags && WellFormed([], [], size);
    assert Rendered([], [], flags, pad, size) == [] && [o] + [c] + rest == [o] + ([c] + rest);
    assert NO_FLAGS.(prefix := true, padded := true) == SHARP && NO_FLAGS.(sign := true) == PLUS;
    hide *;
    ParseEnd(c, [], flags, pad);
    DirectiveFirst([], c, [], b, [], flags, pad, flags, pad, size);
    ParseEnd(c, rest, flags, pad);
    ParseMark([c] + rest, NO_FLAGS, 0);
    DirectiveFirst([o], c, rest, a, [b], NO_FLAGS, 0, flags, pad, size);
    assert Piece(c, b, flags, pad) + [] == Piece(c, b, flags, pad);
  }

  /** After some text they are no longer. */
  lemma {:induction false} TextEndsFlags(w: seq<char>, a: Arg, u: seq<char>, b: Arg, s: seq<char>, size: nat)
    requires w != [] && AllDigits(w) && Usable(a, size) && Usable(b, size) && Spells(s, 10, b.value)
    requires u != [] && Ordinary(u) && size >= 2 * (|Justified(a.text, Width(w), ' ')| + |u| + |s|)
    ensures WellFormed(['%'] + w + ['s'] + (u + "%d"), [a] + [b], size)
    ensures Output(['%'] + w + ['s'] + (u + "%d"), [a] + [b], NO_FLAGS, 0, [], size) ==
            Justified(a.text, Width(w), ' ') + (u + s)
  {
    assert size > 0 && NO_FLAGS == Flags(false, false, false, false) && Justified(s, 0, '0') == s;
    var f := ['%'] + w + ['s'] + (u + "%d");
    LastDecimal(b, s, NO_FLAGS, Width(w), size);
    hide *;
    CopiesText(u, "%d", [b], Flags(false, false, true, true), Width(w), size);
    WideFirst(w, 's', a, a.text, u + "%d", [b], size);
    Uncut(f, [a] + [b], size);
  }

  /** But the width itself is kept, and the next directive that asks for padding uses it. */
  lemma {:induction false} WidthStays(w: seq<char>, a: Arg, s: seq<char>, u: seq<char>, size: nat)
    requires w != [] && AllDigits(w) && Usable(a, size) && Spells(s, 10, a.value)
    requires u != [] && Ordinary(u)
    requires size >= 2 * (|Justified(s, Width(w), '0')| + |u| + |Justified(" ", Width(w), '0')|)
    ensures WellFormed(['%'] + w + ['d'] + (u + "%w"), [a] + [], size)
    ensures Output(['%'] + w + ['d'] + (u + "%w"), [a] + [], NO_FLAGS, 0, [], size) ==
            Justified(s, Width(w), '0') + (u + Justified(" ", Width(w), '0'))
  {
    assert size > 0 && NO_FLAGS == Flags(false, false, false, false);
    var f := ['%'] + w + ['d'] + (u + "%w");
    LastBlank(NO_FLAGS, Width(w), size);
    hide *;
    CopiesText(u, "%w", [], Flags(false, false, true, false), Width(w), size);
    WideFirst(w, 'd', a, s, u + "%w", [], size);
    Uncut(f, [a] + [], size);
  }
}
