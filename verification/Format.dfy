/** The formatter: `vsnprintf` on a character buffer, with what it should write given as a
    function of the format and the arguments. */
module Format {
  import opened Sizes
  import opened Strings
  import opened Digits

  /** An argument: its 64-bit value, and the string found there if it is a pointer. */
  datatype Arg = Arg(value: nat, text: seq<char>)

  /** The flag bits that are ever tested. */
  datatype Flags = Flags(prefix: bool, sign: bool, padded: bool, notNumber: bool)

  const NO_FLAGS := Flags(false, false, false, false)

  predicate IsDigit(c: char) {
    '0' <= c <= '9'
  }

  predicate IsConversion(c: char) {
    c in ['%', 'X', 'x', 'd', 'i', 'u', 'l', 'o', 's', 'c', 'w']
  }

  predicate TakesArgument(c: char) {
    c != '%' && c != 'w'
  }

  // ----- options -----

  /** The format from the conversion character on, with the flags and padding then. */
  datatype Options = Options(rest: seq<char>, flags: Flags, pad: nat)

  /** A run of digits after `pad` has been set to `acc`. */
  function Number(f: seq<char>, acc: nat): (nat, seq<char>)
    decreases |f|
  {
    if f == [] || !IsDigit(f[0]) then (acc, f)
    else Number(f[1..], (acc * 10 + (f[0] as int - '0' as int)) % WORD)
  }

  lemma {:induction false} NumberShorter(f: seq<char>, acc: nat)
    ensures |Number(f, acc).1| <= |f|
    ensures f != [] && IsDigit(f[0]) ==> |Number(f, acc).1| < |f|
    decreases |f|
  {
    if f != [] && IsDigit(f[0]) {
      NumberShorter(f[1..], (acc * 10 + (f[0] as int - '0' as int)) % WORD);
    }
  }

  /** `next_format`, for a directive that has a conversion character. */
  function Parse(f: seq<char>, flags: Flags, pad: nat): Options
    requires WellFormedOptions(f)
    decreases |f|
  {
    if IsConversion(f[0]) then Options(f, flags, pad)
    else if f[0] == '#' then Parse(f[1..], flags.(prefix := true, padded := true), 16)
    else if f[0] == '+' then Parse(f[1..], flags.(sign := true), pad)
    else
      NumberShorter(f, 0);
      var (value, rest) := Number(f, 0);
      Parse(rest, flags.(padded := true), value)
  }

  /** Flags and digits followed by a conversion character.  The code loops forever on any
      other directive. */
  predicate WellFormedOptions(f: seq<char>)
    decreases |f|
  {
    f != [] &&
    (|| IsConversion(f[0])
     || ((f[0] == '#' || f[0] == '+') && WellFormedOptions(f[1..]))
     || (IsDigit(f[0]) && (NumberShorter(f, 0); WellFormedOptions(Number(f, 0).1))))
  }

  lemma {:induction false} ParseShape(f: seq<char>, flags: Flags, pad: nat)
    requires WellFormedOptions(f)
    ensures var o := Parse(f, flags, pad); |o.rest| <= |f| && o.rest != [] && IsConversion(o.rest[0])
    decreases |f|
  {
    if !IsConversion(f[0]) {
      if f[0] == '#' {
        ParseShape(f[1..], flags.(prefix := true, padded := true), 16);
      } else if f[0] == '+' {
        ParseShape(f[1..], flags.(sign := true), pad);
      } else {
        NumberShorter(f, 0);
        ParseShape(Number(f, 0).1, flags.(padded := true), Number(f, 0).0);
      }
    }
  }

  // ----- pieces -----

  /** How many characters a copying loop that starts at position `n` can write: its counter
      is added to the position that it also moves. */
  function Room(size: nat, n: nat): nat {
    if n < size then (size - n + 1) / 2 else 0
  }

  function Emit(out: seq<char>, piece: seq<char>, size: nat): seq<char> {
    out + if |piece| <= Room(size, |out|) then piece else piece[..Room(size, |out|)]
  }

  function Fill(k: nat, c: char): seq<char> {
    seq(k, _ => c)
  }

  predicate Negative(value: nat) {
    value >= 0x8000_0000_0000_0000
  }

  /** The characters that go before the padding. */
  function SignText(c: char, value: nat, flags: Flags): seq<char> {
    if (c == 'x' || c == 'X') && flags.prefix then ['0', 'x']
    else if c == 'd' && flags.sign then [if value != 0 && !Negative(value) then '+' else '-']
    else if c == 'i' && Negative(value) then ['-']
    else if c == 'o' && flags.prefix then ['0']
    else []
  }

  /** They are dropped if there is too little room. */
  function Sign(c: char, value: nat, flags: Flags, n: nat, size: nat): seq<char> {
    if n + SignRoom(c) < size then SignText(c, value, flags) else []
  }

  function SignRoom(c: char): nat {
    if c == 'd' || c == 'i' then 1 else 2
  }

  function CharString(value: nat): seq<char> {
    if value % 256 == 0 then [] else [(value % 256) as char]
  }

  function BodyText(c: char, a: Arg): seq<char> {
    if c == 'x' || c == 'X' || c == 'l' then Numeral(a.value, 16, 16)
    else if c == 'd' || c == 'i' || c == 'u' then Numeral(a.value, 10, 20)
    else if c == 'o' then Numeral(a.value, 8, 16)
    else if c == 's' then a.text
    else if c == 'c' then CharString(a.value)
    else if c == 'w' then [' ']
    else ['%']
  }

  /** The string that the conversion leaves in the local buffer: `strncpy` cuts a text. */
  function Body(c: char, a: Arg, n: nat, size: nat): seq<char> {
    if c == 's' && n < size && |a.text| > size - n then a.text[..size - n] else BodyText(c, a)
  }

  function FlagsAfter(c: char, flags: Flags): Flags {
    if c == 's' || c == 'c' then flags.(notNumber := true)
    else if c == 'w' then flags.(padded := true)
    else flags
  }

  /** The padding in front of a body of `k` characters. */
  function Padding(k: nat, flags: Flags, pad: nat): seq<char> {
    if flags.padded && pad > k then Fill(pad - k, if flags.notNumber then ' ' else '0') else []
  }

  /** The output after one conversion. */
  function Convert(out: seq<char>, c: char, a: Arg, flags: Flags, pad: nat, size: nat): seq<char> {
    var signed := out + Sign(c, a.value, flags, |out|, size);
    var body := Body(c, a, |out|, size);
    Emit(Emit(signed, Padding(|body|, FlagsAfter(c, flags), pad), size), body, size)
  }

  const NO_ARG := Arg(0, [])

  /** Directives are well formed and there are arguments for them, with strings shorter
      than the buffer. */
  predicate WellFormed(f: seq<char>, args: seq<Arg>, size: nat)
    decreases |f|
  {
    if f == [] then true
    else if f[0] != '%' then WellFormed(f[1..], args, size)
    else if !WellFormedOptions(f[1..]) then false
    else
      ParseShape(f[1..], NO_FLAGS, 0);
      var rest := Parse(f[1..], NO_FLAGS, 0).rest;
      if TakesArgument(rest[0]) then args != [] && Usable(args[0], size) && WellFormed(rest[1..], args[1..], size)
      else WellFormed(rest[1..], args, size)
  }

  predicate Usable(a: Arg, size: nat) {
    a.value < WORD && |a.text| < size && forall i :: 0 <= i < |a.text| ==> a.text[i] != NUL
  }

  /** Where the directive ends does not depend on the flags so far. */
  lemma {:induction false} ParseSame(f: seq<char>, flags: Flags, pad: nat, flags': Flags, pad': nat)
    requires WellFormedOptions(f)
    ensures Parse(f, flags, pad).rest == Parse(f, flags', pad').rest
    decreases |f|
  {
    if !IsConversion(f[0]) {
      if f[0] == '#' {
        ParseSame(f[1..], flags.(prefix := true, padded := true), 16, flags'.(prefix := true, padded := true), 16);
      } else if f[0] == '+' {
        ParseSame(f[1..], flags.(sign := true), pad, flags'.(sign := true), pad');
      } else {
        NumberShorter(f, 0);
        ParseSame(Number(f, 0).1, flags.(padded := true), Number(f, 0).0, flags'.(padded := true), Number(f, 0).0);
      }
    }
  }

  /** One directive: how it parses, its argument, and what is left of the format and the
      arguments. */
  datatype Directive = Directive(c: char, flags: Flags, pad: nat, arg: Arg, rest: seq<char>, args: seq<Arg>)

  function First(f: seq<char>, args: seq<Arg>, flags: Flags, pad: nat, size: nat): (d: Directive)
    requires f != [] && f[0] == '%' && WellFormed(f, args, size)
    ensures IsConversion(d.c) && |d.rest| < |f| && WellFormed(d.rest, d.args, size)
    ensures TakesArgument(d.c) ==> Usable(d.arg, size)
  {
    ParseSame(f[1..], NO_FLAGS, 0, flags, pad);
    ParseShape(f[1..], flags, pad);
    var o := Parse(f[1..], flags, pad);
    var c := o.rest[0];
    if TakesArgument(c) then Directive(c, o.flags, o.pad, args[0], o.rest[1..], args[1..])
    else Directive(c, o.flags, o.pad, NO_ARG, o.rest[1..], args)
  }

  /** All that `vsnprintf` writes: `out` and what comes from here on.  Flags last until the
      next ordinary character, the padding width for ever. */
  function Output(f: seq<char>, args: seq<Arg>, flags: Flags, pad: nat, out: seq<char>, size: nat): seq<char>
    requires WellFormed(f, args, size)
    decreases |f|
  {
    if f == [] || |out| >= size then out
    else if f[0] != '%' then Output(f[1..], args, NO_FLAGS, pad, out + [f[0]], size)
    else
      var d := First(f, args, flags, pad, size);
      Output(d.rest, d.args, FlagsAfter(d.c, d.flags), d.pad, Convert(out, d.c, d.arg, d.flags, d.pad, size), size)
  }

  // ----- what is cut -----

  /** One conversion with nothing cut. */
  function Piece(c: char, a: Arg, flags: Flags, pad: nat): seq<char> {
    SignText(c, a.value, flags) + Padding(|BodyText(c, a)|, FlagsAfter(c, flags), pad) + BodyText(c, a)
  }

  /** The pieces in order, with no regard to size. */
  function Rendered(f: seq<char>, args: seq<Arg>, flags: Flags, pad: nat, size: nat): seq<char>
    requires WellFormed(f, args, size)
    decreases |f|
  {
    if f == [] then []
    else if f[0] != '%' then [f[0]] + Rendered(f[1..], args, NO_FLAGS, pad, size)
    else
      var d := First(f, args, flags, pad, size);
      Piece(d.c, d.arg, d.flags, d.pad) + Rendered(d.rest, d.args, FlagsAfter(d.c, d.flags), d.pad, size)
  }

  /** A copying loop at `n` can write `k` characters. */
  predicate Fits(k: nat, n: nat, size: nat) {
    k == 0 || (n < size && 2 * k <= size - n + 1)
  }

  predicate PieceFits(c: char, a: Arg, flags: Flags, pad: nat, n: nat, size: nat) {
    var sign := |SignText(c, a.value, flags)|;
    var padding := |Padding(|BodyText(c, a)|, FlagsAfter(c, flags), pad)|;
    && (sign == 0 || n + SignRoom(c) < size) && Fits(padding, n + sign, size)
    && Fits(|BodyText(c, a)|, n + sign + padding, size)
  }

  /** Each piece fits where it goes. */
  predicate AllFit(f: seq<char>, args: seq<Arg>, flags: Flags, pad: nat, n: nat, size: nat)
    requires WellFormed(f, args, size)
    decreases |f|
  {
    if f == [] then true
    else if n >= size then Rendered(f, args, flags, pad, size) == []
    else if f[0] != '%' then AllFit(f[1..], args, NO_FLAGS, pad, n + 1, size)
    else
      var d := First(f, args, flags, pad, size);
      PieceFits(d.c, d.arg, d.flags, d.pad, n, size) &&
      AllFit(d.rest, d.args, FlagsAfter(d.c, d.flags), d.pad, n + |Piece(d.c, d.arg, d.flags, d.pad)|, size)
  }

  /** Each loop writes the lesser of what it has and half the room, rounded up. */
  lemma EmitCount(out: seq<char>, piece: seq<char>, size: nat)
    requires |out| <= size
    ensures out <= Emit(out, piece, size) <= out + piece
    ensures |Emit(out, piece, size)| <= size
    ensures Emit(out, piece, size) == out + piece <==> Fits(|piece|, |out|, size)
    ensures 2 * |piece| > size - |out| ==> |Emit(out, piece, size)| == |out| + (size - |out| + 1) / 2
  {
    if |piece| > Room(size, |out|) {
      assert |Emit(out, piece, size)| < |out + piece|;
    }
  }

  lemma SignCount(c: char, value: nat, flags: Flags, n: nat, size: nat)
    requires n < size
    ensures n + |Sign(c, value, flags, n, size)| <= size
    ensures |Sign(c, value, flags, n, size)| <= |SignText(c, value, flags)|
    ensures |Sign(c, value, flags, n, size)| == |SignText(c, value, flags)| <==>
            |SignText(c, value, flags)| == 0 || n + SignRoom(c) < size
  {
  }

  /** A text that `strncpy` cuts is longer than the room that is left. */
  lemma CutText(out: seq<char>, c: char, a: Arg, flags: Flags, pad: nat, size: nat)
    requires |out| < size && Body(c, a, |out|, size) != BodyText(c, a)
    ensures |Convert(out, c, a, flags, pad, size)| < |out + Piece(c, a, flags, pad)|
    ensures !PieceFits(c, a, flags, pad, |out|, size)
  {
    ConvertBound(out, c, a, flags, pad, size);
  }

  lemma ConvertBound(out: seq<char>, c: char, a: Arg, flags: Flags, pad: nat, size: nat)
    requires |out| < size
    ensures |out| <= |Convert(out, c, a, flags, pad, size)| <= size
  {
    hide SignText, Body, BodyText, Padding, Emit;
    SignCount(c, a.value, flags, |out|, size);
    var signed := out + Sign(c, a.value, flags, |out|, size);
    var body := Body(c, a, |out|, size);
    var padding := Padding(|body|, FlagsAfter(c, flags), pad);
    EmitCount(signed, padding, size);
    EmitCount(Emit(signed, padding, size), body, size);
  }

  /** One conversion writes its whole piece just if the three parts fit. */
  lemma ConvertCount(out: seq<char>, c: char, a: Arg, flags: Flags, pad: nat, size: nat)
    requires |out| < size
    ensures Convert(out, c, a, flags, pad, size) == out + Piece(c, a, flags, pad) <==>
            PieceFits(c, a, flags, pad, |out|, size)
    ensures !PieceFits(c, a, flags, pad, |out|, size) ==>
            |Convert(out, c, a, flags, pad, size)| < |out + Piece(c, a, flags, pad)|
  {
    if Body(c, a, |out|, size) != BodyText(c, a) {
      CutText(out, c, a, flags, pad, size);
    } else {
      UncutBody(out, c, a, flags, pad, size);
    }
  }

  lemma UncutBody(out: seq<char>, c: char, a: Arg, flags: Flags, pad: nat, size: nat)
    requires |out| < size && Body(c, a, |out|, size) == BodyText(c, a)
    ensures Convert(out, c, a, flags, pad, size) == out + Piece(c, a, flags, pad) <==>
            PieceFits(c, a, flags, pad, |out|, size)
    ensures !PieceFits(c, a, flags, pad, |out|, size) ==>
            |Convert(out, c, a, flags, pad, size)| < |out + Piece(c, a, flags, pad)|
  {
    hide SignText, Body, BodyText, Padding, Emit, Fits;
    SignCount(c, a.value, flags, |out|, size);
    var sign := Sign(c, a.value, flags, |out|, size);
    var body := BodyText(c, a);
    var padding := Padding(|body|, FlagsAfter(c, flags), pad);
    var padded := Emit(out + sign, padding, size);
    EmitCount(out + sign, padding, size);
    EmitCount(padded, body, size);
    assert out + Piece(c, a, flags, pad) == out + SignText(c, a.value, flags) + padding + body;
  }

  /** The output is the concatenation of the pieces just if each fits where it goes, and is
      shorter otherwise. */
  lemma {:induction false} UncutIffAllFit(f: seq<char>, args: seq<Arg>, flags: Flags, pad: nat, out: seq<char>,
                                          size: nat)
    requires WellFormed(f, args, size) && |out| <= size
    ensures var all := out + Rendered(f, args, flags, pad, size);
            var o := Output(f, args, flags, pad, out, size);
            && |o| <= size
            && (o == all <==> AllFit(f, args, flags, pad, |out|, size))
            && (o == all || |o| < |all|)
    decreases |f|
  {
    hide First, Convert, Piece, PieceFits, FlagsAfter;
    if f == [] || |out| >= size {
    } else if f[0] != '%' {
      UncutIffAllFit(f[1..], args, NO_FLAGS, pad, out + [f[0]], size);
      assert out + Rendered(f, args, flags, pad, size) == out + [f[0]] + Rendered(f[1..], args, NO_FLAGS, pad, size);
    } else {
      UncutStep(f, args, flags, pad, out, size);
    }
  }

  lemma {:induction false} UncutStep(f: seq<char>, args: seq<Arg>, flags: Flags, pad: nat, out: seq<char>, size: nat)
    requires WellFormed(f, args, size) && |out| < size && f != [] && f[0] == '%'
    ensures var all := out + Rendered(f, args, flags, pad, size);
            var o := Output(f, args, flags, pad, out, size);
            && |o| <= size
            && (o == all <==> AllFit(f, args, flags, pad, |out|, size))
            && (o == all || |o| < |all|)
    decreases |f|, 0
  {
    hide WellFormed, First, Convert, Piece, PieceFits, FlagsAfter;
    var d := First(f, args, flags, pad, size);
    var out' := Convert(out, d.c, d.arg, d.flags, d.pad, size);
    ConvertBound(out, d.c, d.arg, d.flags, d.pad, size);
    ConvertCount(out, d.c, d.arg, d.flags, d.pad, size);
    var flags' := FlagsAfter(d.c, d.flags);
    UncutIffAllFit(d.rest, d.args, flags', d.pad, out', size);
    Joined(out, Piece(d.c, d.arg, d.flags, d.pad), Rendered(d.rest, d.args, flags', d.pad, size), out',
           Output(d.rest, d.args, flags', d.pad, out', size));
  }

  /** If the piece was cut, or what follows it was, so is the whole. */
  lemma Joined(out: seq<char>, piece: seq<char>, rest: seq<char>, out': seq<char>, o: seq<char>)
    requires out' == out + piece || |out'| < |out + piece|
    requires o == out' + rest || |o| < |out' + rest|
    ensures o == out + (piece + rest) || |o| < |out + (piece + rest)|
    ensures o == out + (piece + rest) <==> out' == out + piece && o == out' + rest
  {
    assert out + (piece + rest) == out + piece + rest;
  }

  /** Twice the room of the text is always enough. */
  lemma {:induction false} TwiceTheRoom(f: seq<char>, args: seq<Arg>, flags: Flags, pad: nat, n: nat, size: nat)
    requires WellFormed(f, args, size) && size > 0
    requires 2 * (n + |Rendered(f, args, flags, pad, size)|) <= size
    ensures AllFit(f, args, flags, pad, n, size)
    decreases |f|
  {
    if f != [] {
      if f[0] != '%' {
        TwiceTheRoom(f[1..], args, NO_FLAGS, pad, n + 1, size);
      } else {
        DirectiveInHalf(f, args, flags, pad, n, size);
      }
    }
  }

  lemma {:induction false} DirectiveInHalf(f: seq<char>, args: seq<Arg>, flags: Flags, pad: nat, n: nat, size: nat)
    requires WellFormed(f, args, size) && size > 0 && f != [] && f[0] == '%'
    requires 2 * (n + |Rendered(f, args, flags, pad, size)|) <= size
    ensures AllFit(f, args, flags, pad, n, size)
    decreases |f|, 0
  {
    hide WellFormed, First, Piece, PieceFits, FlagsAfter;
    var d := First(f, args, flags, pad, size);
    PieceFitsInHalf(d.c, d.arg, d.flags, d.pad, n, size);
    TwiceTheRoom(d.rest, d.args, FlagsAfter(d.c, d.flags), d.pad, n + |Piece(d.c, d.arg, d.flags, d.pad)|, size);
  }

  lemma PieceFitsInHalf(c: char, a: Arg, flags: Flags, pad: nat, n: nat, size: nat)
    requires size > 0 && 2 * (n + |Piece(c, a, flags, pad)|) <= size
    ensures PieceFits(c, a, flags, pad, n, size)
  {
    BodyNotEmpty(c, a, flags);
  }

  /** What has a sign or a prefix has a digit. */
  lemma BodyNotEmpty(c: char, a: Arg, flags: Flags)
    ensures SignText(c, a.value, flags) != [] ==> BodyText(c, a) != []
  {
    hide Digits.Digits;
    DigitsShape(a.value, 16, 16);
    DigitsShape(a.value, 10, 20);
    DigitsShape(a.value, 8, 16);
  }

  /** Half the room is not only enough: a text on its own is cut as soon as it is longer
      than half the buffer, rounded up. */
  lemma {:induction false} LoneString(text: seq<char>, size: nat)
    requires Usable(Arg(0, text), size)
    ensures WellFormed("%s", [Arg(0, text)], size)
    ensures Output("%s", [Arg(0, text)], NO_FLAGS, 0, [], size) ==
            if 2 * |text| <= size + 1 then text else text[..(size + 1) / 2]
  {
    var f, args := "%s", [Arg(0, text)];
    assert f[1..] == ['s'] && f[1..][1..] == [] && args[1..] == [];
    assert WellFormedOptions(f[1..]) && Parse(f[1..], NO_FLAGS, 0) == Options(['s'], NO_FLAGS, 0);
    assert First(f, args, NO_FLAGS, 0, size) == Directive('s', NO_FLAGS, 0, args[0], [], []);
    assert Body('s', args[0], 0, size) == text && Padding(|text|, FlagsAfter('s', NO_FLAGS), 0) == [];
    assert Convert([], 's', args[0], NO_FLAGS, 0, size) == Emit(Emit([], [], size), text, size);
    assert Emit([], [], size) == [];
  }

  // ----- the code -----

  /** The buffer holds the string `s` and zeros after it. */
  ghost predicate Holds(buf: seq<char>, s: seq<char>) {
    && |s| < |buf| && s == buf[..|s|]
    && (forall i :: 0 <= i < |s| ==> s[i] != NUL)
    && forall i :: |s| <= i < |buf| ==> buf[i] == NUL
  }

  /** The loop that pads. */
  method EmitFill(str: array<char>, n0: nat, size: nat, k: nat, c: char) returns (n: nat)
    requires n0 <= size <= str.Length
    modifies str
    ensures n0 <= n <= size
    ensures str[..n] == Emit(old(str[..n0]), Fill(k, c), size)
    ensures forall j :: n <= j < str.Length ==> str[j] == old(str[j])
  {
    n := n0;
    var i := 0;
    while i < k && i + n < size
      invariant i <= k && n == n0 + i <= size && i <= Room(size, n0)
      invariant str[..n] == old(str[..n0]) + Fill(i, c)
      invariant forall j :: n <= j < str.Length ==> str[j] == old(str[j])
    {
      str[n] := c;
      i, n := i + 1, n + 1;
      assert Fill(i, c) == Fill(i - 1, c) + [c];
    }
    assert i < k ==> Fill(i, c) == Fill(k, c)[..Room(size, n0)];
  }

  /** The loop that copies the local buffer out. */
  method EmitBuffer(str: array<char>, n0: nat, size: nat, buf: array<char>, ghost body: seq<char>) returns (n: nat)
    requires n0 <= size <= str.Length && str != buf && Holds(buf[..], body)
    modifies str
    ensures n0 <= n <= size
    ensures str[..n] == Emit(old(str[..n0]), body, size)
    ensures forall j :: n <= j < str.Length ==> str[j] == old(str[j])
  {
    n := n0;
    var k := BufferLength(buf, body);
    var i := 0;
    while i < k && i + n < size
      invariant i <= k && n == n0 + i <= size && i <= Room(size, n0)
      invariant buf[..] == old(buf[..])
      invariant str[..n] == old(str[..n0]) + body[..i]
      invariant forall j :: n <= j < str.Length ==> str[j] == old(str[j])
    {
      str[n] := buf[i];
      i, n := i + 1, n + 1;
      assert body[..i] == body[..i - 1] + [body[i - 1]];
    }
    assert i == k ==> body[..i] == body;
  }

  method BufferLength(buf: array<char>, ghost body: seq<char>) returns (k: nat)
    requires Holds(buf[..], body)
    ensures k == |body|
  {
    assert buf[..][|body|] == NUL;
    k := StrLen(buf[..]);
  }

  /** Clearing the buffer up to the end of its string. */
  method ClearBuffer(buf: array<char>, ghost body: seq<char>)
    requires Holds(buf[..], body)
    modifies buf
    ensures Holds(buf[..], [])
  {
    var k := BufferLength(buf, body);
    for i := 0 to k
      invariant forall j :: 0 <= j < i || k <= j < buf.Length ==> buf[j] == NUL
    {
      buf[i] := NUL;
    }
  }

  /** A number into the cleared buffer. */
  method WriteNumeral(buf: array<char>, value: nat, base: nat, len: nat)
    requires 2 <= base <= 36 && 1 <= len < buf.Length && Holds(buf[..], [])
    modifies buf
    ensures Holds(buf[..], Numeral(value, base, len))
  {
    NumeralShape(value, base, len);
    var r := Ulltostr(value, buf, base, len);
  }

  lemma NumeralShape(value: nat, base: nat, len: nat)
    requires 2 <= base <= 36 && len >= 1
    ensures var s := Numeral(value, base, len); |s| <= len && forall i :: 0 <= i < |s| ==> s[i] != NUL
  {
    hide Digits.Digits;
    DigitsShape(value, base, len);
  }

  /** `strncpy` into the cleared buffer: at most `room` characters, then zeros. */
  method WriteText(buf: array<char>, text: seq<char>, room: nat)
    requires 0 < room <= buf.Length && (|text| < buf.Length || room < buf.Length) && Holds(buf[..], [])
    requires forall i :: 0 <= i < |text| ==> text[i] != NUL
    modifies buf
    ensures Holds(buf[..], if |text| > room then text[..room] else text)
  {
    var i := 0;
    while i < |text| && i < room
      invariant i <= |text| && i <= room
      invariant buf[..i] == text[..i] && forall j :: i <= j < buf.Length ==> buf[j] == NUL
    {
      buf[i] := text[i];
      i := i + 1;
    }
  }

  /** One character at the end of the output. */
  method Put(str: array<char>, n: nat, c: char) returns (n': nat)
    requires n < str.Length
    modifies str
    ensures n' == n + 1 && str[..n'] == old(str[..n]) + [c]
    ensures forall j :: n' <= j < str.Length ==> str[j] == old(str[j])
  {
    str[n] := c;
    n' := n + 1;
  }

  /** A string of at most one character into the cleared buffer. */
  method WriteChar(buf: array<char>, c: char)
    requires buf.Length >= 2 && Holds(buf[..], [])
    modifies buf
    ensures Holds(buf[..], if c == NUL then [] else [c])
  {
    buf[0], buf[1] := c, NUL;
  }

  predicate IsNumber(c: char) {
    c in ['X', 'x', 'd', 'i', 'u', 'l', 'o']
  }

  /** The cases of the inner switch that print a number. */
  method WriteNumber(str: array<char>, n0: nat, size: nat, buf: array<char>, c: char, a: Arg, flags: Flags)
    returns (n: nat)
    requires str != buf && 21 <= size <= str.Length && buf.Length == size && n0 < size
    requires IsNumber(c) && Holds(buf[..], [])
    modifies str, buf
    ensures n0 <= n <= size
    ensures str[..n] == old(str[..n0]) + Sign(c, a.value, flags, n0, size)
    ensures forall j :: n <= j < str.Length ==> str[j] == old(str[j])
    ensures Holds(buf[..], BodyText(c, a))
  {
    hide Numeral, Holds;
    n := n0;
    if c == 'x' || c == 'X' {
      WriteNumeral(buf, a.value, 16, 16);
      if flags.prefix && n + 2 < size {
        n := Put(str, n, '0');
        n := Put(str, n, 'x');
      }
    } else if c == 'd' {
      if flags.sign && n + 1 < size {
        n := Put(str, n, if a.value != 0 && !Negative(a.value) then '+' else '-');
      }
      WriteNumeral(buf, a.value, 10, 20);
    } else if c == 'i' {
      if n + 1 < size {
        if Negative(a.value) {
          n := Put(str, n, '-');
        }
      }
      WriteNumeral(buf, a.value, 10, 20);
    } else if c == 'u' {
      WriteNumeral(buf, a.value, 10, 20);
    } else if c == 'l' {
      WriteNumeral(buf, a.value, 16, 16);
    } else {
      WriteNumeral(buf, a.value, 8, 16);
      if flags.prefix && n + 2 < size {
        n := Put(str, n, '0');
      }
    }
  }

  /** All the cases of the inner switch that end a directive. */
  method WriteConversion(str: array<char>, n0: nat, size: nat, buf: array<char>, c: char, a: Arg, flags0: Flags)
    returns (n: nat, flags: Flags)
    requires str != buf && 21 <= size <= str.Length && buf.Length == size && n0 < size
    requires IsConversion(c) && (TakesArgument(c) ==> Usable(a, size)) && Holds(buf[..], [])
    modifies str, buf
    ensures n0 <= n <= size && flags == FlagsAfter(c, flags0)
    ensures str[..n] == old(str[..n0]) + Sign(c, a.value, flags0, n0, size)
    ensures forall j :: n <= j < str.Length ==> str[j] == old(str[j])
    ensures Holds(buf[..], Body(c, a, n0, size))
  {
    hide Numeral, Holds;
    n, flags := n0, flags0;
    if IsNumber(c) {
      n := WriteNumber(str, n, size, buf, c, a, flags);
    } else if c == 's' {
      WriteText(buf, a.text, size - n);
      flags := flags.(notNumber := true);
    } else if c == 'c' {
      WriteChar(buf, (a.value % 256) as char);
      flags := flags.(notNumber := true);
    } else if c == 'w' {
      flags := flags.(padded := true);
      WriteChar(buf, ' ');
    } else {
      WriteChar(buf, '%');
    }
  }

  /** A whole directive from its conversion character on: switch, padding, copy, clearing. */
  method RunConversion(str: array<char>, n0: nat, size: nat, buf: array<char>, c: char, a: Arg, flags0: Flags, pad: nat)
    returns (n: nat, flags: Flags)
    requires str != buf && 21 <= size <= str.Length && buf.Length == size && n0 < size
    requires IsConversion(c) && (TakesArgument(c) ==> Usable(a, size)) && Holds(buf[..], [])
    modifies str, buf
    ensures n0 <= n <= size && flags == FlagsAfter(c, flags0)
    ensures str[..n] == Convert(old(str[..n0]), c, a, flags0, pad, size)
    ensures forall j :: n <= j < str.Length ==> str[j] == old(str[j])
    ensures Holds(buf[..], [])
  {
    hide Holds, IsConversion, TakesArgument, Usable, FlagsAfter, Sign, Body, Fill;
    ghost var body := Body(c, a, n0, size);
    n, flags := WriteConversion(str, n0, size, buf, c, a, flags0);
    var k := BufferLength(buf, body);
    if flags.padded && pad > k {
      n := EmitFill(str, n, size, pad - k, if flags.notNumber then ' ' else '0');
    }
    n := EmitBuffer(str, n, size, buf, body);
    ClearBuffer(buf, body);
  }

  /** From `next_format` to a conversion character. */
  method ParseOptions(f: seq<char>, start: nat, flags0: Flags, pad0: nat) returns (pos: nat, flags: Flags, pad: nat)
    requires start <= |f| && WellFormedOptions(f[start..])
    ensures start <= pos < |f|
    ensures Parse(f[start..], flags0, pad0) == Options(f[pos..], flags, pad)
  {
    pos, flags, pad := start, flags0, pad0;
    while !IsConversion(f[pos])
      invariant start <= pos < |f| && WellFormedOptions(f[pos..])
      invariant Parse(f[pos..], flags, pad) == Parse(f[start..], flags0, pad0)
      decreases |f| - pos
    {
      assert f[pos..][1..] == f[pos + 1..];
      if f[pos] == '#' {
        flags, pad, pos := flags.(prefix := true, padded := true), 16, pos + 1;
      } else if f[pos] == '+' {
        flags, pos := flags.(sign := true), pos + 1;
      } else {
        pos, pad := ParseWidth(f, pos);
        flags := flags.(padded := true);
      }
    }
  }

  /** A run of digits. */
  method ParseWidth(f: seq<char>, start: nat) returns (pos: nat, pad: nat)
    requires start < |f| && IsDigit(f[start])
    ensures start < pos <= |f| && Number(f[start..], 0) == (pad, f[pos..])
  {
    pos, pad := start, 0;
    while pos < |f| && IsDigit(f[pos])
      invariant start <= pos <= |f| && (pos == start ==> pad == 0)
      invariant Number(f[pos..], pad) == Number(f[start..], 0)
    {
      assert f[pos..][1..] == f[pos + 1..];
      pad := (pad * 10 + (f[pos] as int - '0' as int)) % WORD;
      pos := pos + 1;
    }
  }

  /** A directive from its percent sign on. */
  method RunDirective(str: array<char>, n0: nat, size: nat, buf: array<char>, format: seq<char>, start: nat,
                      args: seq<Arg>, arg0: nat, flags0: Flags, pad0: nat)
    returns (n: nat, pos: nat, arg: nat, flags: Flags, pad: nat, ghost d: Directive)
    requires str != buf && 21 <= size <= str.Length && buf.Length == size && n0 < size && Holds(buf[..], [])
    requires start < |format| && format[start] == '%' && arg0 <= |args| &&
             WellFormed(format[start..], args[arg0..], size)
    modifies str, buf
    ensures d == First(format[start..], args[arg0..], flags0, pad0, size)
    ensures start < pos <= |format| && format[pos..] == d.rest && arg <= |args| && args[arg..] == d.args
    ensures flags == FlagsAfter(d.c, d.flags) && pad == d.pad && n0 <= n <= size && Holds(buf[..], [])
    ensures str[..n] == Convert(old(str[..n0]), d.c, d.arg, d.flags, d.pad, size)
    ensures forall j :: n <= j < str.Length ==> str[j] == old(str[j])
  {
    hide Holds, Convert, FlagsAfter, Parse, WellFormedOptions, IsConversion, TakesArgument, Usable;
    d := First(format[start..], args[arg0..], flags0, pad0, size);
    assert format[start..][1..] == format[start + 1..];
    ParseSame(format[start + 1..], NO_FLAGS, 0, flags0, pad0);
    pos, flags, pad := ParseOptions(format, start + 1, flags0, pad0);
    arg := arg0;
    if TakesArgument(format[pos]) {
      n, flags := RunConversion(str, n0, size, buf, format[pos], args[arg], flags, pad);
      arg := arg + 1;
    } else {
      n, flags := RunConversion(str, n0, size, buf, format[pos], NO_ARG, flags, pad);
    }
    pos := pos + 1;
  }

  /** `vsnprintf`, for a format without its terminator. */
  method Vsnprintf(str: array<char>, size: nat, format: seq<char>, args: seq<Arg>) returns (n: nat)
    requires 21 <= size <= str.Length && WellFormed(format, args, size)
    modifies str
    ensures n <= size
    ensures str[..n] == Output(format, args, NO_FLAGS, 0, [], size)
    ensures forall j :: n <= j < str.Length ==> str[j] == old(str[j])
  {
    hide First, Convert, FlagsAfter, Parse, WellFormedOptions;
    var buf := new char[size](_ => NUL);
    n := 0;
    var pos: nat, arg: nat, pad: nat, flags := 0, 0, 0, NO_FLAGS;
    while pos < |format| && n < size
      invariant n <= size && pos <= |format| && arg <= |args| && Holds(buf[..], [])
      invariant WellFormed(format[pos..], args[arg..], size)
      invariant Output(format[pos..], args[arg..], flags, pad, str[..n], size) ==
                Output(format, args, NO_FLAGS, 0, [], size)
      invariant forall j :: n <= j < str.Length ==> str[j] == old(str[j])
      decreases |format| - pos
    {
      if format[pos] != '%' {
        assert format[pos..][1..] == format[pos + 1..];
        n := Put(str, n, format[pos]);
        pos, flags := pos + 1, NO_FLAGS;
      } else {
        ghost var d;
        n, pos, arg, flags, pad, d := RunDirective(str, n, size, buf, format, pos, args, arg, flags, pad);
      }
    }
  }
}
