/** The scrolling text screen, as a window on an unbounded text. */
module Screen {

  const COLUMNS: nat := 80
  const ROWS: nat := 25
  const PITCH: nat := 160      // bytes in a row

  const NEWLINE: bv8 := 0x0A
  const BACKSPACE: bv8 := 0x08
  const TAB: bv8 := 0x09

  // ----- the text, laid out -----

  /** Adds one character to the last line; a full line is followed by an empty one. */
  function Put(lines: seq<seq<bv8>>, c: bv8): seq<seq<bv8>>
    requires lines != []
  {
    if c == NEWLINE then lines + [[]] else
    var line := lines[|lines| - 1] + [c];
    var grown := lines[|lines| - 1 := line];
    if |line| >= COLUMNS then grown + [[]] else grown
  }

  /** The text as wrapped lines; the cursor is at the end of the last one. */
  function Lines(text: seq<bv8>): (lines: seq<seq<bv8>>)
    ensures lines != []
    ensures forall i :: 0 <= i < |lines| ==> |lines[i]| <= COLUMNS
    ensures |lines[|lines| - 1]| < COLUMNS
    decreases |text|
  {
    if text == [] then [[]] else Put(Lines(text[..|text| - 1]), text[|text| - 1])
  }

  lemma {:induction false} LinesOfMore(text: seq<bv8>, c: bv8)
    ensures Lines(text + [c]) == Put(Lines(text), c)
  {
    assert (text + [c])[..|text|] == text;
  }

  function Join(lines: seq<seq<bv8>>): seq<bv8> {
    if lines == [] then [] else Join(lines[..|lines| - 1]) + lines[|lines| - 1]
  }

  function WithoutNewlines(text: seq<bv8>): seq<bv8>
    decreases |text|
  {
    if text == [] then [] else
    WithoutNewlines(text[..|text| - 1]) + if text[|text| - 1] == NEWLINE then [] else [text[|text| - 1]]
  }

  /** Wrapping loses no character and changes no order. */
  lemma {:induction false} LinesKeepText(text: seq<bv8>)
    ensures Join(Lines(text)) == WithoutNewlines(text)
    decreases |text|
  {
    if text == [] {
      assert Lines(text)[..0] == [];
    } else {
      var c, lines := text[|text| - 1], Lines(text[..|text| - 1]);
      LinesKeepText(text[..|text| - 1]);
      var grown := lines[|lines| - 1 := lines[|lines| - 1] + [c]];
      assert grown[..|lines| - 1] == lines[..|lines| - 1];
      assert (lines + [[]])[..|lines|] == lines && (grown + [[]])[..|lines|] == grown;
      assert Join(grown) == Join(lines) + [c];
      assert Join(grown + [[]]) == Join(grown) + [] == Join(grown);
      assert Join(lines + [[]]) == Join(lines) + [] == Join(lines);
    }
  }

  // ----- the layout in plain terms -----

  lemma PutAfter(a: seq<seq<bv8>>, b: seq<seq<bv8>>, c: bv8)
    requires b != []
    ensures Put(a + b, c) == a + Put(b, c)
  {
    assert (a + b)[|a + b| - 1] == b[|b| - 1];
    var line := b[|b| - 1] + [c];
    assert (a + b)[|a + b| - 1 := line] == a + b[|b| - 1 := line];
    assert a + b + [[]] == a + (b + [[]]);
    assert a + b[|b| - 1 := line] + [[]] == a + (b[|b| - 1 := line] + [[]]);
  }

  /** A newline ends a line: what comes before it and after it is laid out on its own. */
  lemma {:induction false} NewlineEndsLine(a: seq<bv8>, b: seq<bv8>)
    ensures Lines(a + [NEWLINE] + b) == Lines(a) + Lines(b)
    decreases |b|
  {
    if b == [] {
      assert a + [NEWLINE] + b == a + [NEWLINE];
      LinesOfMore(a, NEWLINE);
    } else {
      var b', c := b[..|b| - 1], b[|b| - 1];
      assert a + [NEWLINE] + b == (a + [NEWLINE] + b') + [c] && b == b' + [c];
      NewlineEndsLine(a, b');
      hide Put, Lines;
      LinesOfMore(a + [NEWLINE] + b', c);
      LinesOfMore(b', c);
      PutAfter(Lines(a), Lines(b'), c);
    }
  }

  /** Characters 80 i to 80 i + 79 of a text, or as many of them as there are. */
  function Eighty(t: seq<bv8>, i: nat): seq<bv8>
    requires 80 * i <= |t|
  {
    if 80 * i + 80 <= |t| then t[80 * i..80 * i + 80] else t[80 * i..]
  }

  /** A text without newlines is broken every 80 characters and nowhere else. */
  lemma {:induction false} BreaksAtEighty(t: seq<bv8>)
    requires NEWLINE !in t
    ensures |Lines(t)| == |t| / 80 + 1
    ensures forall i :: 0 <= i < |Lines(t)| ==> Lines(t)[i] == Eighty(t, i)
    decreases |t|
  {
    if t != [] {
      var t', c := t[..|t| - 1], t[|t| - 1];
      assert t == t' + [c] && c in t;
      BreaksAtEighty(t');
      LinesOfMore(t', c);
      hide Lines, Put;
      BreakStep(t', c, Lines(t'));
    }
  }

  lemma BreakStep(t: seq<bv8>, c: bv8, lines: seq<seq<bv8>>)
    requires c != NEWLINE && |lines| == |t| / 80 + 1
    requires forall i :: 0 <= i < |lines| ==> lines[i] == Eighty(t, i)
    ensures |Put(lines, c)| == |t + [c]| / 80 + 1
    ensures forall i :: 0 <= i < |Put(lines, c)| ==> Put(lines, c)[i] == Eighty(t + [c], i)
  {
    var n := |t| / 80;
    LastEighty(t, c, n);
    forall i | 0 <= i < n ensures Eighty(t + [c], i) == Eighty(t, i) {
      EarlierEighty(t, c, i);
    }
    hide Eighty;
  }

  lemma EarlierEighty(t: seq<bv8>, c: bv8, i: nat)
    requires 80 * i + 80 <= |t|
    ensures Eighty(t + [c], i) == Eighty(t, i)
  {
    assert (t + [c])[80 * i..80 * i + 80] == t[80 * i..80 * i + 80];
  }

  lemma LastEighty(t: seq<bv8>, c: bv8, n: nat)
    requires 80 * n <= |t| < 80 * n + 80
    ensures |Eighty(t, n)| == |t| - 80 * n && Eighty(t + [c], n) == Eighty(t, n) + [c]
    ensures |t| + 1 == 80 * n + 80 ==> Eighty(t + [c], n + 1) == []
  {
    var start := 80 * n;
    assert (t + [c])[start..] == t[start..] + [c];
    if |t| + 1 == start + 80 {
      assert (t + [c])[start..start + 80] == (t + [c])[start..];
    }
  }

  /** The attribute byte next to a character: `char` is signed, so a character from 0x80
      on sets all its bits. */
  function Attribute(c: bv8, attrib: bv8): bv8 {
    if c & 0x80 != 0 then 0xFF else attrib
  }

  /** Byte `j` of the row that shows `line`. */
  function RowByte(line: seq<bv8>, attrib: bv8, j: nat): bv8 {
    if j / 2 < |line| then (if j % 2 == 0 then line[j / 2] else Attribute(line[j / 2], attrib))
    else if j % 2 == 0 then 0 else attrib
  }

  /** The first line that is still on the screen. */
  function Top(lines: seq<seq<bv8>>): nat {
    if |lines| <= ROWS then 0 else |lines| - ROWS
  }

  /** The line shown in row `r`: the last 25 lines, with empty ones below a short text. */
  function LineIn(lines: seq<seq<bv8>>, r: nat): seq<bv8> {
    if Top(lines) + r < |lines| then lines[Top(lines) + r] else []
  }

  function Pos(r: nat, j: nat): nat {
    PITCH * r + j
  }

  lemma PosInjective(r: nat, j: nat, r': nat, j': nat)
    requires j < PITCH && j' < PITCH && Pos(r, j) == Pos(r', j')
    ensures r == r' && j == j'
  {
  }

  /** Ending a line shifts the rows when the screen is full, and changes nothing before. */
  lemma NewLineShifts(lines: seq<seq<bv8>>, r: nat)
    requires r < ROWS
    ensures var lines' := lines + [[]];
            LineIn(lines', r) ==
            if |lines| < ROWS then LineIn(lines, r) else if r == ROWS - 1 then [] else LineIn(lines, r + 1)
  {
  }

  lemma GrownLine(lines: seq<seq<bv8>>, c: bv8, r: nat)
    requires lines != [] && r < ROWS
    ensures var grown := lines[|lines| - 1 := lines[|lines| - 1] + [c]];
            LineIn(grown, r) == if Top(lines) + r == |lines| - 1 then lines[|lines| - 1] + [c] else LineIn(lines, r)
  {
  }

  lemma LastLineIn(lines: seq<seq<bv8>>)
    requires lines != []
    ensures LineIn(lines, |lines| - 1 - Top(lines)) == lines[|lines| - 1]
  {
  }

  lemma GrownRow(line: seq<bv8>, c: bv8, attrib: bv8, j: nat)
    ensures RowByte(line + [c], attrib, j) ==
            if j == 2 * |line| then c else if j == 2 * |line| + 1 then Attribute(c, attrib)
            else RowByte(line, attrib, j)
  {
  }

  lemma HighBit(c: bv8)
    ensures c & 0x80 != 0 <==> c >= 0x80
  {
  }

  /** The cell in row `r` and column `k`: of at most 25 lines the `r`-th, of more the one 25 - r
      from the end. */
  function CellAt(lines: seq<seq<bv8>>, r: nat, k: nat): (c: bv8) {
    var i := if |lines| <= 25 then r else |lines| - 25 + r;
    if i < |lines| && k < |lines[i]| then lines[i][k] else 0
  }

  class Terminal {
    const vga: array<bv8>
    var attrib: bv8
    var x: nat
    var y: nat
    ghost var text: seq<bv8>

    /** The screen shows the lines, and the cursor stands where the next character goes. */
    ghost predicate Shows(lines: seq<seq<bv8>>)
      reads this, vga
    {
      && vga.Length >= 2 * ROWS * PITCH
      && forall r: nat, j: nat {:trigger Pos(r, j)} :: r < ROWS && j < PITCH ==>
         vga[Pos(r, j)] == RowByte(LineIn(lines, r), attrib, j)
    }

    ghost predicate Valid()
      reads this, vga
    {
      var lines := Lines(text);
      && Shows(lines)
      && x == 2 * |lines[|lines| - 1]|
      && y == |lines| - 1 - Top(lines)
    }

    /** What the video memory holds, byte by byte: the character of cell (r, k) at 160 r + 2 k,
        its attribute behind it, and the cursor behind the text. */
    lemma ScreenShowsText(r: nat, k: nat)
      requires Valid() && r < 25 && k < 80
      ensures vga.Length >= 160 * r + 2 * k + 2
      ensures vga[160 * r + 2 * k] == CellAt(Lines(text), r, k)
      ensures vga[160 * r + 2 * k + 1] == if CellAt(Lines(text), r, k) < 0x80 then attrib else 0xFF
      ensures x == 2 * |Lines(text)[|Lines(text)| - 1]|
      ensures y == if |Lines(text)| <= 25 then |Lines(text)| - 1 else 24
    {
      hide Lines;
      HighBit(CellAt(Lines(text), r, k));
      assert Pos(r, 2 * k) == 160 * r + 2 * k && Pos(r, 2 * k + 1) == 160 * r + 2 * k + 1;
    }

    constructor (vga: array<bv8>, attrib: bv8)
      ensures this.vga == vga && this.attrib == attrib
    {
      this.vga, this.attrib := vga, attrib;
      x, y, text := 0, 0, [];
    }

    /** `memcpy` is `rep movsb`: one byte after the other, upwards. */
    method MemCpy(dst: nat, src: nat, n: nat)
      requires dst <= src && src + n <= vga.Length
      modifies vga
      ensures forall i :: dst <= i < dst + n ==> vga[i] == old(vga[i + (src - dst)])
      ensures forall i :: 0 <= i < dst || dst + n <= i < vga.Length ==> vga[i] == old(vga[i])
    {
      for k := 0 to n
        invariant forall i :: dst <= i < dst + k ==> vga[i] == old(vga[i + (src - dst)])
        invariant forall i :: 0 <= i < dst || dst + k <= i < vga.Length ==> vga[i] == old(vga[i])
      {
        vga[dst + k] := vga[src + k];
      }
    }

    /** `memsetw` with the value `attrib << 8`: `n` bytes, two at a time. */
    method Blank(from: nat, n: nat)
      requires n % 2 == 0 && from + n <= vga.Length
      modifies vga
      ensures forall i :: 0 <= i < n ==> vga[from + i] == if i % 2 == 0 then 0 else attrib
      ensures forall i :: 0 <= i < from || from + n <= i < vga.Length ==> vga[i] == old(vga[i])
    {
      var k := 0;
      while k < n
        invariant k <= n && k % 2 == 0
        invariant forall i :: 0 <= i < k ==> vga[from + i] == if i % 2 == 0 then 0 else attrib
        invariant forall i :: 0 <= i < from || from + k <= i < vga.Length ==> vga[i] == old(vga[i])
      {
        vga[from + k] := 0;
        vga[from + k + 1] := attrib;
        k := k + 2;
      }
    }

    /** `vga_clear`. */
    method Clear()
      requires vga.Length >= 2 * ROWS * PITCH
      modifies this, vga
      ensures Valid() && text == [] && attrib == old(attrib)
    {
      Blank(0, COLUMNS * ROWS * 2);
      y := 0;
      x := 0;
      text := [];
      forall r: nat, j: nat {:trigger Pos(r, j)} | r < ROWS && j < PITCH
        ensures vga[Pos(r, j)] == RowByte(LineIn([[]], r), attrib, j)
      {
        assert vga[0 + Pos(r, j)] == if Pos(r, j) % 2 == 0 then 0 else attrib;
        assert Pos(r, j) % 2 == j % 2;
      }
    }

    /** `vga_scroll`, after at most one line too many.  The copy overlaps itself, and it
        copies rows from below the screen that the blank row then covers or that are never
        shown. */
    method Scroll()
      requires y <= ROWS && vga.Length >= 2 * ROWS * PITCH
      modifies this`y, vga
      ensures y == if old(y) >= ROWS then ROWS - 1 else old(y)
      ensures old(y) < ROWS ==> vga[..] == old(vga[..])
      ensures old(y) == ROWS ==> forall r: nat, j: nat {:trigger Pos(r, j)} :: r < ROWS && j < PITCH ==>
                vga[Pos(r, j)] == if r == ROWS - 1 then RowByte([], attrib, j) else old(vga[Pos(r + 1, j)])
    {
      if y >= ROWS {
        var temp := y - (ROWS - 1);
        MemCpy(0, temp * PITCH, (ROWS - temp) * PITCH * 2);
        label copied:
        Blank((ROWS - 1) * PITCH, PITCH);
        y := ROWS - 1;
        forall r: nat, j: nat {:trigger Pos(r, j)} | r < ROWS && j < PITCH
          ensures vga[Pos(r, j)] == if r == ROWS - 1 then RowByte([], attrib, j) else old(vga[Pos(r + 1, j)])
        {
          if r == ROWS - 1 {
            assert vga[(ROWS - 1) * PITCH + j] == if j % 2 == 0 then 0 else attrib;
          } else {
            assert Pos(r + 1, j) == Pos(r, j) + PITCH;
          }
        }
      }
    }

    /** `vga_kputc`. */
    method KPutc(c: bv8, col: nat, row: nat)
      requires Pos(row, col) + 1 < vga.Length
      modifies vga
      ensures vga[..] == old(vga[..])[Pos(row, col) := c][Pos(row, col) + 1 := Attribute(c, attrib)]
    {
      var address := col + row * PITCH;
      vga[address] := c;
      vga[address + 1] := Attribute(c, attrib);
    }

    /** Starting a new line: the cursor goes down, and the screen follows when it must. */
    method NextLine(ghost lines: seq<seq<bv8>>)
      requires Shows(lines) && lines != [] && y == |lines| - 1 - Top(lines)
      modifies this`x, this`y, vga
      ensures Shows(lines + [[]]) && x == 0 && y == |lines| - Top(lines + [[]])
    {
      y := y + 1;
      x := 0;
      label before:
      Scroll();
      ghost var lines' := lines + [[]];
      forall r: nat, j: nat {:trigger Pos(r, j)} | r < ROWS && j < PITCH
        ensures vga[Pos(r, j)] == RowByte(LineIn(lines', r), attrib, j)
      {
        NewLineShifts(lines, r);
        if |lines| < ROWS {
          assert vga[..][Pos(r, j)] == old@before(vga[..])[Pos(r, j)];
        }
      }
    }

    /** The cell at the cursor takes the character. */
    method WriteCell(c: bv8, ghost lines: seq<seq<bv8>>)
      requires Shows(lines) && lines != [] && |lines[|lines| - 1]| < COLUMNS
      requires x == 2 * |lines[|lines| - 1]| && y == |lines| - 1 - Top(lines)
      modifies vga
      ensures Shows(lines[|lines| - 1 := lines[|lines| - 1] + [c]])
    {
      ghost var last := lines[|lines| - 1];
      KPutc(c, x, y);
      forall r: nat, j: nat {:trigger Pos(r, j)} | r < ROWS && j < PITCH
        ensures vga[Pos(r, j)] == RowByte(LineIn(lines[|lines| - 1 := last + [c]], r), attrib, j)
      {
        hide RowByte, Attribute, LineIn;
        GrownLine(lines, c, r);
        GrownRow(last, c, attrib, j);
        LastLineIn(lines);
        if Pos(r, j) == Pos(y, x) { PosInjective(r, j, y, x); }
        if Pos(r, j) == Pos(y, x + 1) { PosInjective(r, j, y, x + 1); }
        assert vga[..][Pos(r, j)] ==
          if r == y && j == x then c else if r == y && j == x + 1 then Attribute(c, attrib)
          else old(vga[Pos(r, j)]);
      }
    }

    /** `vga_putc` of any character but backspace and tab. */
    method Putc(c: bv8)
      requires Valid() && c != BACKSPACE && c != TAB
      modifies this, vga
      ensures Valid() && text == old(text) + [c] && attrib == old(attrib)
    {
      hide Lines, RowByte, LineIn;
      ghost var lines := Lines(text);
      LinesOfMore(text, c);
      text := text + [c];
      if c == NEWLINE {
        NextLine(lines);
        return;
      }
      WriteCell(c, lines);
      x := x + 2;
      if x >= PITCH {
        NextLine(lines[|lines| - 1 := lines[|lines| - 1] + [c]]);
      } else {
        Scroll();
      }
    }

    /** `vga_puts` of a string without backspaces and tabs. */
    method Puts(s: seq<bv8>)
      requires Valid() && forall i :: 0 <= i < |s| ==> s[i] != 0 && s[i] != BACKSPACE && s[i] != TAB
      modifies this, vga
      ensures Valid() && text == old(text) + s && attrib == old(attrib)
      ensures x % 2 == 0 && x < PITCH && y < ROWS
    {
      for i := 0 to |s|
        invariant Valid() && text == old(text) + s[..i] && attrib == old(attrib)
      {
        assert s[..i + 1] == s[..i] + [s[i]];
        Putc(s[i]);
      }
      assert s[..|s|] == s;
    }
  }
}
