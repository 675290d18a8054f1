/** The VGA text console of kernel/monitor.c: an 80 x 25 grid of 16-bit
    cells (character in the low byte, attribute in the high byte), a
    0-based cursor and the current attribute byte. The hardware cursor
    update (port writes to 0x3D4/0x3D5) is not part of this model. */
module Console {
  import opened Machine
  import Stdio

  const COLS: nat := 80
  const ROWS: nat := 25
  const CELLS: nat := 2000

  const BACKSPACE: Byte := 0x08
  const TAB: Byte := 0x09
  const LF: Byte := 0x0A
  const CR: Byte := 0x0D
  const SPACE: Byte := 0x20

  /** White on black: the attribute the console starts with. */
  const DEFAULT_ATTR: Byte := 0x0F

  /** `ch | attr << 8`: the 16-bit cell a character is stored as. */
  function Cell(ch: Byte, attr: Byte): nat
  {
    ch + attr * 256
  }

  function Blank(attr: Byte): nat
  {
    Cell(SPACE, attr)
  }

  /** A cell reads back as the character and the attribute it was made of. */
  lemma CellDecodes(ch: Byte, attr: Byte)
    ensures Cell(ch, attr) % 256 == ch && Cell(ch, attr) / 256 == attr
  {
  }

  function BlankRow(attr: Byte): (r: seq<nat>)
    ensures |r| == COLS
  {
    seq(COLS, _ => Blank(attr))
  }

  predicate Printable(c: Byte)
  {
    SPACE <= c <= 0x7E
  }

  // ---------------------------------------------------------------------
  // The console as a value
  // ---------------------------------------------------------------------

  /** cursor_x, cursor_y, attributeByte and the video memory. */
  datatype Screen = Screen(x: nat, y: nat, attr: Byte, cells: seq<nat>)

  /** The cursor is on the grid and the attribute is one set_color can
      produce (its background fits in three bits). */
  predicate Valid(s: Screen)
  {
    |s.cells| == CELLS && s.x < COLS && s.y < ROWS && s.attr < 128
  }

  /** The effect of one character on cursor and cells before the end-of-row
      and scroll checks. */
  function Advance(s: Screen, c: Byte): (r: Screen)
    requires Valid(s)
    ensures |r.cells| == CELLS && r.x <= COLS && r.y <= ROWS && r.attr == s.attr
  {
    var at := s.y * COLS + s.x;
    if c == BACKSPACE && s.x != 0 then
      s.(x := s.x - 1, cells := s.cells[at - 1 := Blank(s.attr)])
    else if c == TAB then
      // (x + 8) & ~7
      s.(x := (s.x + 8) / 8 * 8)
    else if c == CR then
      s.(x := 0)
    else if c == LF then
      s.(x := 0, y := s.y + 1)
    else if Printable(c) then
      s.(x := s.x + 1, cells := s.cells[at := Cell(c, s.attr)])
    else
      s
  }

  /** Column 80 moves the cursor to the start of the next row. */
  function Wrap(s: Screen): Screen
  {
    if s.x >= COLS then s.(x := 0, y := s.y + 1) else s
  }

  /** scroll: once the cursor is below the last row, rows 2 to 25 move up
      one row, the last row is blanked and the cursor goes back to row 24
      (0-based). */
  function ScrollSpec(s: Screen): Screen
    requires |s.cells| == CELLS
  {
    if s.y >= ROWS then s.(y := ROWS - 1, cells := s.cells[COLS..] + BlankRow(s.attr)) else s
  }

  /** monitor_put: the cursor stays on the grid. */
  function PutSpec(s: Screen, c: Byte): (r: Screen)
    requires Valid(s)
    ensures Valid(r) && r.attr == s.attr
  {
    ScrollSpec(Wrap(Advance(s, c)))
  }

  /** Characters put one after another. */
  function PutAll(s: Screen, t: seq<Byte>): (r: Screen)
    requires Valid(s)
    ensures Valid(r) && r.attr == s.attr
    decreases |t|
  {
    if |t| == 0 then s else PutSpec(PutAll(s, t[..|t| - 1]), t[|t| - 1])
  }

  lemma PutAllSnoc(s: Screen, t: seq<Byte>, c: Byte)
    requires Valid(s)
    ensures PutAll(s, t + [c]) == PutSpec(PutAll(s, t), c)
  {
    assert (t + [c])[..|t|] == t;
  }

  /** monitor_clear: every cell blank, cursor in the top left corner. */
  function ClearSpec(s: Screen): (r: Screen)
  {
    Screen(0, 0, s.attr, seq(CELLS, _ => Blank(s.attr)))
  }

  /** The cells of a text written with one attribute. */
  function Cells(t: seq<Byte>, attr: Byte): (r: seq<nat>)
    ensures |r| == |t|
  {
    seq(|t|, k requires 0 <= k < |t| => Cell(t[k], attr))
  }

  /** Printable text that fits in the rest of the row lands in consecutive
      cells from the cursor on, and the cursor ends right after it. */
  lemma {:induction false} PutRun(s: Screen, t: seq<Byte>)
    requires Valid(s) && s.x + |t| < COLS
    requires forall k :: 0 <= k < |t| ==> Printable(t[k])
    ensures var at := s.y * COLS + s.x;
      PutAll(s, t) == s.(x := s.x + |t|, cells := s.cells[..at] + Cells(t, s.attr) + s.cells[at + |t|..])
    decreases |t|
  {
    var at := s.y * COLS + s.x;
    if |t| == 0 {
      assert s.cells[..at] + Cells(t, s.attr) + s.cells[at..] == s.cells;
    } else {
      var u := t[..|t| - 1];
      var c := t[|t| - 1];
      assert t == u + [c];
      PutRun(s, u);
      PutAllSnoc(s, u, c);
      var p := PutAll(s, u);
      PutPrintable(p, c);
      CellsExtend(s.cells, at, u, c, s.attr);
    }
  }

  /** A printable character short of the row's end fills the cursor's cell. */
  lemma PutPrintable(s: Screen, c: Byte)
    requires Valid(s) && s.x + 1 < COLS && Printable(c)
    ensures PutSpec(s, c) == s.(x := s.x + 1, cells := s.cells[s.y * COLS + s.x := Cell(c, s.attr)])
  {
  }

  lemma CellsExtend(cells: seq<nat>, at: nat, u: seq<Byte>, c: Byte, attr: Byte)
    requires at + |u| < |cells|
    ensures (cells[..at] + Cells(u, attr) + cells[at + |u|..])[at + |u| := Cell(c, attr)]
      == cells[..at] + Cells(u + [c], attr) + cells[at + |u| + 1..]
  {
    var lhs := (cells[..at] + Cells(u, attr) + cells[at + |u|..])[at + |u| := Cell(c, attr)];
    var rhs := cells[..at] + Cells(u + [c], attr) + cells[at + |u| + 1..];
    assert |lhs| == |rhs|;
    forall k | 0 <= k < |lhs|
      ensures lhs[k] == rhs[k]
    {
      if at <= k < at + |u| {
        assert rhs[k] == Cells(u + [c], attr)[k - at] == Cell(u[k - at], attr);
      }
    }
  }

  /** A backspace right after a printable character in the same row takes the
      cursor back and leaves a blank where the character was. */
  lemma PutThenBackspace(s: Screen, c: Byte)
    requires Valid(s) && s.x + 1 < COLS && Printable(c)
    ensures PutSpec(PutSpec(s, c), BACKSPACE) == s.(cells := s.cells[s.y * COLS + s.x := Blank(s.attr)])
  {
    var at := s.y * COLS + s.x;
    var r1 := PutSpec(s, c);
    assert r1 == s.(x := s.x + 1, cells := s.cells[at := Cell(c, s.attr)]);
    assert r1.cells[at := Blank(s.attr)] == s.cells[at := Blank(s.attr)];
  }

  /** A backspace at the start of a row changes nothing: it never moves
      back to the row above. */
  lemma BackspaceAtRowStart(s: Screen)
    requires Valid(s) && s.x == 0
    ensures PutSpec(s, BACKSPACE) == s
  {
  }

  /** A tab moves to the next multiple of 8 in the same row, or to the start
      of the next row from column 72 on; it writes nothing. */
  lemma TabStop(s: Screen)
    requires Valid(s) && s.y + 1 < ROWS
    ensures var r := PutSpec(s, TAB);
      && r.cells == s.cells
      && r.x % 8 == 0
      && (s.x < 72 ==> s.x < r.x <= s.x + 8 && r.y == s.y)
      && (s.x >= 72 ==> r.x == 0 && r.y == s.y + 1)
  {
  }

  /** A line feed goes to the start of the next row and scrolls on the last
      one; a carriage return only goes to the start of the row. */
  lemma LineFeed(s: Screen)
    requires Valid(s)
    ensures var r := PutSpec(s, LF);
      && r.x == 0
      && (s.y + 1 < ROWS ==> r.y == s.y + 1 && r.cells == s.cells)
      && (s.y + 1 == ROWS ==> r.y == s.y && r.cells == s.cells[COLS..] + BlankRow(s.attr))
    ensures PutSpec(s, CR) == s.(x := 0)
  {
  }

  /** A scroll moves every cell of rows 2 to 25 one row up and blanks the
      last row. */
  lemma ScrollRows(s: Screen)
    requires |s.cells| == CELLS && s.y >= ROWS
    ensures var r := ScrollSpec(s);
      && r.y == ROWS - 1
      && (forall k :: 0 <= k < (ROWS - 1) * COLS ==> r.cells[k] == s.cells[k + COLS])
      && (forall k :: (ROWS - 1) * COLS <= k < CELLS ==> r.cells[k] == Blank(s.attr))
  {
  }

  // ---------------------------------------------------------------------
  // Cursor position and colour
  // ---------------------------------------------------------------------

  /** get_cursor_pos: `(x + 1) << 8 | (y + 1)`, the 1-based cursor. */
  function PosOf(x: nat, y: nat): nat
  {
    (x + 1) * 256 + (y + 1)
  }

  /** After move_cursor_to(nx, ny) the position reads back, as ansi.c
      decodes it (`>> 8` and `& 0xff`), as (nx, ny). */
  lemma PosAfterMove(nx: int, ny: int)
    requires 1 <= nx <= COLS && 1 <= ny <= ROWS
    ensures PosOf(nx - 1, ny - 1) / 256 == nx && PosOf(nx - 1, ny - 1) % 256 == ny
  {
  }

  /** The ANSI colour numbers 0..7 (black, red, green, yellow, blue,
      magenta, cyan, white) as VGA colour numbers. */
  function AnsiToVga(k: nat): (v: nat)
    requires k < 8
    ensures v < 8
  {
    if k == 0 then 0 else if k == 1 then 4 else if k == 2 then 2 else if k == 3 then 6
    else if k == 4 then 1 else if k == 5 then 5 else if k == 6 then 3 else 7
  }

  /** The table swaps red and blue, and cyan and yellow: it is its own
      inverse. */
  lemma AnsiToVgaInvolution(k: nat)
    requires k < 8
    ensures AnsiToVga(AnsiToVga(k)) == k
  {
  }

  /** set_color's attribute: both codes taken mod 10 and mapped through the
      table, brightness in bit 3 of the foreground. Only ANSI codes whose
      last digit is 0..7 index the eight-entry table. */
  function Attribute(fore: nat, back: nat, bright: bool): (r: Byte)
    requires fore % 10 < 8 && back % 10 < 8
    ensures r < 128
  {
    AnsiToVga(back % 10) * 16 + AnsiToVga(fore % 10) + (if bright then 8 else 0)
  }

  /** Reading an attribute back as ANSI codes: the inverse of set_color. */
  function ForeOf(attr: Byte): nat { AnsiToVga(attr % 8) }
  function BackOf(attr: Byte): nat requires attr < 128 { AnsiToVga(attr / 16) }
  function BrightOf(attr: Byte): bool { attr % 16 >= 8 }

  /** Every attribute set_color can produce is set_color of its own decoded
      colours, and set_color's colours decode back to themselves. */
  lemma AttributeRoundTrip(attr: Byte, fore: nat, back: nat, bright: bool)
    requires attr < 128 && fore < 8 && back < 8
    ensures Attribute(ForeOf(attr), BackOf(attr), BrightOf(attr)) == attr
    ensures var a := Attribute(fore, back, bright);
      ForeOf(a) == fore && BackOf(a) == back && BrightOf(a) == bright
  {
    AttributeDecodes(attr);
    AttributeEncodes(fore, back, bright);
  }

  lemma AttributeDecodes(attr: Byte)
    requires attr < 128
    ensures Attribute(ForeOf(attr), BackOf(attr), BrightOf(attr)) == attr
  {
    var b, f := attr / 16, attr % 16;
    var fo, bo := ForeOf(attr), BackOf(attr);
    LowBits(attr);
    assert AnsiToVga(fo % 10) == f % 8 by {
      AnsiToVgaInvolution(f % 8);
    }
    assert AnsiToVga(bo % 10) == b by {
      AnsiToVgaInvolution(b);
    }
    assert f == f % 8 + (if BrightOf(attr) then 8 else 0);
  }

  /** The low three bits of an attribute are those of its low nibble. */
  lemma LowBits(attr: nat)
    ensures attr == attr / 16 * 16 + attr % 16 && attr % 8 == attr % 16 % 8
  {
    var b, f := attr / 16, attr % 16;
    var h := f / 8;
    assert f == 8 * h + f % 8;
    assert attr == 8 * (2 * b + h) + f % 8;
  }

  lemma AttributeEncodes(fore: nat, back: nat, bright: bool)
    requires fore < 8 && back < 8
    ensures var a := Attribute(fore, back, bright);
      ForeOf(a) == fore && BackOf(a) == back && BrightOf(a) == bright
  {
    AnsiToVgaInvolution(fore);
    AnsiToVgaInvolution(back);
    var f := AnsiToVga(fore) + (if bright then 8 else 0);
    var a := AnsiToVga(back) * 16 + f;
    assert a / 16 == AnsiToVga(back) && a % 16 == f && a % 8 == AnsiToVga(fore);
  }

  // ---------------------------------------------------------------------
  // monitor_write_hex's text
  // ---------------------------------------------------------------------

  /** `hex >> (4 * k)` for the eight nibble positions of a 32-bit word,
      each written with a constant divisor. */
  function ShrNibbles(n: nat, k: nat): nat
    requires k <= 8
  {
    if k == 0 then n
    else if k == 1 then n / 0x10
    else if k == 2 then n / 0x100
    else if k == 3 then n / 0x1000
    else if k == 4 then n / 0x1_0000
    else if k == 5 then n / 0x10_0000
    else if k == 6 then n / 0x100_0000
    else if k == 7 then n / 0x1000_0000
    else n / 0x1_0000_0000
  }

  lemma ShrStep(n: nat, k: nat)
    requires k < 8
    ensures ShrNibbles(n, k) == ShrNibbles(n, k + 1) * 16 + ShrNibbles(n, k) % 16
  {
  }

  const DIGIT_ZERO: Byte := 0x30
  const LETTER_X: Byte := 0x78

  /** The text monitor_write_hex builds: "0x", then the nibbles from the top
      with leading zeros skipped, "0x0" for zero. It reads back as the
      number, in upper-case digits with no leading zero. */
  method HexText(n: Word32) returns (buf: seq<Byte>)
    ensures buf == HexString(n)
    ensures |buf| >= 3 && Stdio.ValueOf(buf[2..], 16) == n
    ensures n == 0 ==> buf == [DIGIT_ZERO, LETTER_X, DIGIT_ZERO]
    ensures n != 0 ==> buf[2] != DIGIT_ZERO
  {
    buf := HexDigits(n);
    HexShape(buf, n);
  }

  /** "0x" and the hexadecimal digits of n. */
  function HexString(n: nat): seq<Byte>
  {
    [DIGIT_ZERO, LETTER_X] + Stdio.Digits(n, 16)
  }

  /** The "0x" prefix followed by the nibbles the loop keeps. */
  method HexDigits(n: Word32) returns (buf: seq<Byte>)
    ensures buf == [DIGIT_ZERO, LETTER_X] + Stdio.Digits(n, 16)
    ensures n == 0 ==> buf == [DIGIT_ZERO, LETTER_X, DIGIT_ZERO]
  {
    buf := [DIGIT_ZERO, LETTER_X];
    if n == 0 {
      buf := buf + [DIGIT_ZERO];
    } else {
      var flag := false;
      var k := 8;
      while k > 0
        invariant 0 <= k <= 8
        invariant flag <==> ShrNibbles(n, k) != 0
        invariant buf == [DIGIT_ZERO, LETTER_X] + (if flag then Stdio.Digits(ShrNibbles(n, k), 16) else [])
      {
        k := k - 1;
        ShrStep(n, k);
        var ch := ShrNibbles(n, k) % 16;
        if flag || ch > 0 {
          flag := true;
          var c := ch + DIGIT_ZERO;
          if c > 0x39 {
            c := c + 7;
          }
          assert c == Stdio.DigitChar(ch);
          buf := buf + [c];
        }
      }
    }
  }

  lemma HexShape(buf: seq<Byte>, n: Word32)
    requires buf == [DIGIT_ZERO, LETTER_X] + Stdio.Digits(n, 16)
    ensures |buf| >= 3 && Stdio.ValueOf(buf[2..], 16) == n
    ensures n != 0 ==> buf[2] != DIGIT_ZERO
  {
    var d := Stdio.Digits(n, 16);
    assert buf[2..] == d;
    Stdio.DigitsValue(n, 16);
  }

  /** The decimal digits of n: those of n / 10 (none when it is 0), then
      the last one. */
  lemma DecimalSplit(n: nat)
    ensures Stdio.Digits(n, 10) == (if n / 10 != 0 then Stdio.Digits(n / 10, 10) else []) + [DIGIT_ZERO + n % 10]
  {
    assert Stdio.Quot(n, 10) == n / 10 && Stdio.Rem(n, 10) == n % 10;
  }

  lemma DecimalStep(s0: Screen, mid: Screen, n: nat)
    requires Valid(s0)
    requires mid == PutAll(s0, if n / 10 != 0 then Stdio.Digits(n / 10, 10) else [])
    ensures PutSpec(mid, DIGIT_ZERO + n % 10) == PutAll(s0, Stdio.Digits(n, 10))
  {
    DecimalSplit(n);
    PutAllSnoc(s0, if n / 10 != 0 then Stdio.Digits(n / 10, 10) else [], DIGIT_ZERO + n % 10);
  }

  // ---------------------------------------------------------------------
  // The console as a stateful object
  // ---------------------------------------------------------------------

  /** The static state of monitor.c. */
  class Console {
    var x: nat
    var y: nat
    var attr: Byte
    var video: array<nat>

    ghost predicate Valid()
      reads this
    {
      video.Length == CELLS && x < COLS && y < ROWS && attr < 128
    }

    function View(): Screen
      reads this, video
    {
      Screen(x, y, attr, video[..])
    }

    /** The console at boot: cursor at the top left, white on black, the
        video memory as the firmware left it. */
    constructor ()
      ensures Valid() && fresh(video)
      ensures x == 0 && y == 0 && attr == DEFAULT_ATTR
    {
      x, y, attr := 0, 0, DEFAULT_ATTR;
      video := new nat[CELLS];
    }

    /** get_cursor_pos. */
    function CursorPos(): nat
      reads this
    {
      PosOf(x, y)
    }

    /** move_cursor_to: 1-based coordinates. */
    method MoveCursorTo(nx: int, ny: int)
      requires Valid() && 1 <= nx <= COLS && 1 <= ny <= ROWS
      modifies this
      ensures Valid() && x == nx - 1 && y == ny - 1
      ensures attr == old(attr) && video == old(video)
    {
      x, y := nx - 1, ny - 1;
    }

    /** set_color. */
    method SetColor(fore: nat, back: nat, bright: bool)
      requires Valid() && fore % 10 < 8 && back % 10 < 8
      modifies this
      ensures Valid() && attr == Attribute(fore, back, bright)
      ensures x == old(x) && y == old(y) && video == old(video)
    {
      var f := AnsiToVga(fore % 10);
      var b := AnsiToVga(back % 10);
      if bright {
        f := f + 8;
      }
      attr := b * 16 + f;
    }

    /** set_char_at: writes one cell at 1-based coordinates without moving
        the cursor. */
    method SetCharAt(cx: int, cy: int, ch: Byte)
      requires Valid() && 1 <= cx <= COLS && 1 <= cy <= ROWS
      modifies video
      ensures video[..] == old(video[..])[(cy - 1) * COLS + (cx - 1) := Cell(ch, attr)]
    {
      video[(cy - 1) * COLS + (cx - 1)] := Cell(ch, attr);
    }

    /** scroll. */
    method Scroll()
      requires video.Length == CELLS
      modifies this, video
      ensures video == old(video) && View() == ScrollSpec(old(View()))
    {
      if y >= ROWS {
        var blank := Blank(attr);
        var v := video;
        ghost var before := v[..];
        var i := 0;
        while i < (ROWS - 1) * COLS
          invariant 0 <= i <= (ROWS - 1) * COLS
          invariant unchanged(this)
          invariant v[..i] == before[COLS..COLS + i]
          invariant v[i..] == before[i..]
        {
          v[i] := v[i + COLS];
          i := i + 1;
        }
        while i < CELLS
          invariant (ROWS - 1) * COLS <= i <= CELLS
          invariant unchanged(this)
          invariant v[..(ROWS - 1) * COLS] == before[COLS..]
          invariant forall k :: (ROWS - 1) * COLS <= k < i ==> v[k] == blank
        {
          v[i] := blank;
          i := i + 1;
        }
        assert v[..] == before[COLS..] + BlankRow(attr) by {
          assert v[..] == v[..(ROWS - 1) * COLS] + v[(ROWS - 1) * COLS..];
        }
        y := ROWS - 1;
      }
    }

    /** monitor_put. */
    method Put(c: Byte)
      requires Valid()
      modifies this, video
      ensures Valid() && video == old(video) && View() == PutSpec(old(View()), c)
    {
      if c == BACKSPACE && x != 0 {
        x := x - 1;
        video[y * COLS + x] := Blank(attr);
      } else if c == TAB {
        x := (x + 8) / 8 * 8;
      } else if c == CR {
        x := 0;
      } else if c == LF {
        x := 0;
        y := y + 1;
      } else if Printable(c) {
        video[y * COLS + x] := Cell(c, attr);
        x := x + 1;
      }
      if x >= COLS {
        x := 0;
        y := y + 1;
      }
      Scroll();
    }

    /** monitor_clear. */
    method Clear()
      requires Valid()
      modifies this, video
      ensures Valid() && video == old(video) && View() == ClearSpec(old(View()))
    {
      var blank := Blank(attr);
      var v := video;
      var i := 0;
      while i < CELLS
        invariant 0 <= i <= CELLS
        invariant unchanged(this)
        invariant forall k :: 0 <= k < i ==> v[k] == blank
      {
        v[i] := blank;
        i := i + 1;
      }
      assert v[..] == seq(CELLS, _ => blank);
      x, y := 0, 0;
    }

    /** monitor_write_dec: the quotient's digits first, then the last one. */
    method WriteDec(n: Word32)
      requires Valid()
      modifies this, video
      ensures Valid() && video == old(video) && View() == PutAll(old(View()), Stdio.Digits(n, 10))
      decreases n
    {
      var upper := n / 10;
      var rest := n % 10;
      ghost var s0 := View();
      ghost var before: seq<Byte> := if upper != 0 then Stdio.Digits(upper, 10) else [];
      if upper != 0 {
        WriteDec(upper);
      }
      ghost var mid := View();
      assert mid == PutAll(s0, before);
      DecimalStep(s0, mid, n);
      Put(DIGIT_ZERO + rest);
    }
  }
}
