/** The ANSI escape-sequence interpreter of kernel/ansi.c and the string
    output of kernel/monitor.c that drives it: "ESC c" resets the screen,
    "ESC [ params cmd" moves the cursor, erases, saves and restores the
    cursor, reports it, or sets colours. The cursor is handled 1-based here,
    as get_cursor_pos hands it out. */
module Ansi {
  import opened Machine
  import opened Console
  import Stdio

  const ESC: Byte := 0x1B
  const LBRACKET: Byte := 0x5B
  const SEMICOLON: Byte := 0x3B
  const RESET_CMD: Byte := 0x63      // 'c'
  const REPORT_END: Byte := 0x52     // 'R'

  const CMD_UP: Byte := 0x41         // 'A'
  const CMD_DOWN: Byte := 0x42       // 'B'
  const CMD_LEFT: Byte := 0x43       // 'C'
  const CMD_RIGHT: Byte := 0x44      // 'D'
  const CMD_NEXT_LINE: Byte := 0x45  // 'E'
  const CMD_PREV_LINE: Byte := 0x46  // 'F'
  const CMD_COLUMN: Byte := 0x47     // 'G'
  const CMD_POSITION: Byte := 0x48   // 'H'
  const CMD_POSITION_F: Byte := 0x66 // 'f'
  const CMD_ERASE_DISPLAY: Byte := 0x4A // 'J'
  const CMD_ERASE_LINE: Byte := 0x4B    // 'K'
  const CMD_SAVE: Byte := 0x73       // 's'
  const CMD_RESTORE: Byte := 0x75    // 'u'
  const CMD_REPORT: Byte := 0x6E     // 'n'
  const CMD_COLOUR: Byte := 0x6D     // 'm'

  predicate IsDigit(c: Byte)
  {
    0x30 <= c <= 0x39
  }

  /** A string that goes on after a non-NUL byte has its NUL further on. */
  lemma NulPast(s: seq<Byte>, j: nat)
    requires NulFrom(s, j) && j < |s| && s[j] != 0
    ensures j + 1 < |s| && NulFrom(s, j + 1)
  {
    var k :| j <= k < |s| && s[k] == 0;
    assert k != j;
  }

  // ---------------------------------------------------------------------
  // Parameters
  // ---------------------------------------------------------------------

  /** The parameter loop from index j on: each digit extends the last
      parameter, and a ';' right after a digit starts the next one. The
      result is the parameter list and the index of the command char. */
  function ScanParams(s: seq<Byte>, j: nat, ps: seq<nat>): (r: (seq<nat>, nat))
    requires |ps| > 0 && j < |s| && NulFrom(s, j)
    ensures j <= r.1 < |s| && NulFrom(s, r.1) && !IsDigit(s[r.1])
    ensures |ps| <= |r.0| && r.0[..|ps| - 1] == ps[..|ps| - 1]
    decreases |s| - j
  {
    if !IsDigit(s[j]) then (ps, j)
    else
      NulPast(s, j);
      var ps1 := ps[..|ps| - 1] + [ps[|ps| - 1] * 10 + (s[j] - 0x30)];
      if s[j + 1] == SEMICOLON then
        NulPast(s, j + 1);
        ScanParams(s, j + 2, ps1 + [0])
      else ScanParams(s, j + 1, ps1)
  }

  /** param_arr[k]: zero beyond the parameters the sequence gave. */
  function Param(ps: seq<nat>, k: nat): nat
  {
    if k < |ps| then ps[k] else 0
  }

  /** The repeat count of a cursor move: a missing or zero parameter means 1. */
  function Count(ps: seq<nat>, k: nat): (n: nat)
    ensures n >= 1 && (Param(ps, k) != 0 ==> n == Param(ps, k))
  {
    if Param(ps, k) == 0 then 1 else Param(ps, k)
  }

  /** What follows an ESC: the reset, something other than a control
      sequence, or a control sequence with its parameters and the index of
      its command char. */
  datatype Sequence = Reset | Unsupported | Control(params: seq<nat>, cmd: nat)

  function Recognize(s: seq<Byte>, i: nat): (r: Sequence)
    requires i < |s| && s[i] == ESC && NulFrom(s, i)
    ensures r.Control? ==> i + 2 <= r.cmd < |s| && NulFrom(s, r.cmd) && |r.params| >= 1
  {
    NulPast(s, i);
    if s[i + 1] == RESET_CMD then Reset
    else if s[i + 1] != LBRACKET then Unsupported
    else
      NulPast(s, i + 1);
      var (ps, j) := ScanParams(s, i + 2, [0]);
      Control(ps, j)
  }

  // ---------------------------------------------------------------------
  // Cursor movement
  // ---------------------------------------------------------------------

  predicate IsMove(cmd: Byte)
  {
    cmd in {CMD_UP, CMD_DOWN, CMD_LEFT, CMD_RIGHT, CMD_NEXT_LINE, CMD_PREV_LINE,
            CMD_COLUMN, CMD_POSITION, CMD_POSITION_F}
  }

  predicate OnGrid(cx: int, cy: int)
  {
    1 <= cx <= COLS && 1 <= cy <= ROWS
  }

  /** The 1-based cursor a move command goes to. Every move stays on the
      grid. */
  function MoveTarget(cmd: Byte, ps: seq<nat>, cx: int, cy: int): (r: (int, int))
    requires IsMove(cmd) && OnGrid(cx, cy)
    ensures OnGrid(r.0, r.1)
  {
    var n := Count(ps, 0);
    if cmd == CMD_UP then (cx, Max(cy - n, 1))
    else if cmd == CMD_DOWN then (cx, Min(cy + n, ROWS))
    else if cmd == CMD_LEFT then (Max(cx - n, 1), cy)
    else if cmd == CMD_RIGHT then (Min(cx + n, COLS), cy)
    else if cmd == CMD_NEXT_LINE then (1, Min(cy + n, ROWS))
    else if cmd == CMD_PREV_LINE then (1, Max(cy - n, 1))
    else if cmd == CMD_COLUMN then (Min(Max(n, 1), COLS), cy)
    else (Min(Max(n, 1), COLS), Min(Max(Count(ps, 1), 1), ROWS))
  }

  /** A and B move n rows up and down and stop at the edge; E and F do the
      same and go to column 1. C moves left and D right, n columns, stopping
      at the edge (ECMA-48 has C forward and D backward). G and H/f go to
      the given column and cell, clamped to the grid. */
  lemma MoveDirections(ps: seq<nat>, cx: int, cy: int)
    requires OnGrid(cx, cy)
    ensures var n := Count(ps, 0);
      && MoveTarget(CMD_UP, ps, cx, cy) == (cx, if cy > n then cy - n else 1)
      && MoveTarget(CMD_DOWN, ps, cx, cy) == (cx, if cy + n < ROWS then cy + n else ROWS)
      && MoveTarget(CMD_LEFT, ps, cx, cy) == (if cx > n then cx - n else 1, cy)
      && MoveTarget(CMD_RIGHT, ps, cx, cy) == (if cx + n < COLS then cx + n else COLS, cy)
      && MoveTarget(CMD_NEXT_LINE, ps, cx, cy) == (1, MoveTarget(CMD_DOWN, ps, cx, cy).1)
      && MoveTarget(CMD_PREV_LINE, ps, cx, cy) == (1, MoveTarget(CMD_UP, ps, cx, cy).1)
      && (n <= COLS ==> MoveTarget(CMD_COLUMN, ps, cx, cy) == (n, cy))
      && (n <= COLS && Count(ps, 1) <= ROWS ==>
            MoveTarget(CMD_POSITION, ps, cx, cy) == (n, Count(ps, 1)) == MoveTarget(CMD_POSITION_F, ps, cx, cy))
  {
  }

  /** A move up followed by the same move down comes back, away from the
      edges. */
  lemma UpThenDown(ps: seq<nat>, cx: int, cy: int)
    requires OnGrid(cx, cy) && cy > Count(ps, 0)
    ensures var up := MoveTarget(CMD_UP, ps, cx, cy);
      MoveTarget(CMD_DOWN, ps, up.0, up.1) == (cx, cy)
  {
  }

  // ---------------------------------------------------------------------
  // Erasing
  // ---------------------------------------------------------------------

  /** The cell index set_char_at(x, y) writes. */
  function Index(x: int, y: int): int
  {
    (y - 1) * COLS + (x - 1)
  }

  /** The cells with index in [lo, hi) blanked. */
  function BlankRange(c: seq<nat>, lo: int, hi: int, v: nat): (r: seq<nat>)
    ensures |r| == |c|
  {
    seq(|c|, k requires 0 <= k < |c| => if lo <= k < hi then v else c[k])
  }

  lemma BlankEmpty(c: seq<nat>, a: int, v: nat)
    ensures BlankRange(c, a, a, v) == c
  {
  }

  lemma BlankExtend(c: seq<nat>, lo: int, hi: int, v: nat)
    requires 0 <= hi < |c| && lo <= hi
    ensures BlankRange(c, lo, hi, v)[hi := v] == BlankRange(c, lo, hi + 1, v)
  {
  }

  lemma BlankJoin(c: seq<nat>, a: int, b: int, d: int, v: nat)
    requires a <= b <= d
    ensures BlankRange(BlankRange(c, a, b, v), b, d, v) == BlankRange(c, a, d, v)
    ensures BlankRange(BlankRange(c, b, d, v), a, b, v) == BlankRange(c, a, d, v)
  {
  }

  /** ESC[nK: 0 from the cursor to the end of its row, 1 from the start of
      the row to the cursor, 2 and 3 the whole row. */
  function EraseLineSpec(sc: Screen, n: nat, cx: int, cy: int): (r: Screen)
    requires Valid(sc) && OnGrid(cx, cy)
    ensures Valid(r) && r.x == sc.x && r.y == sc.y && r.attr == sc.attr
  {
    var row := (cy - 1) * COLS;
    if n == 0 then sc.(cells := BlankRange(sc.cells, Index(cx, cy), row + COLS, Blank(sc.attr)))
    else if n == 1 then sc.(cells := BlankRange(sc.cells, row, Index(cx, cy) + 1, Blank(sc.attr)))
    else if n == 2 || n == 3 then sc.(cells := BlankRange(sc.cells, row, row + COLS, Blank(sc.attr)))
    else sc
  }

  /** ESC[nJ: 0 from the cursor to the end of the screen, 1 from the start
      of the screen to the cursor, 2 and 3 clear the screen and home the
      cursor. */
  function EraseDisplaySpec(sc: Screen, n: nat, cx: int, cy: int): (r: Screen)
    requires Valid(sc) && OnGrid(cx, cy)
    ensures Valid(r) && r.attr == sc.attr
  {
    if n == 0 then sc.(cells := BlankRange(sc.cells, Index(cx, cy), CELLS, Blank(sc.attr)))
    else if n == 1 then sc.(cells := BlankRange(sc.cells, 0, Index(cx, cy) + 1, Blank(sc.attr)))
    else if n == 2 || n == 3 then ClearSpec(sc)
    else sc
  }

  /** Erasing a line touches no cell outside the cursor's row and does not
      move the cursor. */
  lemma EraseLineStaysInRow(sc: Screen, n: nat, cx: int, cy: int, k: nat)
    requires Valid(sc) && OnGrid(cx, cy) && k < CELLS
    requires k < (cy - 1) * COLS || cy * COLS <= k
    ensures EraseLineSpec(sc, n, cx, cy).cells[k] == sc.cells[k]
  {
  }

  /** The two halves of the screen around the cursor make up the whole
      screen: ESC[0J then ESC[1J leaves every cell blank. */
  lemma EraseBothHalves(sc: Screen, cx: int, cy: int)
    requires Valid(sc) && OnGrid(cx, cy)
    ensures EraseDisplaySpec(EraseDisplaySpec(sc, 0, cx, cy), 1, cx, cy).cells == ClearSpec(sc).cells
  {
  }

  // ---------------------------------------------------------------------
  // Colours
  // ---------------------------------------------------------------------

  /** The colour state the 'm' loop works on: ANSI foreground and
      background codes and the brightness flag. */
  datatype Pen = Pen(fore: nat, back: nat, bright: bool)

  /** Codes whose last digit indexes set_color's eight-entry table. */
  predicate PenOk(p: Pen)
  {
    p.fore % 10 < 8 && p.back % 10 < 8
  }

  /** One SGR parameter: 0 resets, 7 swaps foreground and background, 30-37
      and 90-97 set the foreground (normal and bright), 39 restores the
      default foreground, 40-47 set the background, 49 restores the default
      background; anything else changes nothing. */
  function SgrStep(p: Pen, v: nat): (r: Pen)
    ensures PenOk(p) ==> PenOk(r)
  {
    if v == 0 then Pen(7, 0, true)
    else if v == 7 then Pen(p.back, p.fore, p.bright)
    else if 30 <= v <= 37 then p.(fore := v, bright := false)
    else if v == 39 then p.(fore := 7, bright := true)
    else if 40 <= v <= 47 then p.(back := v)
    else if v == 49 then p.(back := 0)
    else if 90 <= v <= 97 then p.(fore := v, bright := true)
    else p
  }

  function SgrFold(p: Pen, ps: seq<nat>): (r: Pen)
    ensures PenOk(p) ==> PenOk(r)
    decreases |ps|
  {
    if |ps| == 0 then p else SgrStep(SgrFold(p, ps[..|ps| - 1]), ps[|ps| - 1])
  }

  function PenAttr(p: Pen): (a: Byte)
    requires PenOk(p)
    ensures a < 128
  {
    Attribute(p.fore, p.back, p.bright)
  }

  /** The current attribute read back as ANSI codes, through the inverse of
      set_color's table. */
  function Decode(attr: Byte): (p: Pen)
    requires attr < 128
    ensures PenOk(p) && p.fore < 8 && p.back < 8
  {
    Pen(ForeOf(attr), BackOf(attr), BrightOf(attr))
  }

  /** The attribute after an 'm' sequence. */
  function Sgr(attr: Byte, ps: seq<nat>): (r: Byte)
    requires attr < 128
    ensures r < 128
  {
    PenAttr(SgrFold(Decode(attr), ps))
  }

  /** A parameter the 'm' switch has no case for leaves the colours alone,
      and a foreground code keeps the background. */
  lemma SgrKeeps(attr: Byte, v: nat)
    requires attr < 128
    ensures !(v in {0, 7, 39, 49} || 30 <= v <= 37 || 40 <= v <= 47 || 90 <= v <= 97) ==> Sgr(attr, [v]) == attr
    ensures 30 <= v <= 37 || 90 <= v <= 97 || v == 39 ==> Sgr(attr, [v]) / 16 == attr / 16
  {
    assert [v][..0] == [];
    AttributeDecodes(attr);
    var p := Decode(attr);
    var q := SgrStep(p, v);
    assert SgrFold(p, [v]) == q;
    if 30 <= v <= 37 || 90 <= v <= 97 || v == 39 {
      assert q.back == p.back == AnsiToVga(attr / 16);
      AnsiToVgaInvolution(attr / 16);
      var f := AnsiToVga(q.fore % 10) + (if q.bright then 8 else 0);
      assert PenAttr(q) == AnsiToVga(q.back % 10) * 16 + f && f < 16;
    }
  }

  /** ESC[7m twice restores the colours. */
  lemma SwapTwice(attr: Byte)
    requires attr < 128
    ensures Sgr(attr, [7, 7]) == attr
  {
    assert [7, 7][..1] == [7];
    assert [7][..0] == [];
    AttributeDecodes(attr);
  }

  // ---------------------------------------------------------------------
  // One escape sequence
  // ---------------------------------------------------------------------

  /** Everything parse_ansi reads and changes: the console, the saved cursor
      and what has been queued into decoded_key. */
  datatype Term = Term(screen: Screen, saveX: int, saveY: int, replies: seq<Byte>)

  predicate TermValid(t: Term)
  {
    Valid(t.screen) && OnGrid(t.saveX, t.saveY)
  }

  /** A number in decimal, as itoa writes it with radix 10. */
  function Decimal(n: nat): seq<Byte>
  {
    Stdio.Digits(n, 10)
  }

  /** ESC[6n's answer: "ESC [ x ; y R" with the 1-based cursor in decimal. */
  function Report(cx: nat, cy: nat): seq<Byte>
  {
    [ESC, LBRACKET] + Decimal(cx) + [SEMICOLON] + Decimal(cy) + [REPORT_END]
  }

  /** The effect of a control sequence's command; false for the one case
      that makes parse_ansi answer -1 (a device status report other than 6).
      J falls through into K and K into s; n falls through into m. */
  function CsiSpec(t: Term, ps: seq<nat>, cmd: Byte): (r: (Term, bool))
    requires TermValid(t)
    ensures TermValid(r.0)
  {
    var cx, cy := t.screen.x + 1, t.screen.y + 1;
    var n := Param(ps, 0);
    if IsMove(cmd) then
      var (nx, ny) := MoveTarget(cmd, ps, cx, cy);
      (t.(screen := t.screen.(x := nx - 1, y := ny - 1)), true)
    else if cmd == CMD_ERASE_DISPLAY then
      var s1 := EraseLineSpec(EraseDisplaySpec(t.screen, n, cx, cy), n, cx, cy);
      (t.(screen := s1, saveX := cx, saveY := cy), true)
    else if cmd == CMD_ERASE_LINE then
      (t.(screen := EraseLineSpec(t.screen, n, cx, cy), saveX := cx, saveY := cy), true)
    else if cmd == CMD_SAVE then
      (t.(saveX := cx, saveY := cy), true)
    else if cmd == CMD_RESTORE then
      (t.(screen := t.screen.(x := t.saveX - 1, y := t.saveY - 1)), true)
    else if cmd == CMD_REPORT then
      if n != 6 then (t, false)
      else (t.(screen := t.screen.(attr := Sgr(t.screen.attr, ps)), replies := t.replies + Report(cx, cy)), true)
    else if cmd == CMD_COLOUR then
      (t.(screen := t.screen.(attr := Sgr(t.screen.attr, ps))), true)
    else
      (t, true)
  }

  /** parse_ansi on the sequence starting at the ESC at index i: the new
      state and the offset of the last character of the sequence from the
      ESC, or -1 when it is not one the interpreter supports. */
  function ParseAnsiSpec(t: Term, s: seq<Byte>, i: nat): (r: (Term, int))
    requires TermValid(t) && i < |s| && s[i] == ESC && NulFrom(s, i)
    ensures TermValid(r.0)
    ensures r.1 == -1 || (r.1 >= 1 && i + r.1 < |s| && NulFrom(s, i + r.1))
  {
    match Recognize(s, i)
    case Reset =>
      NulPast(s, i);
      (t.(screen := ClearSpec(t.screen.(attr := Attribute(7, 0, true)))), 1)
    case Unsupported => (t, -1)
    case Control(ps, j) =>
      var (t1, ok) := CsiSpec(t, ps, s[j]);
      (t1, if ok then j - i else -1)
  }

  /** ESC[6n queues the cursor position, which reads back as the 1-based
      column and row. */
  lemma ReportReadsBack(cx: nat, cy: nat)
    ensures var r := Report(cx, cy);
      var dx, dy := Decimal(cx), Decimal(cy);
      && r[..2] == [ESC, LBRACKET] && r[|r| - 1] == REPORT_END
      && r[2..2 + |dx|] == dx && r[2 + |dx|] == SEMICOLON && r[3 + |dx|..|r| - 1] == dy
      && Stdio.ValueOf(dx, 10) == cx && Stdio.ValueOf(dy, 10) == cy
  {
    Stdio.DigitsValue(cx, 10);
    Stdio.DigitsValue(cy, 10);
    ReportParts(Report(cx, cy), Decimal(cx), Decimal(cy));
  }

  lemma ReportParts(r: seq<Byte>, dx: seq<Byte>, dy: seq<Byte>)
    requires r == [ESC, LBRACKET] + dx + [SEMICOLON] + dy + [REPORT_END]
    ensures r[..2] == [ESC, LBRACKET] && r[|r| - 1] == REPORT_END
    ensures r[2..2 + |dx|] == dx && r[2 + |dx|] == SEMICOLON && r[3 + |dx|..|r| - 1] == dy
  {
  }

  /** A saved cursor comes back: ESC[s then a move then ESC[u returns to
      where the cursor was. */
  lemma SaveThenRestore(t: Term, ps: seq<nat>, cmd: Byte)
    requires TermValid(t) && IsMove(cmd)
    ensures var saved := CsiSpec(t, [0], CMD_SAVE).0;
      var moved := CsiSpec(saved, ps, cmd).0;
      CsiSpec(moved, [0], CMD_RESTORE).0.screen == t.screen
  {
  }

  /** The offset of a control sequence points at its command char. */
  lemma {:induction false} OffsetIsCommand(t: Term, s: seq<Byte>, i: nat)
    requires TermValid(t) && i < |s| && s[i] == ESC && NulFrom(s, i)
    requires i + 1 < |s| && s[i + 1] == LBRACKET
    ensures var r := ParseAnsiSpec(t, s, i);
      r.1 != -1 ==> r.1 >= 2 && !IsDigit(s[i + r.1])
  {
  }

  // ---------------------------------------------------------------------
  // A whole string: monitor_write
  // ---------------------------------------------------------------------

  /** Where monitor_write carries on after a sequence whose last character
      is at k: just past it, or at k itself when the sequence ran into the
      string's NUL, so that the output ends there. */
  function Resume(s: seq<Byte>, k: nat): (r: nat)
    requires k < |s| && NulFrom(s, k)
    ensures k <= r < |s| && NulFrom(s, r)
    ensures s[k] == 0 ==> r == k
  {
    if s[k] == 0 then k
    else
      NulPast(s, k);
      k + 1
  }

  /** monitor_write from index i: characters are put one by one; at an ESC
      a supported sequence is consumed and skipped, otherwise the ESC is put
      like any other byte. A sequence cut off by the end of the string ends
      the output. */
  function WriteSpec(t: Term, s: seq<Byte>, i: nat): (r: Term)
    requires TermValid(t) && i < |s| && NulFrom(s, i)
    ensures TermValid(r)
    decreases |s| - i
  {
    if s[i] == 0 then t
    else if s[i] == ESC && ParseAnsiSpec(t, s, i).1 != -1 then
      var (t1, off) := ParseAnsiSpec(t, s, i);
      WriteSpec(t1, s, Resume(s, i + off))
    else
      NulPast(s, i);
      WriteSpec(t.(screen := PutSpec(t.screen, s[i])), s, i + 1)
  }

  lemma {:induction false} WriteEnds(t: Term, s: seq<Byte>, i: nat)
    requires TermValid(t) && i < |s| && s[i] == 0
    ensures NulFrom(s, i) && WriteSpec(t, s, i) == t
  {
  }

  lemma {:induction false} WriteSkips(t: Term, s: seq<Byte>, i: nat, t1: Term, off: int)
    requires TermValid(t) && i < |s| && s[i] == ESC && NulFrom(s, i)
    requires ParseAnsiSpec(t, s, i) == (t1, off) && off != -1
    ensures WriteSpec(t, s, i) == WriteSpec(t1, s, Resume(s, i + off))
  {
  }

  lemma {:induction false} WritePuts(t: Term, s: seq<Byte>, i: nat)
    requires TermValid(t) && i < |s| && s[i] != 0 && NulFrom(s, i)
    requires s[i] == ESC ==> ParseAnsiSpec(t, s, i).1 == -1
    ensures i + 1 < |s| && NulFrom(s, i + 1)
    ensures WriteSpec(t, s, i) == WriteSpec(t.(screen := PutSpec(t.screen, s[i])), s, i + 1)
  {
    NulPast(s, i);
  }

  lemma {:induction false} PutAllCons(sc: Screen, c: Byte, u: seq<Byte>)
    requires Valid(sc)
    ensures PutAll(PutSpec(sc, c), u) == PutAll(sc, [c] + u)
    decreases |u|
  {
    if |u| == 0 {
      PutAllSnoc(sc, [], c);
      assert [c] + u == [] + [c];
    } else {
      var w := u[..|u| - 1];
      PutAllCons(sc, c, w);
      assert ([c] + u)[..|u|] == [c] + w;
    }
  }

  /** Text without ESC reaches the screen exactly as monitor_put would put
      it, and nothing else changes. */
  lemma {:induction false} WritePlain(t: Term, s: seq<Byte>, i: nat, k: nat)
    requires TermValid(t) && i <= k < |s| && s[k] == 0
    requires forall m :: i <= m < k ==> s[m] != 0 && s[m] != ESC
    ensures NulFrom(s, i) && WriteSpec(t, s, i) == t.(screen := PutAll(t.screen, s[i..k]))
    decreases k - i
  {
    assert NulFrom(s, i) by {
      assert i <= k < |s| && s[k] == 0;
    }
    if i == k {
      assert s[i..k] == [];
    } else {
      var t1 := t.(screen := PutSpec(t.screen, s[i]));
      WritePlain(t1, s, i + 1, k);
      PutAllCons(t.screen, s[i], s[i + 1..k]);
      assert [s[i]] + s[i + 1..k] == s[i..k];
    }
  }

  // ---------------------------------------------------------------------
  // The interpreter as a stateful object
  // ---------------------------------------------------------------------

  /** The static state of ansi.c around the console it drives. */
  class Terminal {
    const con: Console
    var saveX: int
    var saveY: int
    var replies: seq<Byte>

    ghost predicate Valid()
      reads this, con
    {
      con.Valid() && OnGrid(saveX, saveY)
    }

    function State(): Term
      reads this, con, con.video
    {
      Term(con.View(), saveX, saveY, replies)
    }

    /** The saved cursor starts at the top left cell (1, 1). */
    constructor (c: Console)
      requires c.Valid()
      ensures con == c && Valid() && saveX == 1 && saveY == 1 && replies == []
    {
      con := c;
      saveX, saveY := 1, 1;
      replies := [];
    }

    /** The parameter loop of parse_ansi. */
    static method ReadParams(s: seq<Byte>, j0: nat) returns (ps: seq<nat>, j: nat)
      requires j0 < |s| && NulFrom(s, j0)
      ensures (ps, j) == ScanParams(s, j0, [0])
    {
      ps, j := [0], j0;
      while IsDigit(s[j])
        invariant j0 <= j < |s| && NulFrom(s, j) && |ps| > 0
        invariant ScanParams(s, j, ps) == ScanParams(s, j0, [0])
        decreases |s| - j
      {
        NulPast(s, j);
        ps := ps[..|ps| - 1] + [ps[|ps| - 1] * 10 + (s[j] - 0x30)];
        j := j + 1;
        if s[j] == SEMICOLON {
          NulPast(s, j);
          ps := ps + [0];
          j := j + 1;
        }
      }
    }

    /** set_char_at(x, y, ' ') for x from x0 to x1. */
    method EraseRow(y: int, x0: int, x1: int)
      requires con.Valid() && 1 <= y <= ROWS && 1 <= x0 && x1 <= COLS && x0 <= x1 + 1
      modifies con.video
      ensures con.video[..] == BlankRange(old(con.video[..]), Index(x0, y), Index(x1, y) + 1, Blank(con.attr))
    {
      ghost var c0 := con.video[..];
      var x := x0;
      BlankEmpty(c0, Index(x0, y), Blank(con.attr));
      while x <= x1
        invariant x0 <= x <= x1 + 1
        invariant con.video[..] == BlankRange(c0, Index(x0, y), Index(x, y), Blank(con.attr))
      {
        con.SetCharAt(x, y, SPACE);
        BlankExtend(c0, Index(x0, y), Index(x, y), Blank(con.attr));
        x := x + 1;
      }
    }

    /** Whole rows y0..y1, cell by cell. */
    method EraseRows(y0: int, y1: int)
      requires con.Valid() && 1 <= y0 && y1 <= ROWS && y0 <= y1 + 1
      modifies con.video
      ensures con.video[..] == BlankRange(old(con.video[..]), (y0 - 1) * COLS, y1 * COLS, Blank(con.attr))
    {
      ghost var c0 := con.video[..];
      var y := y0;
      BlankEmpty(c0, (y0 - 1) * COLS, Blank(con.attr));
      while y <= y1
        invariant y0 <= y <= y1 + 1
        invariant con.video[..] == BlankRange(c0, (y0 - 1) * COLS, (y - 1) * COLS, Blank(con.attr))
      {
        EraseRow(y, 1, COLS);
        BlankJoin(c0, (y0 - 1) * COLS, (y - 1) * COLS, y * COLS, Blank(con.attr));
        y := y + 1;
      }
    }

    /** The inner switch of 'J'. */
    method EraseDisplay(n: nat, cx: int, cy: int)
      requires con.Valid() && OnGrid(cx, cy)
      modifies con, con.video
      ensures con.Valid() && con.video == old(con.video)
      ensures con.View() == EraseDisplaySpec(old(con.View()), n, cx, cy)
    {
      ghost var c0 := con.video[..];
      if n == 0 {
        EraseRow(cy, cx, COLS);
        EraseRows(cy + 1, ROWS);
        BlankJoin(c0, Index(cx, cy), cy * COLS, CELLS, Blank(con.attr));
      } else if n == 1 {
        EraseRow(cy, 1, cx);
        EraseRows(1, cy - 1);
        BlankJoin(c0, 0, (cy - 1) * COLS, Index(cx, cy) + 1, Blank(con.attr));
      } else if n == 2 || n == 3 {
        con.Clear();
      }
    }

    /** The inner switch of 'K'. */
    method EraseLine(n: nat, cx: int, cy: int)
      requires con.Valid() && OnGrid(cx, cy)
      modifies con.video
      ensures con.View() == EraseLineSpec(old(con.View()), n, cx, cy)
    {
      if n == 0 {
        EraseRow(cy, cx, COLS);
      } else if n == 1 {
        EraseRow(cy, 1, cx);
      } else if n == 2 || n == 3 {
        EraseRow(cy, 1, COLS);
      }
    }

    /** The 'm' loop: every parameter updates the colour state and
        set_color is called after each. */
    method ApplySgr(ps: seq<nat>)
      requires con.Valid() && |ps| >= 1
      modifies con
      ensures con.Valid() && con.attr == Sgr(old(con.attr), ps)
      ensures con.x == old(con.x) && con.y == old(con.y) && con.video == old(con.video)
    {
      var attr := con.attr;
      var p := Pen(ForeOf(attr), BackOf(attr), BrightOf(attr));
      var i := 0;
      while i < |ps|
        invariant 0 <= i <= |ps| && con.Valid()
        invariant p == SgrFold(Decode(attr), ps[..i])
        invariant i > 0 ==> con.attr == PenAttr(p)
        invariant con.x == old(con.x) && con.y == old(con.y) && con.video == old(con.video)
      {
        assert ps[..i + 1][..i] == ps[..i];
        p := SgrStep(p, ps[i]);
        con.SetColor(p.fore, p.back, p.bright);
        i := i + 1;
      }
      assert ps[..i] == ps;
    }

    /** The command switch of parse_ansi. */
    method RunCsi(ps: seq<nat>, cmd: Byte) returns (ok: bool)
      requires Valid() && |ps| >= 1
      modifies this, con, con.video
      ensures Valid() && con.video == old(con.video)
      ensures (State(), ok) == CsiSpec(old(State()), ps, cmd)
    {
      var pos := con.CursorPos();
      PosAfterMove(con.x + 1, con.y + 1);
      var cx, cy := pos / 256, pos % 256;
      var n := Param(ps, 0);
      if IsMove(cmd) {
        var (nx, ny) := MoveTarget(cmd, ps, cx, cy);
        con.MoveCursorTo(nx, ny);
        return true;
      } else if cmd == CMD_ERASE_DISPLAY {
        EraseDisplay(n, cx, cy);
        EraseLine(n, cx, cy);
        saveX, saveY := cx, cy;
        return true;
      } else if cmd == CMD_ERASE_LINE {
        EraseLine(n, cx, cy);
        saveX, saveY := cx, cy;
        return true;
      } else if cmd == CMD_SAVE {
        saveX, saveY := cx, cy;
        return true;
      } else if cmd == CMD_RESTORE {
        con.MoveCursorTo(saveX, saveY);
        return true;
      } else if cmd == CMD_REPORT {
        if n != 6 {
          return false;
        }
        replies := replies + Report(cx, cy);
        ApplySgr(ps);
        return true;
      } else if cmd == CMD_COLOUR {
        ApplySgr(ps);
        return true;
      }
      return true;
    }

    /** parse_ansi on the sequence whose ESC is at index i of s. */
    method ParseAnsi(s: seq<Byte>, i: nat) returns (offset: int)
      requires Valid() && i < |s| && s[i] == ESC && NulFrom(s, i)
      modifies this, con, con.video
      ensures Valid() && con.video == old(con.video)
      ensures (State(), offset) == ParseAnsiSpec(old(State()), s, i)
    {
      NulPast(s, i);
      if s[i + 1] == RESET_CMD {
        con.SetColor(7, 0, true);
        con.Clear();
        return 1;
      }
      if s[i + 1] != LBRACKET {
        return -1;
      }
      NulPast(s, i + 1);
      var ps, j := ReadParams(s, i + 2);
      var ok := RunCsi(ps, s[j]);
      offset := if ok then j - i else -1;
    }

    /** monitor_write. */
    method Write(s: seq<Byte>)
      requires Valid() && 0 < |s| && NulFrom(s, 0)
      modifies this, con, con.video
      ensures Valid() && con.video == old(con.video)
      ensures State() == WriteSpec(old(State()), s, 0)
    {
      var i := 0;
      while s[i] != 0
        invariant i < |s| && NulFrom(s, i) && Valid() && con.video == old(con.video)
        invariant WriteSpec(State(), s, i) == WriteSpec(old(State()), s, 0)
        decreases |s| - i
      {
        i := WriteStep(s, i);
      }
      WriteEnds(State(), s, i);
    }

    /** One turn of monitor_write's loop at a non-NUL byte. */
    method WriteStep(s: seq<Byte>, i: nat) returns (next: nat)
      requires Valid() && i < |s| && s[i] != 0 && NulFrom(s, i)
      modifies this, con, con.video
      ensures Valid() && con.video == old(con.video)
      ensures i < next < |s| && NulFrom(s, next) && WriteSpec(State(), s, next) == WriteSpec(old(State()), s, i)
    {
      ghost var t := State();
      if s[i] == ESC {
        var offset := ParseAnsi(s, i);
        if offset != -1 {
          WriteSkips(t, s, i, State(), offset);
          return Resume(s, i + offset);
        }
      }
      WritePuts(t, s, i);
      con.Put(s[i]);
      return i + 1;
    }

    /** monitor_write_hex: the "0x" text written through monitor_write;
        PlainHex says what that does. */
    method WriteHex(n: Word32)
      requires Valid()
      modifies this, con, con.video
      ensures Valid() && con.video == old(con.video)
      ensures NulFrom(HexString(n) + [0], 0) && State() == WriteSpec(old(State()), HexString(n) + [0], 0)
    {
      var text := HexText(n);
      var buf := text + [0];
      assert buf[|text|] == 0;
      Write(buf);
    }
  }

  /** Hex text holds neither NUL nor ESC. */
  lemma {:induction false} PlainHex(t: Term, n: Word32, buf: seq<Byte>)
    requires TermValid(t) && buf == HexString(n) + [0]
    ensures NulFrom(buf, 0)
    ensures WriteSpec(t, buf, 0) == t.(screen := PutAll(t.screen, HexString(n)))
  {
    var d := Stdio.Digits(n, 16);
    var text := [DIGIT_ZERO, LETTER_X] + d;
    forall m | 0 <= m < |text| ensures text[m] != 0 && text[m] != ESC
    {
      if m >= 2 {
        assert text[m] == d[m - 2];
        assert 0 <= Stdio.CharDigit(d[m - 2]) < 16;
      }
    }
    WritePlain(t, buf, 0, |text|);
    assert buf[0..|text|] == text;
  }

  // ---------------------------------------------------------------------
  // The source as written
  // ---------------------------------------------------------------------

  /** The cell indices an erase loop of ansi.c writes for x from x0 to x1 in
      row y, as written: set_char_at subtracts one from both coordinates. */
  function RowIndicesAsWritten(y: int, x0: int, x1: int): (r: seq<int>)
    requires x0 <= x1 + 1
    ensures |r| == x1 - x0 + 1
  {
    seq(x1 - x0 + 1, k => Index(x0 + k, y))
  }

  /** The 'K' and 'J' loops start at x = 0 (and the rows of "ESC[1J" at
      y = 0). Column 0 lands in the last cell of the row above, so ESC[1K
      blanks a cell outside the cursor's row, and in the first row it and
      every cell of row 0 lie before the video memory. */
  lemma EraseFromColumnZeroAsWritten(cx: int, cy: int)
    requires OnGrid(cx, cy)
    ensures var w := RowIndicesAsWritten(cy, 0, cx);
      w[0] == (cy - 1) * COLS - 1 && (cy == 1 ==> w[0] < 0) && (cy > 1 ==> w[0] == Index(COLS, cy - 1))
    ensures forall k :: 0 <= k < COLS + 1 ==> RowIndicesAsWritten(0, 0, COLS)[k] < 0
  {
  }

  /** The decoding parse_ansi does as written: the VGA numbers of the
      attribute are taken for ANSI codes. */
  function DecodeAsWritten(attr: Byte): (p: Pen)
    requires attr < 128
    ensures PenOk(p)
  {
    Pen(attr % 8, attr / 16, attr % 16 >= 8)
  }

  function SgrAsWritten(attr: Byte, ps: seq<nat>): Byte
    requires attr < 128
  {
    PenAttr(SgrFold(DecodeAsWritten(attr), ps))
  }

  /** After ESC[44m (blue background, attribute 0x1F) ESC[31m asks for red
      text: as written the blue background is read as VGA 1, taken for ANSI
      red and set to VGA 4, giving red on red (0x44); decoding through the
      table gives red on blue (0x14). ESC[6n, which changes no colour, turns
      the same background red as written. */
  lemma ColourRemapAsWritten()
    ensures SgrAsWritten(0x1F, [31]) == 0x44
    ensures Sgr(0x1F, [31]) == 0x14
    ensures SgrAsWritten(0x1F, [6]) == 0x4F && Sgr(0x1F, [6]) == 0x1F
  {
    assert [31][..0] == [] && [6][..0] == [];
  }

  /** move_cursor_to as written: the 1-based coordinates minus one stored
      into 16-bit cursor variables. */
  function CursorAfterMoveAsWritten(nx: int, ny: int): (Word16, Word16)
  {
    ((nx - 1) % U16, (ny - 1) % U16)
  }

  /** As written, save_x and save_y start at 0: ESC[u before any ESC[s moves
      the cursor to (65535, 65535), and the next character monitor_put
      writes lands far past the 2000 cells. */
  lemma RestoreBeforeSaveAsWritten()
    ensures CursorAfterMoveAsWritten(0, 0) == (0xFFFF, 0xFFFF)
    ensures 0xFFFF * COLS + 0xFFFF >= CELLS
  {
  }

  /** monitor_write as written resumes one past the command char. When a
      sequence is cut off by the end of the string ("ESC [" or "ESC [ 1 2"
      followed by the NUL), the command char is the NUL itself and the loop
      steps over the terminator. */
  function ResumeAsWritten(i: nat, offset: int): int
  {
    i + offset + 1
  }

  lemma {:induction false} TrailingSequenceAsWritten(t: Term)
    requires TermValid(t)
    ensures var s := [ESC, LBRACKET, 0];
      && NulFrom(s, 0)
      && ParseAnsiSpec(t, s, 0).1 == 2
      && ResumeAsWritten(0, 2) == |s| && Resume(s, 2) == 2
      && WriteSpec(t, s, 0) == ParseAnsiSpec(t, s, 0).0
  {
    var s: seq<Byte> := [ESC, LBRACKET, 0];
    assert NulFrom(s, 0) by { assert s[2] == 0; }
    assert Recognize(s, 0) == Control([0], 2);
  }
}
