/** The time formatter of lib/time.c: the BIOS clock registers decoded
    from BCD into the components of the current time, and `data`, which
    expands a format string into a static buffer: `\c` copies c, `%X`
    emits the component X names, anything else is copied. A format is the
    text of its C string (no NUL in it); the BIOS calls are inputs. */
module TimeFormat {
  import opened Machine
  import Stdio
  import Cmos

  const BACKSLASH: Byte := 0x5C
  const PERCENT: Byte := 0x25
  const ZERO_CHAR: Byte := 0x30

  /** The components get_time_components fills in. */
  datatype Components = Components(century: nat, year: nat, month: nat, day: nat,
                                   weekday: nat, hour: nat, minute: nat, second: nat)

  function High(w: Word16): Byte { (w / 0x100) % 0x100 }
  function Low(w: Word16): Byte { w % 0x100 }

  /** get_time_components: INT 1Ah AH=04h leaves century:year in CX and
      month:day in DX, AH=02h leaves hour:minute in CX and second in DH;
      all of these are BCD (bcd_to_int), the weekday in DL is taken as
      it is. */
  function TimeComponents(dateCx: Word16, dateDx: Word16, timeCx: Word16, timeDx: Word16): Components
  {
    Components(Cmos.Bcd2Hex(High(dateCx)), Cmos.Bcd2Hex(Low(dateCx)),
               Cmos.Bcd2Hex(High(dateDx)), Cmos.Bcd2Hex(Low(dateDx)),
               Low(timeDx),
               Cmos.Bcd2Hex(High(timeCx)), Cmos.Bcd2Hex(Low(timeCx)),
               Cmos.Bcd2Hex(High(timeDx)))
  }

  /** Registers whose bytes are the BCD codes of a date and time decode
      to exactly that date and time, and DL to the weekday byte. */
  lemma ComponentsFromBcd(dateCx: Word16, dateDx: Word16, timeCx: Word16, timeDx: Word16,
                          c: nat, y: nat, mo: nat, d: nat, h: nat, mi: nat, s: nat)
    requires c < 100 && y < 100 && mo < 100 && d < 100 && h < 100 && mi < 100 && s < 100
    requires High(dateCx) == Cmos.ToBcd(c) && Low(dateCx) == Cmos.ToBcd(y)
    requires High(dateDx) == Cmos.ToBcd(mo) && Low(dateDx) == Cmos.ToBcd(d)
    requires High(timeCx) == Cmos.ToBcd(h) && Low(timeCx) == Cmos.ToBcd(mi)
    requires High(timeDx) == Cmos.ToBcd(s)
    ensures TimeComponents(dateCx, dateDx, timeCx, timeDx) == Components(c, y, mo, d, Low(timeDx), h, mi, s)
  {
    Cmos.ToBcdRoundTrip(c);
    Cmos.ToBcdRoundTrip(y);
    Cmos.ToBcdRoundTrip(mo);
    Cmos.ToBcdRoundTrip(d);
    Cmos.ToBcdRoundTrip(h);
    Cmos.ToBcdRoundTrip(mi);
    Cmos.ToBcdRoundTrip(s);
  }

  // ----- the fields -----

  /** The decimal digits of n, as sprintf's %d writes them. */
  function Decimal(n: nat): seq<Byte>
  {
    Stdio.Digits(n, 10)
  }

  /** %0<w>d: the digits, left-padded with '0' to at least w places. */
  function ZeroPad(n: nat, w: nat): seq<Byte>
  {
    var d := Decimal(n);
    if |d| >= w then d else seq(w - |d|, _ => ZERO_CHAR) + d
  }

  function Pow10(w: nat): nat
  {
    if w == 0 then 1 else 10 * Pow10(w - 1)
  }

  /** A number below 10^w has at most w digits. */
  lemma {:induction false} DecimalShort(n: nat, w: nat)
    requires n < Pow10(w)
    ensures |Decimal(n)| <= Max(w, 1)
    decreases w
  {
    Stdio.DivMod(n, 10);
    if n / 10 != 0 {
      assert w >= 2 by {
        assert n >= 10;
        assert Pow10(0) == 1 && Pow10(1) == 10;
      }
      DecimalShort(n / 10, w - 1);
      assert Decimal(n) == Decimal(n / 10) + [Stdio.DigitChar(n % 10)];
    }
  }

  /** Leading '0's do not change the value digits spell. */
  lemma {:induction false} LeadingZeros(k: nat, s: seq<Byte>)
    ensures Stdio.ValueOf(seq(k, _ => ZERO_CHAR) + s, 10) == Stdio.ValueOf(s, 10)
    decreases |s|, k
  {
    var t := seq(k, _ => ZERO_CHAR) + s;
    if |s| == 0 {
      if k > 0 {
        assert t[..|t| - 1] == seq(k - 1, _ => ZERO_CHAR) + [];
        LeadingZeros(k - 1, []);
      }
    } else {
      assert t[..|t| - 1] == seq(k, _ => ZERO_CHAR) + s[..|s| - 1];
      LeadingZeros(k, s[..|s| - 1]);
    }
  }

  /** A padded field is exactly w places wide when the number fits. */
  lemma ZeroPadWidth(n: nat, w: nat)
    requires n < Pow10(w)
    ensures |ZeroPad(n, w)| == Max(w, 1)
  {
    DecimalShort(n, w);
  }

  /** A padded field reads back as the number. */
  lemma ZeroPadValue(n: nat, w: nat)
    ensures Stdio.ValueOf(ZeroPad(n, w), 10) == n
  {
    var d := Decimal(n);
    Stdio.DigitsValue(n, 10);
    assert Stdio.ValueOf(d, 10) == n;
    if |d| < w {
      var z := seq(w - |d|, _ => ZERO_CHAR);
      assert ZeroPad(n, w) == z + d;
      LeadingZeros(w - |d|, d);
    }
  }

  /** The 12-hour clock of %h: hour % 12, with 0 shown as 12. */
  function Hour12(hour: nat): (r: nat)
    ensures 1 <= r <= 12 && r % 12 == hour % 12
  {
    var h := hour % 12;
    if h == 0 then 12 else h
  }

  predicate Known(spec: Byte)
  {
    spec in {0x59, 0x79, 0x6D, 0x64, 0x6C, 0x48, 0x68, 0x69, 0x73}
  }

  /** The component a known specifier names: 'Y' the four-digit year,
      'y' the year, 'm' month, 'd' day, 'l' weekday, 'H' hour, 'h' the
      12-hour hour, 'i' minute and 's' second. */
  function FieldValue(spec: Byte, c: Components): nat
  {
    if spec == 0x59 then c.century * 100 + c.year
    else if spec == 0x79 then c.year
    else if spec == 0x6D then c.month
    else if spec == 0x64 then c.day
    else if spec == 0x6C then c.weekday
    else if spec == 0x48 then c.hour
    else if spec == 0x68 then Hour12(c.hour)
    else if spec == 0x69 then c.minute
    else c.second
  }

  /** The format data hands sprintf for a known specifier: "%04d" for
      'Y', "%d" for 'l' and "%02d" for the rest. */
  function FieldFormat(spec: Byte): seq<Byte>
  {
    if spec == 0x59 then [PERCENT, ZERO_CHAR, 0x34, 0x64]
    else if spec == 0x6C then [PERCENT, 0x64]
    else [PERCENT, ZERO_CHAR, 0x32, 0x64]
  }

  /** Each of those formats is one the kernel's vsprintf accepts with a
      single int argument. */
  lemma FieldFormatFits(spec: Byte, v: Int32)
    ensures Stdio.WellFormed(FieldFormat(spec)) && Stdio.VsArgsFit(FieldFormat(spec), [Stdio.IntArg(v)])
  {
    if spec == 0x59 {
      KernelPadded(0x34, v);
    } else if spec == 0x6C {
      KernelPlain(v);
    } else {
      KernelPadded(0x32, v);
    }
  }

  /** The width a C library's sprintf pads that format to (width 1 pads
      nothing). */
  function FieldWidth(spec: Byte): nat
  {
    if spec == 0x59 then 4 else if spec == 0x6C then 1 else 2
  }

  /** The sprintf the fields are formatted with: the kernel's own vsprintf,
      which the program links against and which knows no flags or widths,
      or a C library's, which reads "%04d" as zero padding to 4 places. */
  datatype Printf = KernelPrintf | StandardPrintf

  /** What the kernel's vsprintf writes for the field format of spec and
      the C int v. */
  function KernelField(spec: Byte, v: Int32): seq<Byte>
  {
    FieldFormatFits(spec, v);
    Stdio.VsOut(FieldFormat(spec), [Stdio.IntArg(v)])
  }

  /** What sprintf writes into temp_str for a known specifier. The
      component is passed as a C int. */
  function Field(p: Printf, spec: Byte, c: Components): seq<Byte>
  {
    var n := FieldValue(spec, c);
    match p
    case KernelPrintf => KernelField(spec, ToInt32(ToWord32(n)))
    case StandardPrintf => ZeroPad(n, FieldWidth(spec))
  }

  /** The kernel's vsprintf writes nothing for the conversion "%0" and
      copies the rest of the format. */
  lemma KernelPadded(w: Byte, v: Int32)
    requires w != PERCENT
    ensures Stdio.WellFormed([PERCENT, ZERO_CHAR, w, 0x64])
    ensures Stdio.VsArgsFit([PERCENT, ZERO_CHAR, w, 0x64], [Stdio.IntArg(v)])
    ensures Stdio.VsOut([PERCENT, ZERO_CHAR, w, 0x64], [Stdio.IntArg(v)]) == [w, 0x64]
  {
    var f: seq<Byte> := [PERCENT, ZERO_CHAR, w, 0x64];
    var arg := [Stdio.IntArg(v)];
    assert f[2..][1..] == f[3..] && f[3..][1..] == [];
    assert Stdio.VsOut(f[3..], arg) == [0x64];
    assert Stdio.VsOut(f[2..], arg) == [w, 0x64];
    assert Stdio.VsPiece(ZERO_CHAR, arg) == [];
  }

  /** %d with the kernel's vsprintf is its %d conversion alone. */
  lemma KernelPlain(v: Int32)
    ensures Stdio.WellFormed([PERCENT, 0x64]) && Stdio.VsArgsFit([PERCENT, 0x64], [Stdio.IntArg(v)])
    ensures Stdio.VsOut([PERCENT, 0x64], [Stdio.IntArg(v)]) == Stdio.VsPiece(0x64, [Stdio.IntArg(v)])
  {
    var arg := [Stdio.IntArg(v)];
    assert Stdio.VsArgsFit([], arg[1..]);
    assert [PERCENT, 0x64][2..] == [];
  }

  /** So with the kernel's vsprintf, which the program links against,
      every padded field comes out as the text "4d" or "2d" whatever the
      time; only %l prints its number. */
  lemma KernelFieldsAreLiteral(spec: Byte, c: Components)
    requires Known(spec)
    ensures spec == 0x59 ==> Field(KernelPrintf, spec, c) == [0x34, 0x64]
    ensures spec != 0x59 && spec != 0x6C ==> Field(KernelPrintf, spec, c) == [0x32, 0x64]
    ensures spec == 0x6C && c.weekday < 0x8000_0000 ==> Field(KernelPrintf, spec, c) == Decimal(c.weekday)
  {
    var v := ToInt32(ToWord32(FieldValue(spec, c)));
    assert Field(KernelPrintf, spec, c) == KernelField(spec, v);
    if spec == 0x59 {
      KernelPadded(0x34, v);
    } else if spec == 0x6C {
      KernelPlain(v);
      if c.weekday < 0x8000_0000 {
        assert v == c.weekday;
      }
    } else {
      KernelPadded(0x32, v);
    }
  }

  /** With a C library's sprintf, a field whose number fits its width
      takes exactly that many places and reads back as the number. */
  lemma StandardFieldsReadBack(spec: Byte, c: Components)
    requires Known(spec) && FieldValue(spec, c) < Pow10(FieldWidth(spec))
    ensures |Field(StandardPrintf, spec, c)| == FieldWidth(spec)
    ensures Stdio.ValueOf(Field(StandardPrintf, spec, c), 10) == FieldValue(spec, c)
  {
    ZeroPadWidth(FieldValue(spec, c), FieldWidth(spec));
    ZeroPadValue(FieldValue(spec, c), FieldWidth(spec));
  }

  /** What `%` followed by `spec` emits: the field sprintf writes for the
      component it names, or for an unknown specifier '%' and the specifier
      itself. */
  function Directive(p: Printf, spec: Byte, c: Components): seq<Byte>
  {
    if Known(spec) then Field(p, spec, c) else [PERCENT, spec]
  }

  /** Which bytes each specifier after a '%' emits. */
  type Table = Byte -> seq<Byte>

  /** The directives of data with fields from the sprintf p. */
  function Directives(p: Printf, c: Components): Table
  {
    spec => Directive(p, spec, c)
  }

  // ----- the format interpreter -----

  /** What data writes for the format from position i on. A '\' copies
      the byte after it, and a '\' at the end stops; a '%' at the end
      emits '%' and stops (see FormatAsWritten for the source's reading
      past the terminator there). */
  function FormatFrom(d: Table, fmt: seq<Byte>, i: nat): seq<Byte>
    decreases |fmt| - i
  {
    if i >= |fmt| then []
    else if fmt[i] == BACKSLASH then
      if i + 1 >= |fmt| then [] else [fmt[i + 1]] + FormatFrom(d, fmt, i + 2)
    else if fmt[i] != PERCENT then [fmt[i]] + FormatFrom(d, fmt, i + 1)
    else if i + 1 >= |fmt| then [PERCENT]
    else d(fmt[i + 1]) + FormatFrom(d, fmt, i + 2)
  }

  /** The formatted text of a whole format. */
  function Format(d: Table, fmt: seq<Byte>): seq<Byte>
  {
    FormatFrom(d, fmt, 0)
  }

  /** A format with neither '%' nor '\' is copied unchanged. */
  lemma {:induction false} FormatPlain(d: Table, fmt: seq<Byte>, i: nat)
    requires i <= |fmt|
    requires forall k :: 0 <= k < |fmt| ==> fmt[k] != PERCENT && fmt[k] != BACKSLASH
    ensures FormatFrom(d, fmt, i) == fmt[i..]
    decreases |fmt| - i
  {
    if i < |fmt| {
      FormatPlain(d, fmt, i + 1);
    }
  }

  /** Every byte preceded by '\'. */
  function Escape(s: seq<Byte>): (r: seq<Byte>)
    ensures |r| == 2 * |s|
  {
    if s == [] then [] else [BACKSLASH, s[0]] + Escape(s[1..])
  }

  /** Escaping any text makes a format that prints that text. */
  lemma {:induction false} FormatEscaped(d: Table, s: seq<Byte>)
    ensures Format(d, Escape(s)) == s
  {
    if s != [] {
      var e := Escape(s);
      FormatEscaped(d, s[1..]);
      FormatShift(d, e, 2);
      assert e[2..] == Escape(s[1..]);
    }
  }

  /** The interpretation from position i + 2 of f is that of f[2..] from
      position i, as long as the prefix dropped is behind the scan. */
  lemma {:induction false} FormatShift(d: Table, f: seq<Byte>, i: nat)
    requires 2 <= i <= |f|
    ensures FormatFrom(d, f, i) == FormatFrom(d, f[2..], i - 2)
    decreases |f| - i
  {
    var g := f[2..];
    if i < |f| {
      var b := f[i];
      assert b == g[i - 2];
      if i + 1 < |f| {
        assert f[i + 1] == g[i - 1];
      }
      if b == PERCENT && i + 1 < |f| {
        var piece := d(f[i + 1]);
        FormatShift(d, f, i + 2);
        assert FormatFrom(d, f, i) == piece + FormatFrom(d, f, i + 2);
        assert FormatFrom(d, g, i - 2) == piece + FormatFrom(d, g, i);
      } else if b == BACKSLASH && i + 1 < |f| {
        FormatShift(d, f, i + 2);
      } else if b != BACKSLASH && b != PERCENT {
        FormatShift(d, f, i + 1);
      }
    }
  }

  /** An unknown specifier is passed through as '%' and itself. */
  lemma UnknownSpecifierKept(p: Printf, fmt: seq<Byte>, i: nat, c: Components)
    requires i + 1 < |fmt| && fmt[i] == PERCENT && !Known(fmt[i + 1])
    ensures var d := Directives(p, c); FormatFrom(d, fmt, i) == [PERCENT, fmt[i + 1]] + FormatFrom(d, fmt, i + 2)
  {
  }

  /** No field writes a NUL, so the terminator data appends ends the
      string exactly after the formatted text. */
  lemma {:induction false} FormatNoNul(p: Printf, fmt: seq<Byte>, i: nat, c: Components)
    requires i <= |fmt| && Stdio.NoNul(fmt)
    ensures Stdio.NoNul(FormatFrom(Directives(p, c), fmt, i))
    decreases |fmt| - i
  {
    if i < |fmt| {
      if fmt[i] == BACKSLASH || fmt[i] == PERCENT {
        if i + 1 < |fmt| {
          FormatNoNul(p, fmt, i + 2, c);
          if fmt[i] == PERCENT {
            DirectiveNoNul(p, fmt[i + 1], c);
          }
        }
      } else {
        FormatNoNul(p, fmt, i + 1, c);
      }
    }
  }

  lemma DirectiveNoNul(p: Printf, spec: Byte, c: Components)
    requires spec != 0
    ensures Stdio.NoNul(Directive(p, spec, c))
  {
    if Known(spec) {
      FieldNoNul(p, spec, c);
    }
  }

  lemma FieldNoNul(p: Printf, spec: Byte, c: Components)
    requires Known(spec)
    ensures Stdio.NoNul(Field(p, spec, c))
  {
    match p
    case StandardPrintf =>
      DecimalNoNul(FieldValue(spec, c));
    case KernelPrintf =>
      if spec == 0x6C {
        var v := ToInt32(ToWord32(c.weekday));
        assert Field(KernelPrintf, spec, c) == KernelField(spec, v);
        KernelPlain(v);
        DecimalNoNul(if v < 0 then ToWord32(-(v as int)) else v);
      } else {
        KernelFieldsAreLiteral(spec, c);
      }
  }

  /** Decimal digits are never NUL. */
  lemma DecimalNoNul(n: nat)
    ensures Stdio.NoNul(Decimal(n))
  {
    var d := Decimal(n);
    assert forall k :: 0 <= k < |d| ==> 0 <= Stdio.CharDigit(d[k]) < 10;
  }

  /** temp_str after the kernel's sprintf wrote a field into it: the
      field's bytes over the front of what the five bytes and the memory
      after them held before, with no terminator added. */
  function TempAfter(piece: seq<Byte>, stale: seq<Byte>): (t: seq<Byte>)
    requires |piece| <= |stale|
    ensures |t| == |stale| && t[|piece|..] == stale[|piece|..]
  {
    piece + stale[|piece|..]
  }

  /** The copy loop after the kernel's sprintf gives the field and then
      the stale bytes up to the first NUL: the field alone exactly when
      the byte after it was already NUL. */
  lemma FieldCopy(piece: seq<Byte>, stale: seq<Byte>)
    requires Stdio.NoNul(piece) && |piece| < |stale|
    ensures CString(TempAfter(piece, stale)) == piece + CString(stale[|piece|..])
    ensures CString(TempAfter(piece, stale)) == piece <==> stale[|piece|] == 0
  {
    CStringAppend(piece, stale[|piece|..]);
    if stale[|piece|] != 0 {
      assert |CString(stale[|piece|..])| > 0;
    }
  }

  /** A C scan passes through NUL-free bytes into what follows them. */
  lemma {:induction false} CStringAppend(piece: seq<Byte>, rest: seq<Byte>)
    requires Stdio.NoNul(piece)
    ensures CString(piece + rest) == piece + CString(rest)
  {
    if piece != [] {
      assert (piece + rest)[0] == piece[0] != 0;
      assert (piece + rest)[1..] == piece[1..] + rest;
      CStringAppend(piece[1..], rest);
      assert piece == [piece[0]] + piece[1..];
    } else {
      assert piece + rest == rest;
    }
  }

  /** A field followed by a NUL reads back as the field. */
  lemma CStringOfField(piece: seq<Byte>)
    requires Stdio.NoNul(piece)
    ensures CString(piece + [0]) == piece
  {
    CStringAppend(piece, [0]);
  }

  /** The directive "%Y" in 2025: the program's sprintf writes "4d" over
      the first two bytes of temp_str, and the copy goes on through
      whatever temp_str held after them; a C library's sprintf would have
      given "2025". */
  lemma YearFieldAsWritten(c: Components, stale: seq<Byte>)
    requires c.century == 20 && c.year == 25 && |stale| > 2
    ensures Directive(KernelPrintf, 0x59, c) == [0x34, 0x64]
    ensures CString(TempAfter([0x34, 0x64], stale)) == [0x34, 0x64] + CString(stale[2..])
    ensures Directive(StandardPrintf, 0x59, c) == [0x32, 0x30, 0x32, 0x35]
  {
    KernelFieldsAreLiteral(0x59, c);
    FieldCopy([0x34, 0x64], stale);
    assert FieldValue(0x59, c) == 2025;
    Decimal2025();
    assert ZeroPad(2025, 4) == Decimal(2025);
  }

  lemma Decimal2025()
    ensures Decimal(2025) == [0x32, 0x30, 0x32, 0x35]
  {
    assert Stdio.Digits(2, 10) == [0x32];
    assert Stdio.Digits(20, 10) == [0x32, 0x30];
    assert Stdio.Digits(202, 10) == [0x32, 0x30, 0x32];
  }

  // ----- the source's reading of a trailing '%' -----

  /** The byte at `k` of memory that holds the format and what follows it;
      memory past the modelled part reads as 0. */
  function At(mem: seq<Byte>, k: nat): Byte
  {
    if k < |mem| then mem[k] else 0
  }

  /** data as written, over the memory the format lies in: after a '%'
      the specifier is read even when it is the terminator, the default
      case writes '%' and that 0, and the scan goes on after the
      terminator. */
  function FormatAsWritten(d: Table, mem: seq<Byte>, i: nat): seq<Byte>
    decreases |mem| - i
  {
    if i >= |mem| || mem[i] == 0 then []
    else if mem[i] == BACKSLASH then
      if At(mem, i + 1) == 0 then [] else [mem[i + 1]] + FormatAsWritten(d, mem, i + 2)
    else if mem[i] != PERCENT then [mem[i]] + FormatAsWritten(d, mem, i + 1)
    else d(At(mem, i + 1)) + FormatAsWritten(d, mem, i + 2)
  }

  /** Whether the scan from position i ends on a '%' with only the
      terminator after it. */
  predicate OpenPercent(fmt: seq<Byte>, i: nat)
    decreases |fmt| - i
  {
    if i >= |fmt| then false
    else if fmt[i] == BACKSLASH then i + 1 < |fmt| && OpenPercent(fmt, i + 2)
    else if fmt[i] != PERCENT then OpenPercent(fmt, i + 1)
    else i + 1 >= |fmt| || OpenPercent(fmt, i + 2)
  }

  /** Unless the format ends in a lone '%', the source's scan never looks
      past the terminator and writes what Format says, whatever follows. */
  lemma {:induction false} FormatAgrees(d: Table, fmt: seq<Byte>, rest: seq<Byte>, i: nat)
    requires i <= |fmt| && Stdio.NoNul(fmt) && !OpenPercent(fmt, i)
    ensures FormatAsWritten(d, fmt + [0] + rest, i) == FormatFrom(d, fmt, i)
    decreases |fmt| - i
  {
    var mem := fmt + [0] + rest;
    if i < |fmt| {
      assert mem[i] == fmt[i];
      if i + 1 < |fmt| {
        assert At(mem, i + 1) == fmt[i + 1];
      }
      if fmt[i] == BACKSLASH || fmt[i] == PERCENT {
        if i + 1 < |fmt| {
          FormatAgrees(d, fmt, rest, i + 2);
        } else {
          assert At(mem, i + 1) == 0;
        }
      } else {
        FormatAgrees(d, fmt, rest, i + 1);
      }
    } else {
      assert mem[i] == 0;
    }
  }

  /** The format "%" followed in memory by "A": the source writes '%',
      the terminator and then the 'A' it finds past the end; the corrected
      interpreter writes "%" and stops. */
  lemma TrailingPercentReadsPastEnd(p: Printf, c: Components)
    ensures FormatAsWritten(Directives(p, c), [PERCENT, 0, 0x41], 0) == [PERCENT, 0, 0x41]
    ensures Format(Directives(p, c), [PERCENT]) == [PERCENT]
  {
    var d := Directives(p, c);
    assert FormatAsWritten(d, [PERCENT, 0, 0x41], 2) == [0x41];
  }

  // ----- the imperative interpreter -----

  lemma Regroup(a: seq<Byte>, p: seq<Byte>, r: seq<Byte>)
    ensures (a + p) + r == a + (p + r)
  {
  }

  /** The copy loop after each sprintf: the bytes of temp_str up to its
      first NUL appended to the buffer. */
  method Emit(out: seq<Byte>, temp: seq<Byte>) returns (out': seq<Byte>)
    requires Terminated(temp)
    ensures out' == out + CString(temp)
  {
    out' := out;
    var j := 0;
    while temp[j] != 0
      invariant j <= |CString(temp)| && out' == out + CString(temp)[..j]
      decreases |temp| - j
    {
      out' := out' + [temp[j]];
      j := j + 1;
    }
    assert CString(temp)[..j] == CString(temp);
  }

  /** data: the buffer it fills, the formatted text followed by the NUL
      terminator, with the fields as the sprintf p writes them (the
      program's own is KernelPrintf). temp_str is taken to hold a NUL
      right after each field; TempAfter and FieldCopy give the copy when
      it does not. */
  method Data(p: Printf, fmt: seq<Byte>, c: Components) returns (buffer: seq<Byte>)
    requires Stdio.NoNul(fmt)
    ensures buffer == Format(Directives(p, c), fmt) + [0]
  {
    var d := Directives(p, c);
    var out: seq<Byte> := [];
    var i := 0;
    while i < |fmt|
      invariant 0 <= i <= |fmt|
      invariant out + FormatFrom(d, fmt, i) == Format(d, fmt)
      decreases |fmt| - i
    {
      ghost var before := out;
      if fmt[i] == BACKSLASH {
        if i + 1 >= |fmt| {
          assert FormatFrom(d, fmt, i) == [];
          break;
        }
        out := out + [fmt[i + 1]];
        Regroup(before, [fmt[i + 1]], FormatFrom(d, fmt, i + 2));
        i := i + 2;
      } else if fmt[i] != PERCENT {
        out := out + [fmt[i]];
        Regroup(before, [fmt[i]], FormatFrom(d, fmt, i + 1));
        i := i + 1;
      } else if i + 1 >= |fmt| {
        assert FormatFrom(d, fmt, i) == [PERCENT];
        out := out + [PERCENT];
        break;
      } else {
        var piece := d(fmt[i + 1]);
        DirectiveNoNul(p, fmt[i + 1], c);
        CStringOfField(piece);
        out := Emit(out, piece + [0]);
        Regroup(before, piece, FormatFrom(d, fmt, i + 2));
        i := i + 2;
      }
    }
    buffer := out + [0];
  }

  /** The format getdata passes: "YmdHis", with no '%' in it. */
  const GETDATA_FORMAT: seq<Byte> := [0x59, 0x6D, 0x64, 0x48, 0x69, 0x73]

  /** getdata: the letters "YmdHis" themselves, NUL-terminated, whatever
      the time. */
  method GetData(c: Components) returns (buffer: seq<Byte>)
    ensures buffer == GETDATA_FORMAT + [0]
  {
    buffer := Data(KernelPrintf, GETDATA_FORMAT, c);
    FormatPlain(Directives(KernelPrintf, c), GETDATA_FORMAT, 0);
  }
}
