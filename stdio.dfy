/** The formatting half of the C library: strcat, strrchr, the bounded
    snprintf, the digit writer itoa and the unbounded vsprintf/sprintf. A
    call's variable arguments are a list of `Arg`s; a format is the text of
    its C string (no NUL in it). */
module Stdio {
  import opened Machine
  import opened StringLib

  const PERCENT: Byte := 0x25
  const MINUS: Byte := 0x2D
  const DIGIT_ZERO: Byte := 0x30
  const INT_MIN: int := -0x8000_0000

  /** One variable argument: an `int` (also what `%c` reads) or a string. */
  datatype Arg = IntArg(v: Int32) | StrArg(s: seq<Byte>)

  predicate NoNul(s: seq<Byte>)
  {
    forall k :: 0 <= k < |s| ==> s[k] != 0
  }

  /** The first n bytes of s, or all of s when it is shorter. */
  function Take(s: seq<Byte>, n: int): (r: seq<Byte>)
    ensures |r| == if n <= 0 then 0 else Min(n, |s|)
    ensures r == s[..|r|]
  {
    if n <= 0 then [] else if n >= |s| then s else s[..n]
  }

  lemma TakeConcat(a: seq<Byte>, b: seq<Byte>, n: int)
    requires |a| <= n
    ensures Take(a + b, n) == a + Take(b, n - |a|)
  {
    var l := Take(a + b, n);
    var r := a + Take(b, n - |a|);
    assert |l| == |r|;
    forall k | 0 <= k < |l|
      ensures l[k] == r[k]
    {
      if k >= |a| {
        assert r[k] == Take(b, n - |a|)[k - |a|] == b[k - |a|];
      }
    }
  }

  // ----- itoa -----

  /** The character itoa writes for one digit: '0'..'9', then 'A'..'F'. */
  function DigitChar(m: nat): Byte
    requires m < 16
  {
    if m < 10 then DIGIT_ZERO + m else m - 10 + 0x41
  }

  /** The digit a character stands for, when it is one. */
  function CharDigit(c: Byte): int
  {
    if 0x30 <= c <= 0x39 then c - 0x30 else if 0x41 <= c <= 0x46 then c - 0x41 + 10 else -1
  }

  /** The two bases itoa is called with: decimal and hexadecimal. */
  type Radix = r: nat | r == 10 || r == 16 witness 10

  /** num / radix and num % radix, spelled per base so that every division
      is by a constant. */
  function Quot(num: nat, radix: Radix): nat
  {
    if radix == 10 then num / 10 else num / 16
  }

  function Rem(num: nat, radix: Radix): (m: nat)
    ensures m < radix
  {
    if radix == 10 then num % 10 else num % 16
  }

  /** v * radix, spelled per base. */
  function Scale(v: int, radix: Radix): int
  {
    if radix == 10 then v * 10 else v * 16
  }

  lemma DivMod(num: nat, radix: Radix)
    ensures num == Scale(Quot(num, radix), radix) + Rem(num, radix)
    ensures Quot(num, radix) != 0 ==> Quot(num, radix) < num
    ensures Quot(num, radix) == 0 ==> Rem(num, radix) == num
  {
  }

  /** The radix digits of num, most significant first, with no leading
      zero (0 itself is "0"). */
  function Digits(num: nat, radix: Radix): (r: seq<Byte>)
    ensures 1 <= |r| && (num == 0 <==> r == [DIGIT_ZERO]) && (num != 0 ==> r[0] != DIGIT_ZERO)
    ensures forall k :: 0 <= k < |r| ==> 0 <= CharDigit(r[k]) < radix
    decreases num
  {
    DivMod(num, radix);
    (if Quot(num, radix) != 0 then Digits(Quot(num, radix), radix) else []) + [DigitChar(Rem(num, radix))]
  }

  /** Reading digits back, most significant first. */
  function ValueOf(s: seq<Byte>, radix: Radix): int
  {
    if |s| == 0 then 0 else Scale(ValueOf(s[..|s| - 1], radix), radix) + CharDigit(s[|s| - 1])
  }

  /** The digits itoa writes read back as the number. */
  lemma {:induction false} DigitsValue(num: nat, radix: Radix)
    ensures ValueOf(Digits(num, radix), radix) == num
    decreases num
  {
    var q := Quot(num, radix);
    var m := Rem(num, radix);
    DivMod(num, radix);
    var hi := if q != 0 then Digits(q, radix) else [];
    assert Digits(num, radix) == hi + [DigitChar(m)];
    ValueOfSnoc(hi, DigitChar(m), radix);
    assert CharDigit(DigitChar(m)) == m;
    if q != 0 {
      DigitsValue(q, radix);
    }
  }

  /** A digit appended on the right scales the value and adds the digit. */
  lemma ValueOfSnoc(hi: seq<Byte>, x: Byte, radix: Radix)
    ensures ValueOf(hi + [x], radix) == Scale(ValueOf(hi, radix), radix) + CharDigit(x)
  {
    assert (hi + [x])[..|hi|] == hi;
  }

  /** `b` with `w` stored from index p on. */
  function Put(b: seq<Byte>, p: nat, w: seq<Byte>): (r: seq<Byte>)
    requires p + |w| <= |b|
    ensures |r| == |b|
  {
    b[..p] + w + b[p + |w|..]
  }

  lemma PutOne(b: seq<Byte>, i: nat, x: Byte)
    requires i < |b|
    ensures Put(b, i, [x]) == b[i := x]
  {
  }

  lemma PutNothing(b: seq<Byte>, p: nat)
    requires p <= |b|
    ensures Put(b, p, []) == b
  {
  }

  lemma PutPut(b: seq<Byte>, p: nat, u: seq<Byte>, w: seq<Byte>)
    requires p + |u| + |w| <= |b|
    ensures Put(Put(b, p, u), p + |u|, w) == Put(b, p, u + w)
  {
    var l := Put(Put(b, p, u), p + |u|, w);
    var r := Put(b, p, u + w);
    forall k | 0 <= k < |b|
      ensures l[k] == r[k]
    {
      if p <= k < p + |u| {
        assert l[k] == Put(b, p, u)[k] == u[k - p] == (u + w)[k - p];
      } else if p + |u| <= k < p + |u| + |w| {
        assert (u + w)[k - p] == w[k - p - |u|];
      }
    }
    assert l == r;
  }

  /** itoa: writes the digits of num at buf[at..] and answers the index
      just past them, which is where the caller's pointer is left. */
  method Itoa(buf: array<Byte>, at: nat, num: Word32, radix: Radix) returns (next: nat)
    requires at + |Digits(num, radix)| <= buf.Length
    modifies buf
    ensures next == at + |Digits(num, radix)|
    ensures buf[..] == Put(old(buf[..]), at, Digits(num, radix))
    decreases num
  {
    var m := Rem(num, radix);
    var i := Quot(num, radix);
    DivMod(num, radix);
    next := at;
    ghost var hi: seq<Byte> := [];
    if i != 0 {
      next := Itoa(buf, at, i, radix);
      hi := Digits(i, radix);
    } else {
      PutNothing(buf[..], at);
    }
    ghost var b1 := buf[..];
    buf[next] := DigitChar(m);
    assert Digits(num, radix) == hi + [DigitChar(m)];
    PutAfter(old(buf[..]), b1, buf[..], at, hi, DigitChar(m));
    next := next + 1;
  }

  /** Storing x right after w, which was put at p, puts w + [x] at p. */
  lemma PutAfter(b0: seq<Byte>, b1: seq<Byte>, b2: seq<Byte>, p: nat, w: seq<Byte>, x: Byte)
    requires p + |w| < |b0| && b1 == Put(b0, p, w) && b2 == b1[p + |w| := x]
    ensures b2 == Put(b0, p, w + [x])
  {
    PutOne(b1, p + |w|, x);
    PutPut(b0, p, w, [x]);
  }

  // ----- snprintf -----

  /** Every '%' of the format has a character after it; a '%' at the very
      end would make the scan step over the terminator. */
  predicate WellFormed(fmt: seq<Byte>)
    decreases |fmt|
  {
    if |fmt| == 0 then true
    else if fmt[0] != PERCENT then WellFormed(fmt[1..])
    else |fmt| >= 2 && WellFormed(fmt[2..])
  }

  /** The conversions snprintf takes an argument for, and of which kind. */
  predicate SnArgsFit(fmt: seq<Byte>, args: seq<Arg>)
    requires WellFormed(fmt)
    decreases |fmt|
  {
    if |fmt| == 0 then true
    else if fmt[0] != PERCENT then SnArgsFit(fmt[1..], args)
    else if fmt[1] == 'd' as Byte || fmt[1] == 'c' as Byte then
      |args| > 0 && args[0].IntArg? && SnArgsFit(fmt[2..], args[1..])
    else if fmt[1] == 's' as Byte then
      |args| > 0 && args[0].StrArg? && SnArgsFit(fmt[2..], args[1..])
    else SnArgsFit(fmt[2..], args)
  }

  /** %d of snprintf: a minus for negatives, then the decimal digits of the
      magnitude. */
  function SnDecimal(n: Int32): (r: seq<Byte>)
    ensures n < 0 ==> r == [MINUS] + Digits(-(n as int), 10)
    ensures n >= 0 ==> r == Digits(n, 10)
  {
    if n < 0 then [MINUS] + Digits(-(n as int), 10) else Digits(n, 10)
  }

  /** What `%d` prints once its sign is written, read back: the magnitude. */
  lemma SnDecimalValue(n: Int32)
    ensures n < 0 ==> SnDecimal(n)[0] == MINUS && ValueOf(SnDecimal(n)[1..], 10) == -(n as int)
    ensures n >= 0 ==> ValueOf(SnDecimal(n), 10) == n
  {
    DigitsValue(if n < 0 then -(n as int) else n, 10);
    if n < 0 {
      assert SnDecimal(n)[1..] == Digits(-(n as int), 10);
    }
  }

  /** C's `/` and `%` on int: the quotient truncates toward zero. */
  function CQuot(a: int, b: int): int
    requires b > 0
  {
    if a >= 0 then a / b else -((-a) / b)
  }

  function CRem(a: int, b: int): int
    requires b > 0
  {
    a - CQuot(a, b) * b
  }

  /** The negation `num = -num` on a 32-bit int: INT_MIN stays INT_MIN. */
  function NegInt32(n: Int32): Int32
  {
    if n == INT_MIN then INT_MIN else -n
  }

  /** The digits snprintf's do-while loop produces for an int, as written:
      one character '0' + num % 10 per step while the quotient stays
      positive. */
  function CDecimalDigits(n: int): seq<Byte>
    requires -0x8000_0000 <= n < 0x8000_0000
    decreases if n > 0 then n else 0
  {
    var q := CQuot(n, 10);
    var c := DIGIT_ZERO + CRem(n, 10);
    (if q > 0 then CDecimalDigits(q) else []) + [if 0 <= c < U8 then c else 0]
  }

  /** %d of snprintf exactly as written. */
  function SnDecimalAsWritten(n: Int32): seq<Byte>
  {
    if n < 0 then [MINUS] + CDecimalDigits(NegInt32(n)) else CDecimalDigits(n)
  }

  /** For INT_MIN the negation overflows, the remainder is -8 and the loop
      stops after one step: "-(" instead of "-2147483648". */
  lemma SnDecimalAsWrittenIntMin()
    ensures SnDecimalAsWritten(INT_MIN) == [MINUS, 0x28]
    ensures SnDecimal(INT_MIN) == [MINUS] + Digits(0x8000_0000, 10)
    ensures SnDecimalAsWritten(INT_MIN) != SnDecimal(INT_MIN)
  {
    assert CQuot(INT_MIN, 10) == -214748364;
    assert CRem(INT_MIN, 10) == -8;
    assert CDecimalDigits(INT_MIN) == [0x28];
    var d := Digits(0x8000_0000, 10);
    assert |d| >= 2 by {
      assert d == Digits(0x8000_0000 / 10, 10) + [DigitChar(0x8000_0000 % 10)];
    }
  }

  /** For every other int the loop agrees with the intended digits. */
  lemma {:induction false} CDecimalDigitsAgree(n: int)
    requires 0 <= n < 0x8000_0000
    ensures CDecimalDigits(n) == Digits(n, 10)
    decreases n
  {
    if n / 10 > 0 {
      CDecimalDigitsAgree(n / 10);
    }
  }

  lemma SnDecimalAsWrittenAgrees(n: Int32)
    requires n != INT_MIN
    ensures SnDecimalAsWritten(n) == SnDecimal(n)
  {
    CDecimalDigitsAgree(if n < 0 then -n else n);
  }

  /** What one conversion of snprintf prints when nothing is cut off. */
  function SnPiece(conv: Byte, args: seq<Arg>): seq<Byte>
  {
    if conv == 'd' as Byte && |args| > 0 && args[0].IntArg? then SnDecimal(args[0].v)
    else if conv == 's' as Byte && |args| > 0 && args[0].StrArg? then CString(args[0].s)
    else if conv == 'c' as Byte && |args| > 0 && args[0].IntArg? then [args[0].v % U8]
    else [conv]
  }

  function SnUses(conv: Byte): nat
  {
    if conv == 'd' as Byte || conv == 's' as Byte || conv == 'c' as Byte then 1 else 0
  }

  /** The text snprintf would produce with unlimited room: literals as
      they are, %d %s %c as their argument, any other %x as x. */
  function SnRender(fmt: seq<Byte>, args: seq<Arg>): seq<Byte>
    requires WellFormed(fmt) && SnArgsFit(fmt, args)
    decreases |fmt|
  {
    if |fmt| == 0 then []
    else if fmt[0] != PERCENT then [fmt[0]] + SnRender(fmt[1..], args)
    else SnPiece(fmt[1], args) + SnRender(fmt[2..], args[SnUses(fmt[1])..])
  }

  lemma TakeSplit(piece: seq<Byte>, rest: seq<Byte>, n: int)
    ensures Take(piece + rest, n) == Take(piece, n) + (if |piece| <= n then Take(rest, n - |piece|) else [])
  {
    if |piece| <= n {
      TakeConcat(piece, rest, n);
    } else if n > 0 {
      assert (piece + rest)[..n] == piece[..n];
    }
  }

  /** The bound snprintf keeps after copying one piece: what has been
      written is still the cut-off text, and the rest of the text is cut
      off at the room that is left. */
  lemma SnStep(all: seq<Byte>, pre: seq<Byte>, piece: seq<Byte>, rest: seq<Byte>, cap: nat, count: nat, written: seq<Byte>)
    requires |pre| <= cap && Take(all, cap) == pre + Take(piece + rest, cap - |pre|)
    requires count == |pre| + |Take(piece, cap - |pre|)|
    requires written == pre + Take(piece, cap - |pre|)
    ensures count <= cap && Take(all, cap) == written + Take(rest, cap - count)
  {
    TakeSplit(piece, rest, cap - |pre|);
  }

  /** The copying loop of one piece: as many of its bytes as still fit
      below the cap go to buf[count..]. */
  method Emit(buf: array<Byte>, count: nat, cap: nat, piece: seq<Byte>) returns (next: nat)
    requires count <= cap < buf.Length
    modifies buf
    ensures next == count + |Take(piece, cap - count)| && next <= cap
    ensures buf[..next] == old(buf[..count]) + Take(piece, cap - count)
    ensures forall k :: next <= k < buf.Length ==> buf[k] == old(buf[k])
  {
    next := count;
    var j := 0;
    while j < |piece| && next < cap
      invariant 0 <= j <= |piece| && next == count + j <= cap
      invariant buf[..next] == old(buf[..count]) + piece[..j]
      invariant forall k :: next <= k < buf.Length ==> buf[k] == old(buf[k])
    {
      buf[next] := piece[j];
      assert buf[..next + 1] == buf[..next] + [piece[j]];
      assert piece[..j + 1] == piece[..j] + [piece[j]];
      next := next + 1;
      j := j + 1;
    }
    assert piece[..j] == Take(piece, cap - count);
  }

  /** The scan of snprintf (and vsprintf) past a literal byte at fmt[f]. */
  lemma SnLiteralAt(fmt: seq<Byte>, args: seq<Arg>, f: nat, a: nat)
    requires f < |fmt| && a <= |args| && fmt[f] != PERCENT
    requires WellFormed(fmt[f..]) && SnArgsFit(fmt[f..], args[a..])
    ensures WellFormed(fmt[f + 1..]) && SnArgsFit(fmt[f + 1..], args[a..])
    ensures SnRender(fmt[f..], args[a..]) == [fmt[f]] + SnRender(fmt[f + 1..], args[a..])
  {
    assert fmt[f..][0] == fmt[f];
    assert fmt[f..][1..] == fmt[f + 1..];
  }

  /** The scan of snprintf past a conversion at fmt[f]. */
  lemma SnConversionAt(fmt: seq<Byte>, args: seq<Arg>, f: nat, a: nat)
    requires f < |fmt| && a <= |args| && fmt[f] == PERCENT
    requires WellFormed(fmt[f..]) && SnArgsFit(fmt[f..], args[a..])
    ensures f + 2 <= |fmt| && a + SnUses(fmt[f + 1]) <= |args|
    ensures WellFormed(fmt[f + 2..]) && SnArgsFit(fmt[f + 2..], args[a + SnUses(fmt[f + 1])..])
    ensures SnRender(fmt[f..], args[a..])
      == SnPiece(fmt[f + 1], args[a..]) + SnRender(fmt[f + 2..], args[a + SnUses(fmt[f + 1])..])
  {
    var s := fmt[f..];
    assert s[0] == PERCENT && s[1] == fmt[f + 1];
    assert s[2..] == fmt[f + 2..];
    assert args[a..][SnUses(fmt[f + 1])..] == args[a + SnUses(fmt[f + 1])..];
  }

  /** One turn of snprintf's loop at fmt[f] with the arguments from a
      on: the piece of one literal or conversion is copied as far as the
      cap allows, and what is still to be written is the rest of the text
      cut off at the room that is left. */
  method SnTurn(buf: array<Byte>, fmt: seq<Byte>, args: seq<Arg>, f: nat, a: nat, count: nat, cap: nat)
      returns (f': nat, a': nat, count': nat)
    requires f < |fmt| && a <= |args| && count < cap < buf.Length
    requires WellFormed(fmt[f..]) && SnArgsFit(fmt[f..], args[a..])
    modifies buf
    ensures f < f' <= |fmt| && a <= a' <= |args| && count <= count' <= cap
    ensures WellFormed(fmt[f'..]) && SnArgsFit(fmt[f'..], args[a'..])
    ensures old(buf[..count]) + Take(SnRender(fmt[f..], args[a..]), cap - count)
      == buf[..count'] + Take(SnRender(fmt[f'..], args[a'..]), cap - count')
    ensures forall k :: count' <= k < buf.Length ==> buf[k] == old(buf[k])
  {
    ghost var pre := buf[..count];
    var piece: seq<Byte>;
    if fmt[f] == PERCENT {
      SnConversionAt(fmt, args, f, a);
      piece := SnPiece(fmt[f + 1], args[a..]);
      f', a' := f + 2, a + SnUses(fmt[f + 1]);
    } else {
      SnLiteralAt(fmt, args, f, a);
      piece := [fmt[f]];
      f', a' := f + 1, a;
    }
    ghost var rest := SnRender(fmt[f'..], args[a'..]);
    assert SnRender(fmt[f..], args[a..]) == piece + rest;
    count' := SnCopy(buf, count, cap, piece, rest);
    assert pre + Take(piece + rest, cap - count) == buf[..count'] + Take(rest, cap - count');
  }

  /** Emit followed by the bound it keeps: copying `piece` leaves the
      text still to be written as `rest` cut off at the room left. */
  method SnCopy(buf: array<Byte>, count: nat, cap: nat, piece: seq<Byte>, ghost rest: seq<Byte>) returns (count': nat)
    requires count < cap < buf.Length
    modifies buf
    ensures count <= count' <= cap
    ensures old(buf[..count]) + Take(piece + rest, cap - count) == buf[..count'] + Take(rest, cap - count')
    ensures forall k :: count' <= k < buf.Length ==> buf[k] == old(buf[k])
  {
    ghost var pre := buf[..count];
    count' := Emit(buf, count, cap, piece);
    SnStep(pre + Take(piece + rest, cap - count), pre, piece, rest, cap, count', buf[..count']);
  }

  /** snprintf: writes at most size-1 bytes, the untruncated text cut off
      at that length, then a NUL; answers the number of bytes written. */
  method Snprintf(buf: array<Byte>, size: Word32, fmt: seq<Byte>, args: seq<Arg>) returns (count: nat)
    requires 1 <= size <= buf.Length
    requires WellFormed(fmt) && SnArgsFit(fmt, args)
    modifies buf
    ensures count <= size - 1 && buf[count] == 0
    ensures buf[..count] == Take(SnRender(fmt, args), size - 1)
    ensures forall k :: count < k < buf.Length ==> buf[k] == old(buf[k])
  {
    var cap := size - 1;
    count := 0;
    var f: nat := 0;
    var a: nat := 0;
    assert fmt[f..] == fmt && args[a..] == args;
    while f < |fmt| && count < cap
      invariant f <= |fmt| && a <= |args| && count <= cap
      invariant WellFormed(fmt[f..]) && SnArgsFit(fmt[f..], args[a..])
      invariant Take(SnRender(fmt, args), cap) == buf[..count] + Take(SnRender(fmt[f..], args[a..]), cap - count)
      invariant forall k :: count <= k < buf.Length ==> buf[k] == old(buf[k])
      decreases |fmt| - f
    {
      f, a, count := SnTurn(buf, fmt, args, f, a, count, cap);
    }
    if f == |fmt| {
      assert fmt[f..] == [];
    }
    buf[count] := 0;
  }

  // ----- vsprintf -----

  /** The conversions vsprintf takes an argument for, and of which kind. */
  predicate VsArgsFit(fmt: seq<Byte>, args: seq<Arg>)
    requires WellFormed(fmt)
    decreases |fmt|
  {
    if |fmt| == 0 then true
    else if fmt[0] != PERCENT then VsArgsFit(fmt[1..], args)
    else if fmt[1] in ['d' as Byte, 'c' as Byte, 'x' as Byte] then
      |args| > 0 && args[0].IntArg? && VsArgsFit(fmt[2..], args[1..])
    else if fmt[1] == 's' as Byte then
      |args| > 0 && args[0].StrArg? && VsArgsFit(fmt[2..], args[1..])
    else VsArgsFit(fmt[2..], args)
  }

  function VsUses(conv: Byte): nat
  {
    if conv in ['d' as Byte, 'c' as Byte, 'x' as Byte, 's' as Byte] then 1 else 0
  }

  /** What one conversion of vsprintf writes: %s the string, %c the low
      byte, %x the hex digits of the unsigned value, %d a minus for
      negatives and the decimal digits of the magnitude taken as unsigned;
      any other conversion writes nothing. */
  function VsPiece(conv: Byte, args: seq<Arg>): seq<Byte>
  {
    if |args| == 0 then []
    else if conv == 's' as Byte && args[0].StrArg? then CString(args[0].s)
    else if conv == 'c' as Byte && args[0].IntArg? then [args[0].v % U8]
    else if conv == 'x' as Byte && args[0].IntArg? then Digits(ToWord32(args[0].v), 16)
    else if conv == 'd' as Byte && args[0].IntArg? then
      var v := args[0].v;
      if v < 0 then [MINUS] + Digits(ToWord32(-(v as int)), 10) else Digits(v, 10)
    else []
  }

  /** The bytes one conversion stores: its piece, and for %s the
      terminator strcpy copies after it. */
  function VsStore(conv: Byte, args: seq<Arg>): (w: seq<Byte>)
    ensures |w| == |VsPiece(conv, args)| || (|w| == |VsPiece(conv, args)| + 1 && w[|VsPiece(conv, args)|] == 0)
    ensures w[..|VsPiece(conv, args)|] == VsPiece(conv, args)
  {
    var piece := VsPiece(conv, args);
    if conv == 's' as Byte then piece + [0] else piece
  }

  /** The bytes vsprintf produces, in order, when the buffer has room. */
  function VsOut(fmt: seq<Byte>, args: seq<Arg>): seq<Byte>
    requires WellFormed(fmt) && VsArgsFit(fmt, args)
    decreases |fmt|
  {
    if |fmt| == 0 then []
    else if fmt[0] != PERCENT then [fmt[0]] + VsOut(fmt[1..], args)
    else VsPiece(fmt[1], args) + VsOut(fmt[2..], args[VsUses(fmt[1])..])
  }

  /** The buffer after vsprintf has written from index p on: each
      conversion's bytes in turn, a %s with the terminator strcpy puts
      after it (overwritten by whatever comes next). */
  function VsWrite(b: seq<Byte>, p: nat, fmt: seq<Byte>, args: seq<Arg>): (r: seq<Byte>)
    requires WellFormed(fmt) && VsArgsFit(fmt, args)
    requires p + |VsOut(fmt, args)| < |b|
    ensures |r| == |b|
    decreases |fmt|
  {
    if |fmt| == 0 then b
    else if fmt[0] != PERCENT then VsWrite(Put(b, p, [fmt[0]]), p + 1, fmt[1..], args)
    else
      VsWrite(Put(b, p, VsStore(fmt[1], args)), p + |VsPiece(fmt[1], args)|, fmt[2..], args[VsUses(fmt[1])..])
  }

  /** r is b with `out` written from p on, then either a NUL or the byte
      that was there, and the rest of b as it was. */
  predicate Shape(b: seq<Byte>, p: nat, out: seq<Byte>, r: seq<Byte>)
  {
    && |r| == |b| && p + |out| < |b|
    && r[..p] == b[..p] && r[p..p + |out|] == out
    && (r[p + |out|] == 0 || r[p + |out|] == b[p + |out|])
    && forall k :: p + |out| < k < |b| ==> r[k] == b[k]
  }

  /** Writing `w` (one piece, perhaps with a NUL after it) and then the
      rest gives the piece followed by the rest. */
  lemma ShapeCompose(b: seq<Byte>, p: nat, w: seq<Byte>, piece: seq<Byte>, b1: seq<Byte>, out: seq<Byte>, r: seq<Byte>)
    requires |w| == |piece| || (|w| == |piece| + 1 && w[|piece|] == 0)
    requires w[..|piece|] == piece && p + |w| <= |b| && b1 == Put(b, p, w)
    requires Shape(b1, p + |piece|, out, r)
    ensures Shape(b, p, piece + out, r)
  {
    var n := p + |piece| + |out|;
    assert r[..p] == b1[..p] == b[..p] by {
      assert r[..p] == r[..p + |piece|][..p];
    }
    assert r[p..n] == piece + out by {
      assert r[p..p + |piece|] == r[..p + |piece|][p..] == b1[..p + |piece|][p..];
      assert r[p..n] == r[p..p + |piece|] + r[p + |piece|..n];
    }
    forall k | n < k < |b|
      ensures r[k] == b[k]
    {
      assert b1[k] == b[k];
    }
  }

  /** What vsprintf leaves in the buffer: the produced bytes from p on,
      then either a NUL or the byte that was there, and the rest of the
      buffer as it was. */
  lemma {:induction false} VsWriteShape(b: seq<Byte>, p: nat, fmt: seq<Byte>, args: seq<Arg>)
    requires WellFormed(fmt) && VsArgsFit(fmt, args)
    requires p + |VsOut(fmt, args)| < |b|
    ensures Shape(b, p, VsOut(fmt, args), VsWrite(b, p, fmt, args))
    decreases |fmt|
  {
    if |fmt| == 0 {
    } else if fmt[0] != PERCENT {
      var w := [fmt[0]];
      VsWriteLiteral(b, p, fmt, args);
      var b1 := Put(b, p, w);
      var r := VsWrite(b1, p + 1, fmt[1..], args);
      VsWriteShape(b1, p + 1, fmt[1..], args);
      ShapeCompose(b, p, w, w, b1, VsOut(fmt[1..], args), r);
    } else {
      VsWriteConversion(b, p, fmt, args);
      var rest := args[VsUses(fmt[1])..];
      var piece := VsPiece(fmt[1], args);
      var w := VsStore(fmt[1], args);
      var b1 := Put(b, p, w);
      var r := VsWrite(b1, p + |piece|, fmt[2..], rest);
      VsWriteShape(b1, p + |piece|, fmt[2..], rest);
      ShapeCompose(b, p, w, piece, b1, VsOut(fmt[2..], rest), r);
    }
  }

  /** strlen of a buffer: the length of the string it holds. */
  function StrLenOf(s: seq<Byte>): nat
    requires Terminated(s)
  {
    |CString(s)|
  }

  /** What %d and %x of vsprintf print, read back: the signed value for
      %d, and for %x the value taken as an unsigned 32-bit word. */
  /** The magnitude of a negative int fits an unsigned word unchanged. */
  lemma NegatedWord(v: Int32)
    requires v < 0
    ensures ToWord32(-(v as int)) == -(v as int)
  {
  }

  lemma VsHexValue(v: Int32)
    ensures ValueOf(VsPiece('x' as Byte, [IntArg(v)]), 16) == ToWord32(v)
  {
    assert VsPiece('x' as Byte, [IntArg(v)]) == Digits(ToWord32(v), 16);
    DigitsValue(ToWord32(v), 16);
  }

  lemma VsDecimalValue(v: Int32)
    ensures var d := VsPiece('d' as Byte, [IntArg(v)]);
      if v < 0 then d[0] == MINUS && ValueOf(d[1..], 10) == -(v as int) else ValueOf(d, 10) == v
  {
    var d := VsPiece('d' as Byte, [IntArg(v)]);
    if v < 0 {
      var u: nat := -(v as int);
      NegatedWord(v);
      assert d == [MINUS] + Digits(u, 10);
      assert d[1..] == Digits(u, 10);
      DigitsValue(u, 10);
    } else {
      assert d == Digits(v, 10);
      DigitsValue(v, 10);
    }
  }

  /** With a zeroed buffer, as vprintf passes one, and nothing NUL among
      the produced bytes, vsprintf answers the number of bytes produced. */
  lemma VsprintfLengthOnZeroedBuffer(b: seq<Byte>, fmt: seq<Byte>, args: seq<Arg>)
    requires WellFormed(fmt) && VsArgsFit(fmt, args)
    requires |VsOut(fmt, args)| < |b| && NoNul(VsOut(fmt, args))
    requires forall k :: 0 <= k < |b| ==> b[k] == 0
    ensures Terminated(VsWrite(b, 0, fmt, args))
    ensures StrLenOf(VsWrite(b, 0, fmt, args)) == |VsOut(fmt, args)|
  {
    VsWriteShape(b, 0, fmt, args);
    var r := VsWrite(b, 0, fmt, args);
    var n := |VsOut(fmt, args)|;
    assert r == r[..n] + r[n..];
    CStringOfPrefix(r[..n], r[n..]);
  }

  /** Stores `w` at buf[p..], one byte at a time. */
  method PutBytes(buf: array<Byte>, p: nat, w: seq<Byte>)
    requires p + |w| <= buf.Length
    modifies buf
    ensures buf[..] == Put(old(buf[..]), p, w)
  {
    var j := 0;
    PutNothing(buf[..], p);
    while j < |w|
      invariant 0 <= j <= |w| && buf[..] == Put(old(buf[..]), p, w[..j])
    {
      ghost var b1 := buf[..];
      buf[p + j] := w[j];
      assert buf[..] == b1[p + j := w[j]];
      PutNext(old(buf[..]), b1, p, w, j);
      j := j + 1;
    }
    assert w[..j] == w;
  }

  /** Storing the next byte of w extends the stored prefix by one. */
  lemma PutNext(b0: seq<Byte>, b1: seq<Byte>, p: nat, w: seq<Byte>, j: nat)
    requires j < |w| && p + |w| <= |b0| && b1 == Put(b0, p, w[..j])
    ensures b1[p + j := w[j]] == Put(b0, p, w[..j + 1])
  {
    PutOne(b1, p + j, w[j]);
    PutPut(b0, p, w[..j], [w[j]]);
    assert w[..j] + [w[j]] == w[..j + 1];
  }

  /** The head of a format and its arguments fit together for one
      conversion. */
  predicate ConvFits(conv: Byte, args: seq<Arg>)
  {
    if conv in ['d' as Byte, 'c' as Byte, 'x' as Byte] then |args| > 0 && args[0].IntArg?
    else if conv == 's' as Byte then |args| > 0 && args[0].StrArg?
    else true
  }

  /** One conversion of vsprintf's switch: stores its bytes at buf[p..] and
      answers where the write pointer is left, past the piece (on the
      terminator after a %s). */
  method VsConvert(buf: array<Byte>, p: nat, conv: Byte, args: seq<Arg>) returns (next: nat)
    requires ConvFits(conv, args) && p + |VsStore(conv, args)| <= buf.Length
    modifies buf
    ensures next == p + |VsPiece(conv, args)|
    ensures buf[..] == Put(old(buf[..]), p, VsStore(conv, args))
  {
    next := p;
    if conv == 's' as Byte {
      var str := CString(args[0].s);
      assert VsStore(conv, args) == str + [0];
      PutBytes(buf, p, str + [0]);
      next := p + |str|;
    } else if conv == 'c' as Byte {
      assert VsStore(conv, args) == [args[0].v % U8];
      PutBytes(buf, p, [args[0].v % U8]);
      next := p + 1;
    } else if conv == 'x' as Byte {
      assert VsStore(conv, args) == Digits(ToWord32(args[0].v), 16);
      next := Itoa(buf, p, ToWord32(args[0].v), 16);
    } else if conv == 'd' as Byte {
      var v := args[0].v;
      if v < 0 {
        var mag := ToWord32(-(v as int));
        assert VsStore(conv, args) == [MINUS] + Digits(mag, 10);
        next := PutNegative(buf, p, mag);
      } else {
        assert VsStore(conv, args) == Digits(v, 10);
        next := Itoa(buf, p, v, 10);
      }
    } else {
      assert VsStore(conv, args) == [];
      PutNothing(buf[..], p);
    }
  }

  /** `%d` of a negative argument: the sign, then the digits of its
      magnitude. */
  method PutNegative(buf: array<Byte>, p: nat, mag: Word32) returns (next: nat)
    requires p + 1 + |Digits(mag, 10)| <= buf.Length
    modifies buf
    ensures next == p + 1 + |Digits(mag, 10)|
    ensures buf[..] == Put(old(buf[..]), p, [MINUS] + Digits(mag, 10))
  {
    buf[p] := MINUS;
    assert buf[..] == old(buf[..])[p := MINUS];
    PutOne(old(buf[..]), p, MINUS);
    next := Itoa(buf, p + 1, mag, 10);
    PutPut(old(buf[..]), p, [MINUS], Digits(mag, 10));
  }

  /** One step of vsprintf's loop over a literal byte. */
  lemma VsWriteLiteral(b: seq<Byte>, p: nat, fmt: seq<Byte>, args: seq<Arg>)
    requires |fmt| > 0 && fmt[0] != PERCENT && WellFormed(fmt) && VsArgsFit(fmt, args)
    requires p + |VsOut(fmt, args)| < |b|
    ensures WellFormed(fmt[1..]) && VsArgsFit(fmt[1..], args)
    ensures VsOut(fmt, args) == [fmt[0]] + VsOut(fmt[1..], args)
    ensures VsWrite(b, p, fmt, args) == VsWrite(Put(b, p, [fmt[0]]), p + 1, fmt[1..], args)
  {
  }

  /** One step of vsprintf's loop over a conversion. */
  lemma VsWriteConversion(b: seq<Byte>, p: nat, fmt: seq<Byte>, args: seq<Arg>)
    requires |fmt| > 0 && fmt[0] == PERCENT && WellFormed(fmt) && VsArgsFit(fmt, args)
    requires p + |VsOut(fmt, args)| < |b|
    ensures |fmt| >= 2 && VsUses(fmt[1]) <= |args| && ConvFits(fmt[1], args)
    ensures WellFormed(fmt[2..]) && VsArgsFit(fmt[2..], args[VsUses(fmt[1])..])
    ensures VsOut(fmt, args) == VsPiece(fmt[1], args) + VsOut(fmt[2..], args[VsUses(fmt[1])..])
    ensures p + |VsStore(fmt[1], args)| <= |b|
    ensures VsWrite(b, p, fmt, args)
      == VsWrite(Put(b, p, VsStore(fmt[1], args)), p + |VsPiece(fmt[1], args)|, fmt[2..], args[VsUses(fmt[1])..])
  {
  }

  /** VsWriteLiteral at fmt[f] and args[a..]. */
  lemma VsLiteralAt(b: seq<Byte>, p: nat, fmt: seq<Byte>, args: seq<Arg>, f: nat, a: nat)
    requires f < |fmt| && a <= |args| && fmt[f] != PERCENT
    requires WellFormed(fmt[f..]) && VsArgsFit(fmt[f..], args[a..])
    requires p + |VsOut(fmt[f..], args[a..])| < |b|
    ensures WellFormed(fmt[f + 1..]) && VsArgsFit(fmt[f + 1..], args[a..])
    ensures VsOut(fmt[f..], args[a..]) == [fmt[f]] + VsOut(fmt[f + 1..], args[a..])
    ensures VsWrite(b, p, fmt[f..], args[a..]) == VsWrite(Put(b, p, [fmt[f]]), p + 1, fmt[f + 1..], args[a..])
  {
    assert fmt[f..][0] == fmt[f];
    assert fmt[f..][1..] == fmt[f + 1..];
    VsWriteLiteral(b, p, fmt[f..], args[a..]);
  }

  /** The scan of vsprintf past a conversion at fmt[f]: the format and
      the arguments that are left still fit, and the bytes produced are
      the piece and then the rest. */
  lemma VsConversionAt(fmt: seq<Byte>, args: seq<Arg>, f: nat, a: nat)
    requires f < |fmt| && a <= |args| && fmt[f] == PERCENT
    requires WellFormed(fmt[f..]) && VsArgsFit(fmt[f..], args[a..])
    ensures f + 2 <= |fmt| && a + VsUses(fmt[f + 1]) <= |args| && ConvFits(fmt[f + 1], args[a..])
    ensures WellFormed(fmt[f + 2..]) && VsArgsFit(fmt[f + 2..], args[a + VsUses(fmt[f + 1])..])
    ensures VsOut(fmt[f..], args[a..])
      == VsPiece(fmt[f + 1], args[a..]) + VsOut(fmt[f + 2..], args[a + VsUses(fmt[f + 1])..])
  {
    var s := fmt[f..];
    assert s[0] == PERCENT && s[1] == fmt[f + 1];
    assert s[2..] == fmt[f + 2..];
    assert args[a..][VsUses(fmt[f + 1])..] == args[a + VsUses(fmt[f + 1])..];
  }

  /** Writing the conversion at fmt[f] into b gives b1, and then the rest
      of the format goes on from `next`. */
  lemma VsConversionWrite(b: seq<Byte>, p: nat, fmt: seq<Byte>, args: seq<Arg>, f: nat, a: nat, b1: seq<Byte>, next: nat)
    requires f < |fmt| && a <= |args| && fmt[f] == PERCENT
    requires WellFormed(fmt[f..]) && VsArgsFit(fmt[f..], args[a..])
    requires p + |VsOut(fmt[f..], args[a..])| < |b|
    requires f + 2 <= |fmt| && a + VsUses(fmt[f + 1]) <= |args|
    requires WellFormed(fmt[f + 2..]) && VsArgsFit(fmt[f + 2..], args[a + VsUses(fmt[f + 1])..])
    requires p + |VsStore(fmt[f + 1], args[a..])| <= |b|
    requires b1 == Put(b, p, VsStore(fmt[f + 1], args[a..])) && next == p + |VsPiece(fmt[f + 1], args[a..])|
    requires next + |VsOut(fmt[f + 2..], args[a + VsUses(fmt[f + 1])..])| < |b1|
    ensures VsWrite(b, p, fmt[f..], args[a..]) == VsWrite(b1, next, fmt[f + 2..], args[a + VsUses(fmt[f + 1])..])
  {
    var s := fmt[f..];
    assert s[0] == PERCENT && s[1] == fmt[f + 1];
    assert s[2..] == fmt[f + 2..];
    assert args[a..][VsUses(fmt[f + 1])..] == args[a + VsUses(fmt[f + 1])..];
    VsWriteConversion(b, p, fmt[f..], args[a..]);
  }

  /** The buffer after vsprintf holds a string when the bytes past the
      produced text held one. */
  lemma VsWriteTerminated(b: seq<Byte>, fmt: seq<Byte>, args: seq<Arg>)
    requires WellFormed(fmt) && VsArgsFit(fmt, args)
    requires |VsOut(fmt, args)| < |b| && Terminated(b[|VsOut(fmt, args)|..])
    ensures Terminated(VsWrite(b, 0, fmt, args))
  {
    VsWriteShape(b, 0, fmt, args);
    ShapeTerminated(b, 0, VsOut(fmt, args), VsWrite(b, 0, fmt, args));
  }

  /** A write of that shape keeps a NUL that followed the written text. */
  lemma ShapeTerminated(b: seq<Byte>, p: nat, out: seq<Byte>, r: seq<Byte>)
    requires Shape(b, p, out, r) && Terminated(b[p + |out|..])
    ensures Terminated(r)
  {
    var n := p + |out|;
    var k :| 0 <= k < |b[n..]| && b[n..][k] == 0;
    if k == 0 {
      assert r[n] == 0;
    } else {
      assert r[n + k] == 0;
    }
  }

  /** One turn of vsprintf's loop at fmt[f] with the arguments from a
      on: a literal byte or one conversion is stored, and what is left to
      write is the rest of the format. */
  method VsStep(buf: array<Byte>, fmt: seq<Byte>, args: seq<Arg>, f: nat, a: nat, p: nat)
      returns (f': nat, a': nat, p': nat)
    requires f < |fmt| && a <= |args|
    requires WellFormed(fmt[f..]) && VsArgsFit(fmt[f..], args[a..])
    requires p + |VsOut(fmt[f..], args[a..])| < buf.Length
    modifies buf
    ensures f < f' <= |fmt| && a <= a' <= |args|
    ensures WellFormed(fmt[f'..]) && VsArgsFit(fmt[f'..], args[a'..])
    ensures p' + |VsOut(fmt[f'..], args[a'..])| == p + |VsOut(fmt[f..], args[a..])|
    ensures VsWrite(old(buf[..]), p, fmt[f..], args[a..]) == VsWrite(buf[..], p', fmt[f'..], args[a'..])
  {
    if fmt[f] != PERCENT {
      f', a', p' := VsLiteralStep(buf, fmt, args, f, a, p);
    } else {
      f', a', p' := VsConversionStep(buf, fmt, args, f, a, p);
    }
  }

  /** The turn for a literal byte: it is copied. */
  method VsLiteralStep(buf: array<Byte>, fmt: seq<Byte>, args: seq<Arg>, f: nat, a: nat, p: nat)
      returns (f': nat, a': nat, p': nat)
    requires f < |fmt| && a <= |args| && fmt[f] != PERCENT
    requires WellFormed(fmt[f..]) && VsArgsFit(fmt[f..], args[a..])
    requires p + |VsOut(fmt[f..], args[a..])| < buf.Length
    modifies buf
    ensures f < f' <= |fmt| && a <= a' <= |args|
    ensures WellFormed(fmt[f'..]) && VsArgsFit(fmt[f'..], args[a'..])
    ensures p' + |VsOut(fmt[f'..], args[a'..])| == p + |VsOut(fmt[f..], args[a..])|
    ensures VsWrite(old(buf[..]), p, fmt[f..], args[a..]) == VsWrite(buf[..], p', fmt[f'..], args[a'..])
  {
    VsLiteralAt(old(buf[..]), p, fmt, args, f, a);
    buf[p] := fmt[f];
    assert buf[..] == old(buf[..])[p := fmt[f]];
    PutOne(old(buf[..]), p, fmt[f]);
    f', a', p' := f + 1, a, p + 1;
  }

  /** The turn for a conversion: the switch stores its bytes. */
  method VsConversionStep(buf: array<Byte>, fmt: seq<Byte>, args: seq<Arg>, f: nat, a: nat, p: nat)
      returns (f': nat, a': nat, p': nat)
    requires f < |fmt| && a <= |args| && fmt[f] == PERCENT
    requires WellFormed(fmt[f..]) && VsArgsFit(fmt[f..], args[a..])
    requires p + |VsOut(fmt[f..], args[a..])| < buf.Length
    modifies buf
    ensures f < f' <= |fmt| && a <= a' <= |args|
    ensures WellFormed(fmt[f'..]) && VsArgsFit(fmt[f'..], args[a'..])
    ensures p' + |VsOut(fmt[f'..], args[a'..])| == p + |VsOut(fmt[f..], args[a..])|
    ensures VsWrite(old(buf[..]), p, fmt[f..], args[a..]) == VsWrite(buf[..], p', fmt[f'..], args[a'..])
  {
    ghost var b0 := buf[..];
    var conv := fmt[f + 1];
    var rest := args[a..];
    VsConversionAt(fmt, args, f, a);
    p' := VsConvert(buf, p, conv, rest);
    f', a' := f + 2, a + VsUses(conv);
    VsConversionWrite(b0, p, fmt, args, f, a, buf[..], p');
  }

  /** vsprintf: runs through the format, writing into buf from index 0,
      and answers strlen(buf). `sprintf` is this with the arguments of
      its own call. */
  method Vsprintf(buf: array<Byte>, fmt: seq<Byte>, args: seq<Arg>) returns (r: nat)
    requires WellFormed(fmt) && VsArgsFit(fmt, args)
    requires |VsOut(fmt, args)| < buf.Length
    requires Terminated(buf[|VsOut(fmt, args)|..])
    modifies buf
    ensures buf[..] == VsWrite(old(buf[..]), 0, fmt, args)
    ensures Terminated(buf[..]) && r == StrLenOf(buf[..])
  {
    ghost var start := buf[..];
    assert Terminated(start[|VsOut(fmt, args)|..]);
    var f: nat := 0;
    var a: nat := 0;
    var p: nat := 0;
    assert fmt[f..] == fmt && args[a..] == args;
    while f < |fmt|
      invariant f <= |fmt| && a <= |args|
      invariant WellFormed(fmt[f..]) && VsArgsFit(fmt[f..], args[a..])
      invariant p + |VsOut(fmt[f..], args[a..])| == |VsOut(fmt, args)|
      invariant VsWrite(start, 0, fmt, args) == VsWrite(buf[..], p, fmt[f..], args[a..])
      decreases |fmt| - f
    {
      f, a, p := VsStep(buf, fmt, args, f, a, p);
    }
    assert fmt[f..] == [];
    assert buf[..] == VsWrite(start, 0, fmt, args);
    VsWriteTerminated(start, fmt, args);
    r := Strlen(buf);
  }

  // ----- strcat and strrchr -----

  /** One more byte written right after `u`. */
  lemma PutExtend(b: seq<Byte>, p: nat, u: seq<Byte>, x: Byte, d1: seq<Byte>)
    requires p + |u| < |b| && d1 == Put(b, p, u)
    ensures d1[p + |u| := x] == Put(b, p, u + [x])
  {
    PutOne(d1, p + |u|, x);
    PutPut(b, p, u, [x]);
  }

  /** The copying loop of strcat: src's string and its terminator go to
      dest[at..]. */
  method CopyString(dest: array<Byte>, at: nat, src: array<Byte>)
    requires dest != src && Terminated(src[..]) && at + |CString(src[..])| < dest.Length
    modifies dest
    ensures dest[..] == Put(old(dest[..]), at, CString(src[..]) + [0])
  {
    ghost var s := CString(src[..]);
    var j := 0;
    PutNothing(dest[..], at);
    while src[j] != 0
      invariant 0 <= j <= |s| && dest[..] == Put(old(dest[..]), at, s[..j])
      decreases |s| - j
    {
      if j == |s| {
        assert false;
      }
      ghost var d1 := dest[..];
      dest[at + j] := src[j];
      PutExtend(old(dest[..]), at, s[..j], s[j], d1);
      assert s[..j] + [s[j]] == s[..j + 1];
      j := j + 1;
    }
    assert s[..j] == s;
    ghost var d1 := dest[..];
    dest[at + j] := 0;
    PutExtend(old(dest[..]), at, s, 0, d1);
  }

  /** Writing `w` at the end of the prefix `d` of `b` gives `d + w`
      followed by the rest of `b`. */
  lemma PutAfterPrefix(b: seq<Byte>, d: seq<Byte>, w: seq<Byte>, r: seq<Byte>)
    requires |d| + |w| <= |b| && b[..|d|] == d && r == Put(b, |d|, w)
    ensures r == (d + w) + b[|d| + |w|..]
  {
  }

  /** Two strings without NUL joined have none either. */
  lemma NoNulConcat(d: seq<Byte>, s: seq<Byte>)
    requires NoNul(d) && NoNul(s)
    ensures NoNul(d + s)
  {
    forall k | 0 <= k < |d + s|
      ensures (d + s)[k] != 0
    {
      if k >= |d| {
        assert (d + s)[k] == s[k - |d|];
      }
    }
  }

  /** What strcat leaves: the old string, the source string, a NUL, and the
      rest of the buffer as it was. */
  lemma StrcatShape(b: seq<Byte>, d: seq<Byte>, s: seq<Byte>)
    requires Terminated(b) && d == CString(b) && |d| + |s| < |b| && NoNul(s)
    ensures var r := Put(b, |d|, s + [0]);
      && r == (d + s + [0]) + b[|d| + |s| + 1..]
      && CString(r) == d + s
  {
    StrcatBytes(b, d, s);
    NoNulConcat(d, s);
    CStringBeforeNul(d + s, b[|d| + |s| + 1..]);
  }

  /** The bytes strcat leaves after a prefix d of the buffer. */
  lemma StrcatBytes(b: seq<Byte>, d: seq<Byte>, s: seq<Byte>)
    requires |d| + |s| < |b| && b[..|d|] == d
    ensures Put(b, |d|, s + [0]) == (d + s + [0]) + b[|d| + |s| + 1..]
  {
    PutAfterPrefix(b, d, s + [0], Put(b, |d|, s + [0]));
    assert d + (s + [0]) == d + s + [0];
  }

  /** A NUL-free text, a NUL and anything after it read back as the text. */
  lemma CStringBeforeNul(c: seq<Byte>, tail: seq<Byte>)
    requires NoNul(c)
    ensures CString((c + [0]) + tail) == c
  {
    assert (c + [0]) + tail == c + ([0] + tail);
    CStringOfPrefix(c, [0] + tail);
  }

  /** strcat: the source text goes right after the destination's text,
      followed by a NUL; dest comes back. */
  method Strcat(dest: array<Byte>, src: array<Byte>) returns (r: array<Byte>)
    requires dest != src && Terminated(dest[..]) && Terminated(src[..])
    requires |CString(dest[..])| + |CString(src[..])| < dest.Length
    modifies dest
    ensures r == dest
    ensures var n := |old(CString(dest[..]))| + |CString(src[..])|;
      dest[..n + 1] == old(CString(dest[..])) + CString(src[..]) + [0]
      && dest[n + 1..] == old(dest[n + 1..])
    ensures CString(dest[..]) == old(CString(dest[..])) + CString(src[..])
  {
    var i := Strlen(dest);
    CopyString(dest, i, src);
    StrcatShape(old(dest[..]), old(CString(dest[..])), CString(src[..]));
    return dest;
  }

  /** strrchr: the last occurrence of c before the terminator, or none;
      the terminator itself is never found. */
  method Strrchr(s: array<Byte>, c: int) returns (r: Option<nat>)
    requires Terminated(s[..])
    ensures r.Some? ==> r.value < |CString(s[..])| && Signed(s[r.value]) == c
    ensures r.Some? ==> forall k :: r.value < k < |CString(s[..])| ==> Signed(s[k]) != c
    ensures r.None? ==> forall k :: 0 <= k < |CString(s[..])| ==> Signed(s[k]) != c
  {
    ghost var t := CString(s[..]);
    r := None;
    var i := 0;
    while s[i] != 0
      invariant 0 <= i <= |t|
      invariant r.Some? ==> r.value < i && Signed(s[r.value]) == c
      invariant r.Some? ==> forall k :: r.value < k < i ==> Signed(s[k]) != c
      invariant r.None? ==> forall k :: 0 <= k < i ==> Signed(s[k]) != c
      decreases |t| - i
    {
      if i == |t| {
        assert false;
      }
      if Signed(s[i]) == c {
        r := Some(i);
      }
      i := i + 1;
    }
  }

  /** Looking for the terminator with strrchr finds nothing. */
  lemma StrrchrNeverFindsNul(s: seq<Byte>, k: nat)
    requires Terminated(s) && k < |CString(s)|
    ensures Signed(s[k]) != 0
  {
  }
}
