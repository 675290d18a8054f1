/** The user-space shell: readline fills the command buffer one read(0)
    at a time, cmd_parse splits it in place into argv, and
    try_to_run_external starts a program by name, retrying with ".bin"
    appended. Keyboard input is a sequence of read results (None for a
    read that fails); create_process and waitpid are inputs. */
module Shell {
  import opened Machine
  import opened KernelMain

  const SHELL_CMD_LEN: nat := 100
  const MAX_ARG_NR: nat := 30

  // ---------------------------------------------------------------------
  // readline

  /** Why a readline call returned. */
  datatype Stop = NewLine | ReadFailed | LineFull | OutOfInput

  /** The buffer and cursor after readline, the reads it consumed, and why
      it stopped. */
  datatype LineRead = LineRead(buf: seq<Byte>, pos: nat, used: nat, stop: Stop)

  /** The loop of readline as written: the byte is read into buf[pos]
      first and only then is pos compared with cnt, so a full line makes
      one more read into buf[cnt]. The buffer needs cnt + 1 bytes. */
  function ReadlineAsWritten(b: seq<Byte>, p: nat, input: seq<Option<Byte>>, cnt: nat): (r: LineRead)
    requires p <= cnt < |b|
    ensures |r.buf| == |b|
    decreases |input|
  {
    if |input| == 0 then LineRead(b, p, 0, OutOfInput)
    else match input[0]
      case None => LineRead(b, p, 1, ReadFailed)
      case Some(c) =>
        var b1 := b[p := c];
        if p >= cnt then LineRead(b1, p, 1, LineFull)
        else if c == LF || c == CR then LineRead(b[p := 0], p, 1, NewLine)
        else
          var p1 := if c != BS then p + 1 else if b1[0] != BS then p - 1 else p;
          var r := ReadlineAsWritten(b1, p1, input[1..], cnt);
          LineRead(r.buf, r.pos, r.used + 1, r.stop)
  }

  /** A line of cnt ordinary characters followed by one more byte: the
      loop as written stores that byte at buf[cnt], one past a buffer of
      cnt bytes, before it notices that the line is full. */
  lemma {:induction false} AsWrittenOverruns(b: seq<Byte>, p: nat, input: seq<Option<Byte>>, cnt: nat, x: Byte)
    requires p <= cnt < |b| && |input| == cnt - p + 1
    requires forall i :: 0 <= i < cnt - p ==> input[i].Some? && Printable(input[i].value)
    requires input[cnt - p] == Some(x)
    ensures ReadlineAsWritten(b, p, input, cnt).buf[cnt] == x
    ensures ReadlineAsWritten(b, p, input, cnt).stop == LineFull
    decreases cnt - p
  {
    if p < cnt {
      var c := input[0].value;
      assert Printable(input[0].value);
      var rest := input[1..];
      assert forall i :: 0 <= i < cnt - (p + 1) ==> rest[i] == input[i + 1];
      AsWrittenOverruns(b[p := c], p + 1, rest, cnt, x);
    }
  }

  /** The loop of readline with its two tests in the intended order:
      pos is compared with cnt before the next read, so no byte is
      stored at or past buf[cnt]. CR or LF is replaced by NUL and ends
      the line; backspace steps back unless the cursor is at the start
      (the test of buf[0] against '\b'); any other byte is kept. */
  function ReadlineFrom(b: seq<Byte>, p: nat, input: seq<Option<Byte>>, cnt: nat): (r: LineRead)
    requires p <= cnt <= |b|
    decreases |input|
  {
    if p >= cnt then LineRead(b, p, 0, LineFull)
    else if |input| == 0 then LineRead(b, p, 0, OutOfInput)
    else match input[0]
      case None => LineRead(b, p, 1, ReadFailed)
      case Some(c) =>
        var b1 := b[p := c];
        if c == LF || c == CR then LineRead(b[p := 0], p, 1, NewLine)
        else
          var p1 := if c != BS then p + 1 else if b1[0] != BS then p - 1 else p;
          var r := ReadlineFrom(b1, p1, input[1..], cnt);
          LineRead(r.buf, r.pos, r.used + 1, r.stop)
  }

  /** The line the reads spell out from `line`: backspace removes the last
      character, if there is one, and any other byte is appended; the read
      that ends the line (CR, LF or a failure) adds nothing. */
  function Typed(line: seq<Byte>, keys: seq<Option<Byte>>): seq<Byte>
    decreases |keys|
  {
    if |keys| == 0 then line
    else
      var next :=
        match keys[0]
        case None => line
        case Some(c) =>
          if c == LF || c == CR then line
          else if c == BS then (if |line| == 0 then line else line[..|line| - 1])
          else line + [c];
      Typed(next, keys[1..])
  }

  /** While the cursor is past the start, buf[0] holds a character that
      was kept, never a backspace; so the test of buf[0] is a test of the
      cursor. */
  predicate CursorInvariant(b: seq<Byte>, p: nat, cnt: nat)
  {
    p <= cnt <= |b| && (p > 0 ==> b[0] != BS)
  }

  /** What readline leaves: the cursor stays within cnt, nothing at or
      past buf[cnt] changes, the characters before the cursor are the
      typed line, and a line ended by CR or LF is NUL-terminated there. */
  lemma {:induction false} ReadlineSpells(b: seq<Byte>, p: nat, input: seq<Option<Byte>>, cnt: nat)
    requires CursorInvariant(b, p, cnt)
    ensures var r := ReadlineFrom(b, p, input, cnt);
      && |r.buf| == |b| && r.pos <= cnt && r.used <= |input|
      && r.buf[cnt..] == b[cnt..]
      && r.buf[..r.pos] == Typed(b[..p], input[..r.used])
      && (r.stop == NewLine ==> r.pos < cnt && r.buf[r.pos] == 0)
      && (r.stop == LineFull ==> r.pos == cnt)
    decreases |input|
  {
    var r := ReadlineFrom(b, p, input, cnt);
    if p >= cnt {
      assert input[..0] == [];
    } else if |input| == 0 {
      assert input[..0] == [];
    } else {
      match input[0]
      case None =>
        assert r.buf[..r.pos] == Typed(b[..p], input[..1]) by {
          assert input[..1][1..] == [];
        }
      case Some(c) =>
        var b1 := b[p := c];
        if c == LF || c == CR {
          assert input[..1][1..] == [];
          assert b[p := 0][..p] == b[..p];
        } else {
          var p1 := if c != BS then p + 1 else if b1[0] != BS then p - 1 else p;
          ReadlineSpells(b1, p1, input[1..], cnt);
          var r1 := ReadlineFrom(b1, p1, input[1..], cnt);
          assert input[..r.used][0] == Some(c);
          assert input[..r.used][1..] == input[1..][..r1.used];
          var next := if c == BS then (if p == 0 then b[..p] else b[..p][..p - 1]) else b[..p] + [c];
          assert b1[..p1] == next;
        }
    }
  }

  /** readline(buf, cnt) with the bound tested before each read. */
  method Readline(buf: array<Byte>, cnt: nat, input: seq<Option<Byte>>) returns (pos: nat, used: nat, stop: Stop)
    requires cnt <= buf.Length
    modifies buf
    ensures var r := ReadlineFrom(old(buf[..]), 0, input, cnt);
      buf[..] == r.buf && pos == r.pos && used == r.used && stop == r.stop
  {
    pos := 0;
    used := 0;
    while true
      invariant pos <= cnt && used <= |input|
      invariant CursorInvariant(buf[..], pos, cnt)
      invariant Plus(ReadlineFrom(buf[..], pos, input[used..], cnt), used) == ReadlineFrom(old(buf[..]), 0, input, cnt)
      decreases |input| - used
    {
      if pos >= cnt {
        stop := LineFull;
        return;
      }
      if used == |input| {
        stop := OutOfInput;
        return;
      }
      var key := input[used];
      assert input[used..][1..] == input[used + 1..];
      used := used + 1;
      if key.None? {
        stop := ReadFailed;
        return;
      }
      var c := key.value;
      buf[pos] := c;
      if c == LF || c == CR {
        buf[pos] := 0;
        stop := NewLine;
        return;
      }
      if c != BS {
        pos := pos + 1;
      } else if buf[0] != BS {
        pos := pos - 1;
      }
    }
  }

  /** A readline result with n earlier reads added to its count. */
  function Plus(r: LineRead, n: nat): LineRead
  {
    LineRead(r.buf, r.pos, r.used + n, r.stop)
  }

  // ---------------------------------------------------------------------
  // cmd_parse

  /** cmd_parse's result: the buffer, the argument starts stored in argv,
      and whether it gave up with -1. */
  datatype ShellParsed = ShellParsed(buf: seq<Byte>, args: seq<nat>, tooMany: bool)

  /** The first index from t holding NUL or c. */
  function Until(s: seq<Byte>, t: nat, c: Byte): (r: nat)
    requires t <= |s| && NulFrom(s, t)
    ensures t <= r < |s| && (s[r] == 0 || s[r] == c) && NulFrom(s, r)
    ensures forall k :: t <= k < r ==> s[k] != 0 && s[k] != c
    decreases |s| - t
  {
    if s[t] == 0 || s[t] == c then t else Until(s, t + 1, c)
  }

  /** The next token from t, as (start, end): a token that starts with a
      quote runs from after it to the next quote or NUL; otherwise the
      delimiters are skipped and the token runs to the next delimiter or
      NUL. None when the string ends first. Only the byte at t is tested
      for a quote, so a quote after delimiters is part of its token. */
  function NextToken(s: seq<Byte>, t: nat, d: Byte): (r: Option<(nat, nat)>)
    requires t < |s| && NulFrom(s, t)
    ensures r.Some? ==> t <= r.value.0 <= r.value.1 < |s| && t < r.value.1 + (if s[r.value.1] == 0 then 0 else 1)
    ensures r.Some? ==> NulFrom(s, r.value.1)
  {
    if s[t] == 0 then None
    else if s[t] != QUOTE then
      var u := Skip(s, t, d);
      if s[u] == 0 then None else Some((u, Until(s, u, d)))
    else
      assert NulFrom(s, t + 1) by {
        var k :| t <= k < |s| && s[k] == 0;
      }
      Some((t + 1, Until(s, t + 1, QUOTE)))
  }

  /** After a token that ends at e: a non-NUL end byte becomes NUL and the
      scan resumes past it; at a NUL the scan resumes there. */
  function CutAt(s: seq<Byte>, e: nat): (seq<Byte>, nat)
    requires e < |s|
  {
    if s[e] != 0 then (s[e := 0], e + 1) else (s, e)
  }

  lemma CutKeepsNul(s: seq<Byte>, t: nat, e: nat)
    requires t <= e < |s| && NulFrom(s, e)
    ensures CutAt(s, e).1 < |s| && NulFrom(CutAt(s, e).0, CutAt(s, e).1)
  {
    var k :| e <= k < |s| && s[k] == 0;
    if s[e] != 0 {
      assert s[e := 0][k] == 0;
    }
  }

  /** cmd_parse as written: argv[argc] is stored before argc is compared
      with MAX_ARG_NR, and the comparison is argc > MAX_ARG_NR, so the
      31st and 32nd tokens land in argv[30] and argv[31]. */
  function CmdParseAsWritten(s: seq<Byte>, t: nat, args: seq<nat>, d: Byte): (r: ShellParsed)
    requires t < |s| && NulFrom(s, t)
    decreases |s| - t
  {
    match NextToken(s, t, d)
    case None => ShellParsed(s, args, false)
    case Some((start, e)) =>
      CutKeepsNul(s, t, e);
      var (s1, t1) := CutAt(s, e);
      if |args| > MAX_ARG_NR then ShellParsed(s1, args + [start], true)
      else CmdParseAsWritten(s1, t1, args + [start], d)
  }

  /** cmd_parse as written never stores fewer starts than it had. */
  lemma {:induction false} AsWrittenKeeps(s: seq<Byte>, t: nat, args: seq<nat>, d: Byte)
    requires t < |s| && NulFrom(s, t)
    ensures |CmdParseAsWritten(s, t, args, d).args| >= |args|
    decreases |s| - t
  {
    match NextToken(s, t, d)
    case None =>
    case Some((start, e)) =>
      CutKeepsNul(s, t, e);
      var (s1, t1) := CutAt(s, e);
      if |args| <= MAX_ARG_NR {
        AsWrittenKeeps(s1, t1, args + [start], d);
      }
  }

  /** With all MAX_ARG_NR slots filled and one more token ahead, the code
      as written stores that token's start at argv[MAX_ARG_NR], past the
      end of argv. */
  lemma AsWrittenStoresPastArgv(s: seq<Byte>, t: nat, args: seq<nat>, d: Byte)
    requires t < |s| && NulFrom(s, t) && |args| == MAX_ARG_NR && NextToken(s, t, d).Some?
    ensures |CmdParseAsWritten(s, t, args, d).args| > MAX_ARG_NR
  {
    var (start, e) := NextToken(s, t, d).value;
    CutKeepsNul(s, t, e);
    var (s1, t1) := CutAt(s, e);
    AsWrittenKeeps(s1, t1, args + [start], d);
  }

  /** cmd_parse with the bound tested where it is intended: a token found
      when MAX_ARG_NR are already held makes the result -1, and is not
      stored. */
  function CmdParseFrom(s: seq<Byte>, t: nat, args: seq<nat>, d: Byte): (r: ShellParsed)
    requires t < |s| && NulFrom(s, t)
    decreases |s| - t
  {
    match NextToken(s, t, d)
    case None => ShellParsed(s, args, false)
    case Some((start, e)) =>
      if |args| >= MAX_ARG_NR then ShellParsed(s, args, true)
      else
        CutKeepsNul(s, t, e);
        var (s1, t1) := CutAt(s, e);
        CmdParseFrom(s1, t1, args + [start], d)
  }

  /** The intended cmd_parse stores at most MAX_ARG_NR starts, keeps those
      it had, cuts only delimiters and quotes, and gives up only with argv
      full. */
  lemma {:induction false} CmdParseBounded(s: seq<Byte>, t: nat, args: seq<nat>, d: Byte)
    requires t < |s| && NulFrom(s, t) && |args| <= MAX_ARG_NR
    ensures var r := CmdParseFrom(s, t, args, d);
      && |args| <= |r.args| <= MAX_ARG_NR && r.args[..|args|] == args
      && OnlyCuts(s, r.buf, d)
      && (r.tooMany ==> |r.args| == MAX_ARG_NR)
    decreases |s| - t
  {
    match NextToken(s, t, d)
    case None =>
    case Some((start, e)) =>
      if |args| < MAX_ARG_NR {
        CutKeepsNul(s, t, e);
        var (s1, t1) := CutAt(s, e);
        assert OnlyCuts(s, s1, d);
        CmdParseBounded(s1, t1, args + [start], d);
        var r := CmdParseFrom(s1, t1, args + [start], d);
        assert r.args[..|args|] == (args + [start])[..|args|];
        CutsCompose(s, s1, r.buf, d);
      }
  }

  /** On a line the code as written handles without overrunning argv, the
      intended version gives the same buffer, arguments and count. */
  lemma {:induction false} CorrectedAgrees(s: seq<Byte>, t: nat, args: seq<nat>, d: Byte)
    requires t < |s| && NulFrom(s, t)
    requires var w := CmdParseAsWritten(s, t, args, d); !w.tooMany && |w.args| <= MAX_ARG_NR
    ensures CmdParseFrom(s, t, args, d) == CmdParseAsWritten(s, t, args, d)
    decreases |s| - t
  {
    match NextToken(s, t, d)
    case None =>
    case Some((start, e)) =>
      CutKeepsNul(s, t, e);
      var (s1, t1) := CutAt(s, e);
      AsWrittenKeeps(s1, t1, args + [start], d);
      CorrectedAgrees(s1, t1, args + [start], d);
  }

  // ---------------------------------------------------------------------
  // The arguments cmd_parse finds, as text

  /** The length of the longest front of w holding no c. */
  function Upto(w: seq<Byte>, c: Byte): (k: nat)
    ensures k <= |w| && (k < |w| ==> w[k] == c)
    ensures forall j :: 0 <= j < k ==> w[j] != c
    decreases |w|
  {
    if w == [] || w[0] == c then 0 else 1 + Upto(w[1..], c)
  }

  /** The arguments of a command line as cmd_parse reads them: a quote at
      the front opens an argument that runs up to the next quote; otherwise
      the delimiters in front are dropped and the argument runs up to the
      next delimiter; the last one may run to the end of the line. Only
      the front byte is tested for a quote, so a quote after delimiters
      starts an ordinary argument. */
  function ShellTokens(w: seq<Byte>, d: Byte): seq<seq<Byte>>
    decreases |w|, 1
  {
    if w == [] then []
    else if w[0] == QUOTE then ShellSplit(w[1..], QUOTE, d)
    else
      var v := DropDelims(w, d);
      if v == [] then [] else ShellSplit(v, d, d)
  }

  /** The argument that starts body and runs up to its first c, and the
      arguments after that c. */
  function ShellSplit(body: seq<Byte>, c: Byte, d: Byte): (r: seq<seq<Byte>>)
    ensures r != []
    decreases |body|, 0
  {
    var k := Upto(body, c);
    if k < |body| then [body[..k]] + ShellTokens(body[k + 1..], d) else [body]
  }

  /** What cmd_parse from t does, against the arguments ts of the text
      from t: the bytes before t are kept, it stores as many of ts as argv
      has room for, gives up exactly when more are left, and each stored
      start reads back as its argument. */
  predicate ShellReadsAs(s: seq<Byte>, t: nat, args: seq<nat>, r: ShellParsed, ts: seq<seq<Byte>>)
    requires t <= |s|
  {
    && |r.buf| == |s| && r.buf[..t] == s[..t]
    && |args| <= |r.args| == |args| + Min(|ts|, MAX_ARG_NR - |args|)
    && (r.tooMany <==> |ts| > MAX_ARG_NR - |args|)
    && forall k :: |args| <= k < |r.args| ==> r.args[k] <= |r.buf| && CString(r.buf[r.args[k]..]) == ts[k - |args|]
  }

  /** The scan for c from t stops where the span of the text from t ends. */
  lemma {:induction false} UntilSpan(s: seq<Byte>, t: nat, c: Byte)
    requires t <= |s| && NulFrom(s, t)
    ensures Until(s, t, c) == t + Upto(CString(s[t..]), c)
    decreases |s| - t
  {
    if s[t] == 0 {
      assert CString(s[t..]) == [];
    } else {
      CStringStep(s, t);
      if s[t] != c {
        assert NulFrom(s, t + 1) by {
          var k :| t <= k < |s| && s[k] == 0;
          assert k != t;
        }
        UntilSpan(s, t + 1, c);
        var w := CString(s[t..]);
        assert w[1..] == CString(s[t + 1..]);
      }
    }
  }

  /** Where the scan resumes after a token that ends at e. */
  function After(s: seq<Byte>, e: nat): nat
    requires e < |s|
  {
    if s[e] != 0 then e + 1 else e
  }

  /** The text from start split where the scan for c from start stops. */
  lemma SplitShellText(s: seq<Byte>, start: nat, c: Byte, d: Byte, e: nat)
    requires start < |s| && NulFrom(s, start) && e == Until(s, start, c)
    ensures e - start <= |CString(s[start..])| && CString(s[start..])[..e - start] == s[start..e]
    ensures ShellSplit(CString(s[start..]), c, d) == [s[start..e]] + ShellTokens(CString(s[After(s, e)..]), d)
  {
    UntilSpan(s, start, c);
    if e - start < |CString(s[start..])| {
      SplitCutText(s, start, c, d, e);
    } else {
      SplitRunText(s, start, c, d, e);
    }
  }

  /** A token closed by c at e. */
  lemma SplitCutText(s: seq<Byte>, start: nat, c: Byte, d: Byte, e: nat)
    requires start < |s| && NulFrom(s, start) && e == Until(s, start, c) && e - start < |CString(s[start..])|
    ensures e - start <= |CString(s[start..])| && CString(s[start..])[..e - start] == s[start..e]
    ensures ShellSplit(CString(s[start..]), c, d) == [s[start..e]] + ShellTokens(CString(s[After(s, e)..]), d)
  {
    UntilSpan(s, start, c);
    CStringAround(s, start, e);
    ShellSplitAt(CString(s[start..]), c, d, e - start, s[start..e], CString(s[After(s, e)..]));
  }

  /** A token that runs to the end of the text. */
  lemma SplitRunText(s: seq<Byte>, start: nat, c: Byte, d: Byte, e: nat)
    requires start < |s| && NulFrom(s, start) && e == Until(s, start, c) && e - start >= |CString(s[start..])|
    ensures e - start <= |CString(s[start..])| && CString(s[start..])[..e - start] == s[start..e]
    ensures ShellSplit(CString(s[start..]), c, d) == [s[start..e]] + ShellTokens(CString(s[After(s, e)..]), d)
  {
    UntilSpan(s, start, c);
    CStringPrefix(s, start, e);
    var w := CString(s[start..]);
    LenFromEnds(s, start);
    assert CString(s[After(s, e)..]) == [];
    assert w == s[start..e] by {
      assert w == w[..e - start];
    }
  }

  /** A byte inside the C string at t is the buffer's byte, and not NUL. */
  lemma CStringAt(s: seq<Byte>, t: nat, e: nat)
    requires t <= e <= |s| && e - t < |CString(s[t..])|
    ensures e < |s| && s[e] == CString(s[t..])[e - t] != 0
  {
    assert CString(s[t..])[e - t] == s[t..][e - t];
  }

  /** The C string at t past its byte e is the C string at e + 1. */
  lemma CStringPast(s: seq<Byte>, t: nat, e: nat)
    requires t <= e <= |s| && e - t < |CString(s[t..])|
    ensures CString(s[t..])[e - t + 1..] == CString(s[e + 1..])
  {
    CStringFrom(s, t, e - t + 1);
    assert t + (e - t + 1) == e + 1;
  }

  /** The C string at t around its byte e: the bytes before e, e itself
      (not NUL), and the C string after e. */
  lemma CStringAround(s: seq<Byte>, t: nat, e: nat)
    requires t <= e <= |s| && e - t < |CString(s[t..])|
    ensures e < |s| && After(s, e) == e + 1
    ensures CString(s[t..])[..e - t] == s[t..e]
    ensures CString(s[t..])[e - t + 1..] == CString(s[After(s, e)..])
  {
    CStringPrefix(s, t, e);
    CStringAt(s, t, e);
    CStringPast(s, t, e);
  }

  /** The text split at its first c, at k. */
  lemma ShellSplitAt(body: seq<Byte>, c: Byte, d: Byte, k: nat, tok: seq<Byte>, rest: seq<Byte>)
    requires k == Upto(body, c) < |body| && body[..k] == tok && body[k + 1..] == rest
    ensures ShellSplit(body, c, d) == [tok] + ShellTokens(rest, d)
  {
  }

  /** The arguments of the text from t are the next token's bytes and the
      arguments from where the scan resumes. */
  lemma ShellText(s: seq<Byte>, t: nat, d: Byte, start: nat, e: nat)
    requires t < |s| && NulFrom(s, t) && NextToken(s, t, d) == Some((start, e))
    ensures e - start <= |CString(s[start..])| && CString(s[start..])[..e - start] == s[start..e]
    ensures ShellTokens(CString(s[t..]), d) == [s[start..e]] + ShellTokens(CString(s[After(s, e)..]), d)
  {
    if s[t] == QUOTE {
      QuoteText(s, t, d, start, e);
    } else {
      PlainText(s, t, d, start, e);
    }
  }

  /** A text that opens with a quote. */
  lemma QuoteText(s: seq<Byte>, t: nat, d: Byte, start: nat, e: nat)
    requires t < |s| && NulFrom(s, t) && s[t] == QUOTE && NextToken(s, t, d) == Some((start, e))
    ensures e - start <= |CString(s[start..])| && CString(s[start..])[..e - start] == s[start..e]
    ensures ShellTokens(CString(s[t..]), d) == [s[start..e]] + ShellTokens(CString(s[After(s, e)..]), d)
  {
    NextQuote(s, t, d);
    QuoteTokens(s, t, d);
    SplitShellText(s, t + 1, QUOTE, d, e);
  }

  /** NextToken at a quote. */
  lemma NextQuote(s: seq<Byte>, t: nat, d: Byte)
    requires t < |s| && NulFrom(s, t) && s[t] == QUOTE
    ensures t + 1 < |s| && NulFrom(s, t + 1) && NextToken(s, t, d) == Some((t + 1, Until(s, t + 1, QUOTE)))
  {
    assert NulFrom(s, t + 1) by {
      var k :| t <= k < |s| && s[k] == 0;
    }
  }

  /** The arguments of a text that opens with a quote. */
  lemma QuoteTokens(s: seq<Byte>, t: nat, d: Byte)
    requires t < |s| && s[t] == QUOTE
    ensures ShellTokens(CString(s[t..]), d) == ShellSplit(CString(s[t + 1..]), QUOTE, d)
  {
    CStringStep(s, t);
    assert CString(s[t..])[1..] == CString(s[t + 1..]);
  }

  /** A text that opens with anything but a quote. */
  lemma PlainText(s: seq<Byte>, t: nat, d: Byte, start: nat, e: nat)
    requires t < |s| && NulFrom(s, t) && s[t] != QUOTE && NextToken(s, t, d) == Some((start, e))
    ensures e - start <= |CString(s[start..])| && CString(s[start..])[..e - start] == s[start..e]
    ensures ShellTokens(CString(s[t..]), d) == [s[start..e]] + ShellTokens(CString(s[After(s, e)..]), d)
  {
    assert start == Skip(s, t, d) && s[start] != 0 && e == Until(s, start, d);
    CStringStep(s, t);
    SkipText(s, t, d);
    SplitShellText(s, start, d, d, e);
  }

  /** A text in which NextToken finds nothing has no arguments. */
  lemma NoShellText(s: seq<Byte>, t: nat, d: Byte)
    requires t < |s| && NulFrom(s, t) && NextToken(s, t, d).None?
    ensures ShellTokens(CString(s[t..]), d) == []
  {
    if s[t] == 0 {
      assert CString(s[t..]) == [];
    } else {
      CStringStep(s, t);
      SkipText(s, t, d);
      assert CString(s[Skip(s, t, d)..]) == [];
    }
  }

  /** The intended cmd_parse reads back as the arguments of the text:
      argc counts them up to MAX_ARG_NR, it gives -1 exactly when there
      are more, and argv[k] holds the k-th. */
  lemma {:induction false} CmdParseTokens(s: seq<Byte>, t: nat, args: seq<nat>, d: Byte)
    requires t < |s| && NulFrom(s, t) && |args| <= MAX_ARG_NR
    ensures ShellReadsAs(s, t, args, CmdParseFrom(s, t, args, d), ShellTokens(CString(s[t..]), d))
    decreases |s| - t
  {
    var next := NextToken(s, t, d);
    if next.None? {
      NoneDone(s, t, args, d);
    } else if |args| == MAX_ARG_NR {
      FullDone(s, t, args, d);
    } else {
      var start, e := next.value.0, next.value.1;
      if s[e] != 0 {
        CutNul(s, t, d, start, e);
        CmdParseTokens(s[e := 0], e + 1, args + [start], d);
        CutDone(s, t, args, d, start, e);
      } else {
        EndDone(s, t, args, d, start, e);
      }
    }
  }

  /** No token left: nothing is stored. */
  lemma NoneDone(s: seq<Byte>, t: nat, args: seq<nat>, d: Byte)
    requires t < |s| && NulFrom(s, t) && NextToken(s, t, d).None? && |args| <= MAX_ARG_NR
    ensures ShellReadsAs(s, t, args, CmdParseFrom(s, t, args, d), ShellTokens(CString(s[t..]), d))
  {
    NoShellText(s, t, d);
    assert CmdParseFrom(s, t, args, d) == ShellParsed(s, args, false);
  }

  /** A token found with argv full: -1. */
  lemma FullDone(s: seq<Byte>, t: nat, args: seq<nat>, d: Byte)
    requires t < |s| && NulFrom(s, t) && NextToken(s, t, d).Some? && |args| == MAX_ARG_NR
    ensures ShellReadsAs(s, t, args, CmdParseFrom(s, t, args, d), ShellTokens(CString(s[t..]), d))
  {
    var (start, e) := NextToken(s, t, d).value;
    ShellText(s, t, d, start, e);
    assert CmdParseFrom(s, t, args, d) == ShellParsed(s, args, true);
  }

  /** The NUL that ends the scan lies past a cut at e. */
  lemma CutNul(s: seq<Byte>, t: nat, d: Byte, start: nat, e: nat)
    requires t < |s| && NulFrom(s, t) && NextToken(s, t, d) == Some((start, e)) && s[e] != 0
    ensures t <= e && e + 1 < |s| && NulFrom(s[e := 0], e + 1)
  {
    CutKeepsNul(s, t, e);
  }

  /** A token closed at e, then the parse after it. */
  lemma CutDone(s: seq<Byte>, t: nat, args: seq<nat>, d: Byte, start: nat, e: nat)
    requires t < |s| && NulFrom(s, t) && NextToken(s, t, d) == Some((start, e)) && s[e] != 0 && |args| < MAX_ARG_NR
    requires e + 1 < |s| && NulFrom(s[e := 0], e + 1)
    requires var s1 := s[e := 0];
      ShellReadsAs(s1, e + 1, args + [start], CmdParseFrom(s1, e + 1, args + [start], d), ShellTokens(CString(s1[e + 1..]), d))
    ensures ShellReadsAs(s, t, args, CmdParseFrom(s, t, args, d), ShellTokens(CString(s[t..]), d))
  {
    ShellText(s, t, d, start, e);
    ParseStep(s, t, args, d, start, e);
    ShellCutStep(s, t, args, d, start, e, CmdParseFrom(s[e := 0], e + 1, args + [start], d));
  }

  /** A token that runs to the NUL at e, which ends the parse. */
  lemma EndDone(s: seq<Byte>, t: nat, args: seq<nat>, d: Byte, start: nat, e: nat)
    requires t < |s| && NulFrom(s, t) && NextToken(s, t, d) == Some((start, e)) && s[e] == 0 && |args| < MAX_ARG_NR
    ensures ShellReadsAs(s, t, args, CmdParseFrom(s, t, args, d), ShellTokens(CString(s[t..]), d))
  {
    ShellText(s, t, d, start, e);
    ParseStep(s, t, args, d, start, e);
    ShellEndStep(s, t, args, d, start, e);
  }

  /** cmd_parse unfolded for a token found from t that ends at e. */
  lemma ParseStep(s: seq<Byte>, t: nat, args: seq<nat>, d: Byte, start: nat, e: nat)
    requires t < |s| && NulFrom(s, t) && |args| < MAX_ARG_NR && NextToken(s, t, d) == Some((start, e))
    ensures s[e] != 0 ==> e + 1 < |s| && NulFrom(s[e := 0], e + 1)
    ensures CmdParseFrom(s, t, args, d) ==
      if s[e] != 0 then CmdParseFrom(s[e := 0], e + 1, args + [start], d)
      else CmdParseFrom(s, e, args + [start], d)
  {
    CutKeepsNul(s, t, e);
  }

  /** A token closed at e, and the parse after the NUL written there. */
  lemma ShellCutStep(s: seq<Byte>, t: nat, args: seq<nat>, d: Byte, start: nat, e: nat, r: ShellParsed)
    requires t <= start <= e && e + 1 < |s| && s[e] != 0 && |args| < MAX_ARG_NR && NulFrom(s[e := 0], e + 1)
    requires e - start <= |CString(s[start..])| && CString(s[start..])[..e - start] == s[start..e]
    requires r == CmdParseFrom(s[e := 0], e + 1, args + [start], d)
    requires ShellReadsAs(s[e := 0], e + 1, args + [start], r, ShellTokens(CString(s[e := 0][e + 1..]), d))
    ensures ShellReadsAs(s, t, args, r, [s[start..e]] + ShellTokens(CString(s[After(s, e)..]), d))
  {
    assert s[e := 0][e + 1..] == s[After(s, e)..];
    ShellArgAt(s[e := 0], e + 1, args, start, d);
    CutPieces(s, t, start, e, r);
    ShellCombine(s, t, s[e := 0], e + 1, args, start, r, s[start..e], ShellTokens(CString(s[After(s, e)..]), d));
  }

  /** What the parse after a cut at e keeps of the token before it. */
  lemma CutPieces(s: seq<Byte>, t: nat, start: nat, e: nat, r: ShellParsed)
    requires t <= start <= e && e + 1 < |s|
    requires e - start <= |CString(s[start..])| && CString(s[start..])[..e - start] == s[start..e]
    requires |r.buf| == |s| && r.buf[..e + 1] == s[e := 0][..e + 1]
    ensures r.buf[..t] == s[..t] && CString(r.buf[start..]) == s[start..e]
  {
    CutReadsBack(s, start, e, r.buf);
    assert r.buf[..t] == r.buf[..e + 1][..t];
  }

  /** A token that runs to the NUL at e ends the parse. */
  lemma ShellEndStep(s: seq<Byte>, t: nat, args: seq<nat>, d: Byte, start: nat, e: nat)
    requires t <= start <= e < |s| && s[e] == 0 && |args| < MAX_ARG_NR
    requires e - start <= |CString(s[start..])| && CString(s[start..])[..e - start] == s[start..e]
    ensures ShellReadsAs(s, t, args, CmdParseFrom(s, e, args + [start], d), [s[start..e]] + ShellTokens(CString(s[After(s, e)..]), d))
  {
    assert NulFrom(s, e);
    assert CmdParseFrom(s, e, args + [start], d) == ShellParsed(s, args + [start], false);
    assert CString(s[After(s, e)..]) == [];
    forall j | start <= j < e
      ensures s[j] != 0
    {
      assert s[j] == s[start..e][j - start];
    }
    ReadsBackTo(s, start, e);
  }

  /** The parse after a token keeps the start just stored. */
  lemma ShellArgAt(s: seq<Byte>, t: nat, args: seq<nat>, start: nat, d: Byte)
    requires t < |s| && NulFrom(s, t) && |args| < MAX_ARG_NR
    ensures var r := CmdParseFrom(s, t, args + [start], d); |args| < |r.args| && r.args[|args|] == start
  {
    var r := CmdParseFrom(s, t, args + [start], d);
    CmdParseBounded(s, t, args + [start], d);
    assert r.args[..|args| + 1] == args + [start];
    assert r.args[|args|] == r.args[..|args| + 1][|args|];
  }

  /** The token tok stored at args' slot, followed by what the parse after
      it stores, is the parse from t. */
  lemma ShellCombine(s: seq<Byte>, t: nat, s1: seq<Byte>, t1: nat, args: seq<nat>, start: nat, r: ShellParsed, tok: seq<Byte>, rest: seq<seq<Byte>>)
    requires t <= |s| && t1 <= |s1| == |s| && |args| < MAX_ARG_NR
    requires |r.buf| == |s| && r.buf[..t] == s[..t]
    requires |args| < |r.args| && r.args[|args|] == start <= |r.buf| && CString(r.buf[start..]) == tok
    requires ShellReadsAs(s1, t1, args + [start], r, rest)
    ensures ShellReadsAs(s, t, args, r, [tok] + rest)
  {
    var ts := [tok] + rest;
    forall k | |args| <= k < |r.args|
      ensures r.args[k] <= |r.buf| && CString(r.buf[r.args[k]..]) == ts[k - |args|]
    {
      if k > |args| {
        assert ts[k - |args|] == rest[k - |args| - 1];
      }
    }
  }

  /** argv as cmd_parse leaves it: the starts, then NULL. */
  function ShellSlots(args: seq<nat>): (r: seq<Option<nat>>)
    ensures |r| == MAX_ARG_NR
  {
    seq(MAX_ARG_NR, i => if 0 <= i < |args| then Some(args[i]) else None)
  }

  /** The scan `while (*next && *next != c) next++`. */
  method ScanUntil(buf: array<Byte>, t: nat, c: Byte) returns (e: nat)
    requires t <= buf.Length && NulFrom(buf[..], t)
    ensures e == Until(buf[..], t, c)
  {
    e := t;
    while buf[e] != 0 && buf[e] != c
      invariant t <= e < buf.Length && NulFrom(buf[..], e)
      invariant Until(buf[..], t, c) == Until(buf[..], e, c)
      decreases buf.Length - e
    {
      e := e + 1;
    }
  }

  /** The start of the loop body: find the next token. */
  method FindToken(buf: array<Byte>, t: nat, d: Byte) returns (r: Option<(nat, nat)>)
    requires t < buf.Length && NulFrom(buf[..], t)
    ensures r == NextToken(buf[..], t, d)
  {
    if buf[t] == 0 {
      return None;
    }
    if buf[t] != QUOTE {
      var u := SkipDelims(buf, t, d);
      if buf[u] == 0 {
        return None;
      }
      var e := ScanUntil(buf, u, d);
      return Some((u, e));
    }
    assert NulFrom(buf[..], t + 1) by {
      var k :| t <= k < buf.Length && buf[k] == 0;
    }
    var e := ScanUntil(buf, t + 1, QUOTE);
    return Some((t + 1, e));
  }

  /** The loop that sets every argv slot to NULL. */
  method ClearArgv(argv: array<Option<nat>>)
    requires argv.Length == MAX_ARG_NR
    modifies argv
    ensures argv[..] == ShellSlots([])
  {
    var i := 0;
    while i < MAX_ARG_NR
      invariant i <= MAX_ARG_NR
      invariant forall k :: 0 <= k < i ==> argv[k] == None
    {
      argv[i] := None;
      i := i + 1;
    }
  }

  /** The rest of the loop body for a found token: store its start in
      argv[argc] and cut at its end. */
  method StoreToken(buf: array<Byte>, argv: array<Option<nat>>, t: nat, start: nat, e: nat, argc: nat, ghost args: seq<nat>, d: Byte)
    returns (next: nat)
    requires t < buf.Length && NulFrom(buf[..], t) && argv.Length == MAX_ARG_NR
    requires argc == |args| < MAX_ARG_NR && argv[..] == ShellSlots(args)
    requires NextToken(buf[..], t, d) == Some((start, e))
    modifies buf, argv
    ensures argv[..] == ShellSlots(args + [start])
    ensures next < buf.Length && NulFrom(buf[..], next)
    ensures CmdParseFrom(buf[..], next, args + [start], d) == CmdParseFrom(old(buf[..]), t, args, d)
    ensures t < next
  {
    CutKeepsNul(buf[..], t, e);
    argv[argc] := Some(start);
    if buf[e] != 0 {
      buf[e] := 0;
      next := e + 1;
    } else {
      next := e;
    }
    assert argv[..] == ShellSlots(args + [start]);
  }

  /** cmd_parse(cmd_str, argv, token), bound tested before the store. */
  method CmdParse(buf: array<Byte>, argv: array<Option<nat>>, d: Byte) returns (argc: int)
    requires Terminated(buf[..]) && argv.Length == MAX_ARG_NR
    modifies buf, argv
    ensures var r := CmdParseFrom(old(buf[..]), 0, [], d);
      && buf[..] == r.buf && argv[..] == ShellSlots(r.args)
      && argc == (if r.tooMany then -1 else |r.args|)
  {
    ghost var s0 := buf[..];
    assert NulFrom(s0, 0) by {
      var k :| 0 <= k < |s0| && s0[k] == 0;
    }
    ClearArgv(argv);
    var next := 0;
    ghost var args: seq<nat> := [];
    argc := 0;
    while true
      invariant next < buf.Length && NulFrom(buf[..], next) && argc == |args| <= MAX_ARG_NR
      invariant argv[..] == ShellSlots(args)
      invariant CmdParseFrom(buf[..], next, args, d) == CmdParseFrom(s0, 0, [], d)
      decreases buf.Length - next
    {
      var tok := FindToken(buf, next, d);
      if tok.None? {
        return;
      }
      var (start, e) := tok.value;
      if argc >= MAX_ARG_NR {
        return -1;
      }
      next := StoreToken(buf, argv, next, start, e, argc, args, d);
      args := args + [start];
      argc := argc + 1;
    }
  }

  // ---------------------------------------------------------------------
  // try_to_run_external

  /** What try_to_run_external did: the names it passed to
      create_process, its result, and the value it left in *exist. */
  datatype ExternalRun = ExternalRun(tried: seq<seq<Byte>>, result: int, exist: bool)

  /** The ".bin" suffix. */
  const BIN_SUFFIX: seq<Byte> := [0x2E, 0x62, 0x69, 0x6E]

  /** try_to_run_external(name, exist): `first` and `second` are what
      create_process returns for the name and for the name with ".bin"
      appended, `status` what waitpid returns for the started process. */
  function TryToRunExternal(name: seq<Byte>, first: int, second: int, status: int): (r: ExternalRun)
    ensures r.exist <==> (first != -1 || second != -1)
    ensures r.exist ==> r.result == status
    ensures !r.exist ==> r.result == -1
    ensures 1 <= |r.tried| <= 2 && r.tried[0] == name && (|r.tried| == 2 <==> first == -1)
    ensures |r.tried| == 2 ==> r.tried[1] == name + BIN_SUFFIX
  {
    if first != -1 then ExternalRun([name], status, true)
    else if second != -1 then ExternalRun([name, name + BIN_SUFFIX], status, true)
    else ExternalRun([name, name + BIN_SUFFIX], -1, false)
  }
}
