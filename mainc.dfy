/** The kernel's own shell front end: creating a kernel task with the
    segment selectors of its privilege level, the line editor that reads a
    command from the keyboard, and the tokenizer that splits the line into
    arguments in place. The scheduler's task_alloc/task_free and the
    keyboard read are not part of this model: their answers are inputs. */
module KernelMain {
  import opened Machine
  import opened StringLib
  import Memory
  import Tasks

  const KERNEL_CODE_SELECTOR: nat := 0x08
  const KERNEL_DATA_SELECTOR: nat := 0x10
  const DRIVER_CODE_SELECTOR: nat := 0x1B
  const DRIVER_DATA_SELECTOR: nat := 0x23
  const USER_CODE_SELECTOR: nat := 0x2B
  const USER_DATA_SELECTOR: nat := 0x33

  const MAX_CMD_LEN: nat := 128
  const MAX_ARG_NUM: nat := 32
  const KERNEL_STACK_SIZE: nat := 64 * 1024
  /** IF set plus the always-one bit 1. */
  const TASK_EFLAGS: nat := 0x202

  // ---------------------------------------------------------------------
  // create_kernel_task
  // ---------------------------------------------------------------------

  /** The code selector, the data selector and the privilege level a task
      is created with; levels other than 0, 1 and 3 fall back to 0. */
  function Selectors(privilege: int): (nat, nat, nat)
  {
    if privilege == 1 then (DRIVER_CODE_SELECTOR, DRIVER_DATA_SELECTOR, 1)
    else if privilege == 3 then (USER_CODE_SELECTOR, USER_DATA_SELECTOR, 3)
    else (KERNEL_CODE_SELECTOR, KERNEL_DATA_SELECTOR, 0)
  }

  /** The requested privilege level of a selector: its low two bits. */
  function Rpl(selector: nat): nat
  {
    selector % 4
  }

  /** The selector table: ring 0 gets GDT entries 1 and 2 with RPL 0, ring 1
      entries 3 and 4 and ring 3 entries 5 and 6, both of them with RPL 3;
      anything else is treated as ring 0. Every data selector is the entry
      right after its code selector. */
  lemma SelectorTable(privilege: int)
    ensures var (code, data, level) := Selectors(privilege);
      && (privilege in {0, 1, 3} ==> level == privilege)
      && (privilege !in {0, 1, 3} ==> level == 0 && code == KERNEL_CODE_SELECTOR && data == KERNEL_DATA_SELECTOR)
      && code / 8 == (if level == 0 then 1 else if level == 1 then 3 else 5)
      && data / 8 == code / 8 + 1
      && Rpl(code) == Rpl(data) == (if level == 0 then 0 else 3)
  {
  }

  /** The TSS fields create_kernel_task sets: the stack pointer one word
      below the top of the 64 KiB stack (32-bit sum), the entry point, the
      flags with IF set, and the selectors of the privilege level. */
  function KernelTss(stackBase: nat, entry: Word32, privilege: int): Tasks.Tss
  {
    var (code, data, _) := Selectors(privilege);
    Tasks.Tss((stackBase + KERNEL_STACK_SIZE - 4) % U32, entry, TASK_EFLAGS,
              code, data, data, data, data, data)
  }

  /** create_kernel_task: `slot` is what task_alloc returned. Without a
      task the call fails at once; without a stack the task is handed back
      to the scheduler (`freed`) and the call fails; otherwise the task's
      TSS is set up and the task returned. */
  method CreateKernelTask(slot: Tasks.Task?, heap: Memory.Heap, entry: Word32, privilege: int)
    returns (r: Tasks.Task?, freed: bool)
    requires heap.Valid()
    modifies slot, heap, heap.man, heap.man.free
    ensures heap.Valid() && heap.man == old(heap.man)
    ensures slot == null ==>
      && r == null && !freed
      && heap.mem == old(heap.mem) && heap.man.Extents() == old(heap.man.Extents())
    ensures slot != null ==>
      var o := Memory.KMallocSpec(old(heap.mem), old(heap.man.Extents()), KERNEL_STACK_SIZE);
      && heap.mem == o.mem && heap.man.Extents() == o.exts
      && (o.ptr == 0 ==> r == null && freed && slot.tss == old(slot.tss))
      && (o.ptr != 0 ==> r == slot && !freed && slot.tss == KernelTss(o.ptr, entry, privilege))
  {
    if slot == null {
      return null, false;
    }
    var stackBase := heap.KMalloc(KERNEL_STACK_SIZE);
    if stackBase == 0 {
      return null, true;
    }
    var code, data := 0, 0;
    if privilege == 0 {
      code, data := KERNEL_CODE_SELECTOR, KERNEL_DATA_SELECTOR;
    } else if privilege == 1 {
      code, data := DRIVER_CODE_SELECTOR, DRIVER_DATA_SELECTOR;
    } else if privilege == 3 {
      code, data := USER_CODE_SELECTOR, USER_DATA_SELECTOR;
    } else {
      code, data := KERNEL_CODE_SELECTOR, KERNEL_DATA_SELECTOR;
    }
    slot.tss := Tasks.Tss((stackBase + KERNEL_STACK_SIZE - 4) % U32, entry, TASK_EFLAGS,
                          code, data, data, data, data, data);
    return slot, false;
  }

  // ---------------------------------------------------------------------
  // read_command_line
  // ---------------------------------------------------------------------

  const LF: Byte := 10
  const CR: Byte := 13
  const BS: Byte := 8
  const CTRL_C: Byte := 3

  predicate Printable(c: Byte)
  {
    32 <= c <= 126
  }

  /** How a line edit ended: Enter (CR or LF), Ctrl+C, the buffer filling
      up, or the given input running out while the loop still waits. */
  datatype LineEnd = Enter | Interrupt | Full | Waiting

  /** The editor's outcome: the text it holds, how many reads it consumed,
      and how it ended. */
  datatype Edited = Edited(line: seq<Byte>, used: nat, end: LineEnd)

  /** The line editor on its text: each successful read (Some) of a
      printable byte appends it, a backspace drops the last byte if there
      is one, CR or LF ends the line, Ctrl+C ends it empty, any other byte
      is ignored; a failed read (None) is skipped. The loop stops by itself
      once `limit` (max_len - 1) bytes are held. */
  function EditLine(line: seq<Byte>, input: seq<Option<Byte>>, limit: nat): (r: Edited)
    requires |line| <= limit
    ensures |r.line| <= limit && r.used <= |input|
    decreases |input|
  {
    if |line| >= limit then Edited(line, 0, Full)
    else if |input| == 0 then Edited(line, 0, Waiting)
    else if input[0].None? then Consumed(EditLine(line, input[1..], limit))
    else
      var c := input[0].value;
      if c == LF || c == CR then Edited(line, 1, Enter)
      else if c == CTRL_C then Edited([], 1, Interrupt)
      else Consumed(EditLine(Key(line, c), input[1..], limit))
  }

  /** The effect of one key other than CR, LF and Ctrl+C on the text. */
  function Key(line: seq<Byte>, c: Byte): (r: seq<Byte>)
  {
    if c == BS then (if |line| > 0 then line[..|line| - 1] else line)
    else if Printable(c) then line + [c]
    else line
  }

  function Consumed(e: Edited): Edited
  {
    Edited(e.line, e.used + 1, e.end)
  }

  /** The edited text only ever holds printable bytes, and never more than
      the limit. */
  lemma {:induction false} EditLinePrintable(line: seq<Byte>, input: seq<Option<Byte>>, limit: nat)
    requires |line| <= limit && forall k :: 0 <= k < |line| ==> Printable(line[k])
    ensures var r := EditLine(line, input, limit);
      |r.line| <= limit && forall k :: 0 <= k < |r.line| ==> Printable(r.line[k])
    decreases |input|
  {
    if |line| < limit && |input| > 0 {
      if input[0].None? {
        EditLinePrintable(line, input[1..], limit);
      } else {
        var c := input[0].value;
        if c != LF && c != CR && c != CTRL_C {
          var next := Key(line, c);
          assert forall k :: 0 <= k < |next| ==> Printable(next[k]) by {
            if c == BS {
            } else if Printable(c) {
              forall k | 0 <= k < |next| ensures Printable(next[k]) {
                if k < |line| { assert next[k] == line[k]; }
              }
            }
          }
          EditLinePrintable(next, input[1..], limit);
        }
      }
    }
  }

  /** read_command_line: `input` is the sequence of answers of read(0, &c,
      1), None for a read that returned 0 or less. When the edit ends, the
      buffer holds the edited text as a NUL-terminated string. */
  method ReadCommandLine(buffer: array<Byte>, maxLen: nat, input: seq<Option<Byte>>)
    returns (used: nat, end: LineEnd)
    requires 1 <= maxLen <= buffer.Length
    modifies buffer
    ensures var e := EditLine([], input, maxLen - 1); used == e.used && end == e.end
    ensures end != Waiting ==>
      Terminated(buffer[..]) && CString(buffer[..]) == EditLine([], input, maxLen - 1).line
  {
    var count := 0;
    var i := 0;
    ghost var line: seq<Byte> := [];
    while count < maxLen - 1
      invariant i <= |input| && count == |line| <= maxLen - 1
      invariant buffer[..count] == line
      invariant forall k :: 0 <= k < |line| ==> Printable(line[k])
      invariant Shifted(EditLine(line, input[i..], maxLen - 1), i) == EditLine([], input, maxLen - 1)
      decreases |input| - i, maxLen - 1 - count
    {
      if i == |input| {
        return i, Waiting;
      }
      var got := input[i];
      assert input[i..][1..] == input[i + 1..];
      ghost var line0 := line;
      i := i + 1;
      if got.Some? {
        var c := got.value;
        if c == LF || c == CR {
          buffer[count] := 0;
          LineReadsBack(buffer[..], line);
          return i, Enter;
        } else if c == BS {
          if count > 0 {
            count := count - 1;
            line := line[..count];
          }
        } else if c == CTRL_C {
          buffer[0] := 0;
          return i, Interrupt;
        } else if Printable(c) {
          buffer[count] := c;
          line := line + [c];
          count := count + 1;
        }
      }
      EditAdvance(line0, input, i - 1, maxLen - 1, line);
    }
    buffer[count] := 0;
    LineReadsBack(buffer[..], line);
    return i, Full;
  }

  function Shifted(e: Edited, n: nat): Edited
  {
    Edited(e.line, e.used + n, e.end)
  }

  /** A failed read or a key other than CR, LF and Ctrl+C leaves the rest
      of the edit to the next read, one read further on. */
  lemma EditAdvance(line: seq<Byte>, input: seq<Option<Byte>>, i: nat, limit: nat, line': seq<Byte>)
    requires i < |input| && |line| < limit
    requires input[i].Some? ==> input[i].value != LF && input[i].value != CR && input[i].value != CTRL_C
    requires line' == if input[i].None? then line else Key(line, input[i].value)
    ensures |line'| <= limit
    ensures Shifted(EditLine(line', input[i + 1..], limit), i + 1) == Shifted(EditLine(line, input[i..], limit), i)
  {
    assert input[i..][0] == input[i] && input[i..][1..] == input[i + 1..];
  }

  /** A printable text followed by a NUL reads back as that text. */
  lemma LineReadsBack(b: seq<Byte>, line: seq<Byte>)
    requires |line| < |b| && b[..|line|] == line && b[|line|] == 0
    requires forall k :: 0 <= k < |line| ==> Printable(line[k])
    ensures Terminated(b) && CString(b) == line
  {
    assert b == line + b[|line|..];
    CStringOfPrefix(line, b[|line|..]);
  }

  // ---------------------------------------------------------------------
  // parse_command
  // ---------------------------------------------------------------------

  const QUOTE: Byte := 0x22

  /** `while (*token == delimiter) token++`; with delimiter 0 the loop is
      only ever entered on a non-NUL byte, where it stops at once. */
  function Skip(s: seq<Byte>, t: nat, d: Byte): (r: nat)
    requires t < |s| && NulFrom(s, t) && (s[t] != 0 || d != 0)
    ensures t <= r < |s| && s[r] != d && NulFrom(s, r)
    decreases |s| - t
  {
    if s[t] == d then Skip(s, t + 1, d) else t
  }

  /** strchr(s + t, c) as an index into s. */
  function Find(s: seq<Byte>, t: nat, c: Byte): Option<nat>
    requires t <= |s|
  {
    ShiftBy(StrChrSpec(s[t..], c), t)
  }

  /** strlen(s + t). */
  function LenFrom(s: seq<Byte>, t: nat): nat
    requires t <= |s|
  {
    |CString(s[t..])|
  }

  /** The C string at t ends at the first NUL from t. */
  lemma LenFromEnds(s: seq<Byte>, t: nat)
    requires t <= |s| && NulFrom(s, t)
    ensures t + LenFrom(s, t) < |s| && s[t + LenFrom(s, t)] == 0
    ensures forall k :: t <= k < t + LenFrom(s, t) ==> s[k] != 0
  {
    var k :| t <= k < |s| && s[k] == 0;
    assert s[t..][k - t] == 0;
    var c := CString(s[t..]);
    forall j | t <= j < t + |c| ensures s[j] != 0 {
      assert c[j - t] == s[t..][j - t];
    }
  }

  /** What strchr finds lies inside the string and is not its NUL. */
  lemma FindInside(s: seq<Byte>, t: nat, c: Byte)
    requires t <= |s| && NulFrom(s, t)
    ensures Find(s, t, c).Some? ==>
      var e := Find(s, t, c).value;
      t <= e < t + LenFrom(s, t) && Signed(s[e]) == c && s[e] != 0
    ensures Find(s, t, c).None? ==>
      forall k :: t <= k < t + LenFrom(s, t) ==> Signed(s[k]) != c
  {
    StrChrFindsFirst(s[t..], c);
    LenFromEnds(s, t);
    var r := StrChrSpec(s[t..], c);
    if r.Some? {
      assert s[t + r.value] == s[t..][r.value];
    } else {
      forall k | t <= k < t + LenFrom(s, t) ensures Signed(s[k]) != c {
        assert s[k] == s[t..][k - t];
      }
    }
  }

  /** The buffer after parsing and the start index of every argument. */
  datatype Parsed = Parsed(buf: seq<Byte>, args: seq<nat>)

  /** Where the scan resumes after a token that starts at `start` and
      ends at the first c (found) or at the string's end (not found): in
      both cases still inside s and before a NUL. */
  lemma Resume(s: seq<Byte>, start: nat, c: Byte)
    requires start < |s| && NulFrom(s, start)
    ensures Find(s, start, c).Some? ==>
      var e := Find(s, start, c).value;
      start <= e && e + 1 < |s| && s[e] != 0 && NulFrom(s[e := 0], e + 1)
    ensures Find(s, start, c).None? ==>
      var n := start + LenFrom(s, start);
      n < |s| && s[n] == 0 && NulFrom(s, n)
  {
    LenFromEnds(s, start);
    FindInside(s, start, c);
    var n := start + LenFrom(s, start);
    if Find(s, start, c).Some? {
      var e := Find(s, start, c).value;
      assert s[e := 0][n] == 0;
    }
  }

  /** The loop of parse_command from token index t with the arguments
      found so far: stop at the string's end or once MAX_ARG_NUM - 1
      arguments are held; otherwise skip delimiters and take a token. */
  function ParseFrom(s: seq<Byte>, t: nat, args: seq<nat>, d: Byte): (r: Parsed)
    requires t < |s| && NulFrom(s, t) && |args| < MAX_ARG_NUM
    decreases |s| - t, 1
  {
    if s[t] == 0 || |args| == MAX_ARG_NUM - 1 then Parsed(s, args)
    else
      var u := Skip(s, t, d);
      if s[u] == 0 then Parsed(s, args) else ParseToken(s, u, args, d)
  }

  /** One token at u: one that starts with a quote runs from after it to
      the next quote, any other token to the next delimiter; the byte that
      ends the token becomes NUL and the scan goes on after it, or the
      token runs to the end of the string. */
  function ParseToken(s: seq<Byte>, u: nat, args: seq<nat>, d: Byte): (r: Parsed)
    requires u < |s| && s[u] != 0 && NulFrom(s, u) && |args| < MAX_ARG_NUM - 1
    decreases |s| - u, 0
  {
    var start := if s[u] == QUOTE then u + 1 else u;
    var c := if s[u] == QUOTE then QUOTE else d;
    assert start < |s| && NulFrom(s, start) by {
      var k :| u <= k < |s| && s[k] == 0;
    }
    Resume(s, start, c);
    match Find(s, start, c)
    case Some(e) => ParseFrom(s[e := 0], e + 1, args + [start], d)
    case None => ParseFrom(s, start + LenFrom(s, start), args + [start], d)
  }


  /** b is s with some delimiters or quotes replaced by NUL and nothing
      else changed. */
  predicate OnlyCuts(s: seq<Byte>, b: seq<Byte>, d: Byte)
  {
    |b| == |s| && forall k :: 0 <= k < |s| && b[k] != s[k] ==> b[k] == 0 && (s[k] == d || s[k] == QUOTE)
  }

  /** What parse_command does to its inputs, from a token index t: the
      buffer only loses delimiters and quotes to NULs, the arguments
      found so far are kept, at most MAX_ARG_NUM - 1 are held, and every
      new argument starts inside the buffer at or past t, each after the
      one before. */
  predicate ParsedShape(s: seq<Byte>, t: nat, args: seq<nat>, d: Byte, r: Parsed)
  {
    && OnlyCuts(s, r.buf, d)
    && |args| <= |r.args| < MAX_ARG_NUM && r.args[..|args|] == args
    && (forall i :: |args| <= i < |r.args| ==> t <= r.args[i] < |s|)
    && (forall i :: |args| < i < |r.args| ==> r.args[i - 1] < r.args[i])
  }

  /** Cutting twice is cutting. */
  lemma CutsCompose(s: seq<Byte>, s1: seq<Byte>, b: seq<Byte>, d: Byte)
    requires OnlyCuts(s, s1, d) && OnlyCuts(s1, b, d)
    ensures OnlyCuts(s, b, d)
  {
  }

  lemma {:induction false} ParseFromShape(s: seq<Byte>, t: nat, args: seq<nat>, d: Byte)
    requires t < |s| && NulFrom(s, t) && |args| < MAX_ARG_NUM
    ensures ParsedShape(s, t, args, d, ParseFrom(s, t, args, d))
    decreases |s| - t, 2
  {
    if s[t] == 0 || |args| == MAX_ARG_NUM - 1 {
    } else {
      var u := Skip(s, t, d);
      if s[u] != 0 {
        ParseTokenShape(s, u, args, d);
      }
    }
  }

  lemma {:induction false} ParseTokenShape(s: seq<Byte>, u: nat, args: seq<nat>, d: Byte)
    requires u < |s| && s[u] != 0 && NulFrom(s, u) && |args| < MAX_ARG_NUM - 1
    ensures ParsedShape(s, u, args, d, ParseToken(s, u, args, d))
    decreases |s| - u, 1
  {
    var start := if s[u] == QUOTE then u + 1 else u;
    var c := if s[u] == QUOTE then QUOTE else d;
    assert start < |s| && NulFrom(s, start) by {
      var k :| u <= k < |s| && s[k] == 0;
    }
    FindInside(s, start, c);
    match Find(s, start, c)
    case Some(e) =>
      TokenEndsAt(s, u, args, d, start, c, e);
      CutShape(s, u, args, d, start, c, e);
    case None =>
      TokenRunsOut(s, u, args, d, start, c, start + LenFrom(s, start));
      RunShape(s, u, args, d, start, c);
  }

  /** The shape for a token ended by a cut at e. */
  lemma {:induction false} CutShape(s: seq<Byte>, u: nat, args: seq<nat>, d: Byte, start: nat, c: Byte, e: nat)
    requires u <= start <= e < |s| - 1 && |args| < MAX_ARG_NUM - 1
    requires c == d || c == QUOTE
    requires Signed(s[e]) == c && NulFrom(s[e := 0], e + 1)
    ensures ParsedShape(s, u, args, d, ParseFrom(s[e := 0], e + 1, args + [start], d))
    decreases |s| - u, 0
  {
    assert OnlyCuts(s, s[e := 0], d);
    ParseFromShape(s[e := 0], e + 1, args + [start], d);
    ShapeExtends(s, s[e := 0], u, e + 1, args, start, d, ParseFrom(s[e := 0], e + 1, args + [start], d));
  }

  /** The shape for a token that runs to the end of the string. */
  lemma {:induction false} RunShape(s: seq<Byte>, u: nat, args: seq<nat>, d: Byte, start: nat, c: Byte)
    requires u <= start < |s| && s[u] != 0 && NulFrom(s, start) && |args| < MAX_ARG_NUM - 1
    ensures var n := start + LenFrom(s, start);
      n < |s| && NulFrom(s, n) && ParsedShape(s, u, args, d, ParseFrom(s, n, args + [start], d))
    decreases |s| - u, 0
  {
    var n := start + LenFrom(s, start);
    LenFromEnds(s, start);
    assert NulFrom(s, n);
    if n == start {
      assert ParseFrom(s, n, args + [start], d) == Parsed(s, args + [start]);
    }
    ParseFromShape(s, n, args + [start], d);
    ShapeExtends(s, s, u, n, args, start, d, ParseFrom(s, n, args + [start], d));
  }

  /** The shape after one more token is the shape from before it. */
  lemma ShapeExtends(s: seq<Byte>, s1: seq<Byte>, u: nat, t1: nat, args: seq<nat>, start: nat, d: Byte, r: Parsed)
    requires OnlyCuts(s, s1, d) && u <= start <= t1 && start < |s|
    requires start < t1 || |r.args| == |args| + 1
    requires ParsedShape(s1, t1, args + [start], d, r)
    ensures ParsedShape(s, u, args, d, r)
  {
    assert r.args[..|args|] == (args + [start])[..|args|];
    assert r.args[|args|] == start;
    CutsCompose(s, s1, r.buf, d);
  }

  // ---------------------------------------------------------------------
  // The arguments as text

  /** The text w without the delimiters at its front. */
  function DropDelims(w: seq<Byte>, d: Byte): (r: seq<Byte>)
    ensures |r| <= |w| && (r != [] ==> r[0] != d)
    decreases |w|
  {
    if w != [] && w[0] == d then DropDelims(w[1..], d) else w
  }

  /** The length of the longest front of w holding no byte that strchr
      matches against c. strchr compares the byte as a signed char with c
      as a uint8_t, so no byte matches a c from 0x80 up. */
  function Span(w: seq<Byte>, c: Byte): (k: nat)
    ensures k <= |w| && (k < |w| ==> Signed(w[k]) == c)
    ensures forall j :: 0 <= j < k ==> Signed(w[j]) != c
    decreases |w|
  {
    if w == [] || Signed(w[0]) == c then 0 else 1 + Span(w[1..], c)
  }

  /** The arguments of a command line, as text: the delimiters before an
      argument are dropped; an argument that opens with a quote runs from
      after it up to the next quote, any other up to the next delimiter,
      and the last one may run to the end of the line. */
  function Tokens(w: seq<Byte>, d: Byte): seq<seq<Byte>>
    decreases |w|, 1
  {
    var v := DropDelims(w, d);
    if v == [] then []
    else if v[0] == QUOTE then TokenSplit(v[1..], QUOTE, d)
    else TokenSplit(v, d, d)
  }

  /** The argument whose text starts body and runs up to the first byte
      that matches c, and the arguments after that byte. */
  function TokenSplit(body: seq<Byte>, c: Byte, d: Byte): seq<seq<Byte>>
    decreases |body|, 0
  {
    var k := Span(body, c);
    if k < |body| then [body[..k]] + Tokens(body[k + 1..], d) else [body]
  }

  /** Delimiters in front of the text do not change its arguments. */
  lemma TokensDrop(w: seq<Byte>, d: Byte)
    ensures Tokens(w, d) == Tokens(DropDelims(w, d), d)
  {
    var v := DropDelims(w, d);
    assert DropDelims(v, d) == v;
  }

  /** The C string at a non-NUL byte is that byte and the C string after it. */
  lemma CStringStep(s: seq<Byte>, u: nat)
    requires u < |s| && s[u] != 0
    ensures CString(s[u..]) == [s[u]] + CString(s[u + 1..])
  {
    assert s[u..][1..] == s[u + 1..];
  }

  /** The C string at t without its first j bytes is the C string at t + j. */
  lemma {:induction false} CStringFrom(s: seq<Byte>, t: nat, j: nat)
    requires t <= |s| && j <= |CString(s[t..])|
    ensures CString(s[t..])[j..] == CString(s[t + j..])
    decreases j
  {
    if j > 0 {
      assert s[t] == CString(s[t..])[0];
      CStringStep(s, t);
      CStringFrom(s, t + 1, j - 1);
    }
  }

  /** Bytes up to a NUL read back, from a, as the bytes before it. */
  lemma {:induction false} ReadsBackTo(b: seq<Byte>, a: nat, e: nat)
    requires a <= e < |b| && b[e] == 0 && forall j :: a <= j < e ==> b[j] != 0
    ensures CString(b[a..]) == b[a..e]
    decreases e - a
  {
    if a < e {
      CStringStep(b, a);
      ReadsBackTo(b, a + 1, e);
      assert b[a..e] == [b[a]] + b[a + 1..e];
    }
  }

  /** Skipping delimiters in the buffer drops them from the text. */
  lemma {:induction false} SkipText(s: seq<Byte>, t: nat, d: Byte)
    requires t < |s| && NulFrom(s, t) && (s[t] != 0 || d != 0)
    ensures CString(s[Skip(s, t, d)..]) == DropDelims(CString(s[t..]), d)
    decreases |s| - t
  {
    if s[t] == d {
      assert NulFrom(s, t + 1) by {
        var k :| t <= k < |s| && s[k] == 0;
        assert k != t;
      }
      SkipText(s, t + 1, d);
      DropStep(s, t, d);
    } else {
      KeepStep(s, t, d);
    }
  }

  /** A delimiter in front is dropped. */
  lemma DropStep(s: seq<Byte>, t: nat, d: Byte)
    requires t < |s| && s[t] == d != 0
    ensures DropDelims(CString(s[t..]), d) == DropDelims(CString(s[t + 1..]), d)
  {
    CStringStep(s, t);
    var w := CString(s[t + 1..]);
    assert ([d] + w)[1..] == w;
  }

  /** A text that does not open with a delimiter has none to drop. */
  lemma KeepStep(s: seq<Byte>, t: nat, d: Byte)
    requires t < |s| && s[t] != d
    ensures DropDelims(CString(s[t..]), d) == CString(s[t..])
  {
    if s[t] != 0 {
      CStringStep(s, t);
    }
  }

  /** strchr's answer on a buffer is the end of the span of its C string. */
  lemma {:induction false} StrChrSpan(x: seq<Byte>, c: Byte)
    ensures var w := CString(x);
      StrChrSpec(x, c) == if Span(w, c) < |w| then Some(Span(w, c)) else None
    decreases |x|
  {
    if |x| > 0 && x[0] != 0 && Signed(x[0]) != c {
      StrChrSpan(x[1..], c);
      var w, w1 := CString(x), CString(x[1..]);
      assert w == [x[0]] + w1 && w[1..] == w1;
      assert Span(w, c) == 1 + Span(w1, c);
    }
  }

  /** strchr from start stops where the span of the text from start ends. */
  lemma FindSpan(s: seq<Byte>, start: nat, c: Byte)
    requires start <= |s|
    ensures var w := CString(s[start..]);
      Find(s, start, c) == if Span(w, c) < |w| then Some(start + Span(w, c)) else None
  {
    StrChrSpan(s[start..], c);
  }

  /** What the parse from token index t does, against the arguments ts of
      the text from t: the bytes before t are kept, it records as many of
      ts as slots are left, and each recorded start reads back as its
      argument. */
  predicate ReadsAs(s: seq<Byte>, t: nat, args: seq<nat>, r: Parsed, ts: seq<seq<Byte>>)
    requires t <= |s|
  {
    && |r.buf| == |s| && r.buf[..t] == s[..t]
    && |args| <= |r.args| == |args| + Min(|ts|, MAX_ARG_NUM - 1 - |args|)
    && forall k :: |args| <= k < |r.args| ==> r.args[k] <= |r.buf| && CString(r.buf[r.args[k]..]) == ts[k - |args|]
  }

  /** The parse from token index t reads back as the arguments of the text from t. */
  lemma {:induction false} ParseFromTokens(s: seq<Byte>, t: nat, args: seq<nat>, d: Byte)
    requires t < |s| && NulFrom(s, t) && |args| < MAX_ARG_NUM
    ensures ReadsAs(s, t, args, ParseFrom(s, t, args, d), Tokens(CString(s[t..]), d))
    decreases |s| - t, 3
  {
    if s[t] == 0 {
      assert CString(s[t..]) == [];
    } else if |args| < MAX_ARG_NUM - 1 {
      var u := Skip(s, t, d);
      SkipText(s, t, d);
      TokensDrop(CString(s[t..]), d);
      if s[u] == 0 {
        assert CString(s[u..]) == [];
      } else {
        ParseTokenTokens(s, u, args, d);
        ReadsAsFromBack(s, t, u, args, ParseToken(s, u, args, d), Tokens(CString(s[u..]), d));
      }
    }
  }

  /** What holds from u holds from an earlier t. */
  lemma ReadsAsFromBack(s: seq<Byte>, t: nat, u: nat, args: seq<nat>, r: Parsed, ts: seq<seq<Byte>>)
    requires t <= u <= |s| && ReadsAs(s, u, args, r, ts)
    ensures ReadsAs(s, t, args, r, ts)
  {
    assert r.buf[..t] == r.buf[..u][..t];
  }

  /** The text at the first byte of a token: its arguments are that token,
      from after the opening quote if there is one, and those after it. */
  lemma TokenText(s: seq<Byte>, u: nat, d: Byte)
    requires u < |s| && s[u] != 0 && s[u] != d
    ensures var start := if s[u] == QUOTE then u + 1 else u;
      Tokens(CString(s[u..]), d) == TokenSplit(CString(s[start..]), if s[u] == QUOTE then QUOTE else d, d)
  {
    CStringStep(s, u);
    var w := CString(s[u..]);
    assert DropDelims(w, d) == w;
    assert w[1..] == CString(s[u + 1..]);
  }

  /** The parse from the first byte of a token reads back as the arguments
      of the text from there. */
  lemma {:induction false} ParseTokenTokens(s: seq<Byte>, u: nat, args: seq<nat>, d: Byte)
    requires u < |s| && s[u] != 0 && s[u] != d && NulFrom(s, u) && |args| < MAX_ARG_NUM - 1
    ensures ReadsAs(s, u, args, ParseToken(s, u, args, d), Tokens(CString(s[u..]), d))
    decreases |s| - u, 2
  {
    var start := if s[u] == QUOTE then u + 1 else u;
    var c := if s[u] == QUOTE then QUOTE else d;
    assert start < |s| && NulFrom(s, start) by {
      var k :| u <= k < |s| && s[k] == 0;
    }
    FindSpan(s, start, c);
    var f := Find(s, start, c);
    if f.Some? {
      var e := f.value;
      TokenEndsAt(s, u, args, d, start, c, e);
      CutText(s, u, d, start, c, e);
      CutCase(s, u, args, d, start, e);
    } else {
      RunText(s, u, d, start, c);
      RunParse(s, u, args, d, start, c);
      ReadsOne(s, u, args, start, CString(s[start..]));
    }
  }

  /** The arguments of a text whose first token is closed at e. */
  lemma CutText(s: seq<Byte>, u: nat, d: Byte, start: nat, c: Byte, e: nat)
    requires u < |s| && s[u] != 0 && s[u] != d
    requires start == (if s[u] == QUOTE then u + 1 else u) && c == (if s[u] == QUOTE then QUOTE else d)
    requires start <= |s| && var w := CString(s[start..]); Span(w, c) < |w| && e == start + Span(w, c)
    ensures e < |s| && e - start <= |CString(s[start..])| && CString(s[start..])[..e - start] == s[start..e]
    ensures Tokens(CString(s[u..]), d) == [s[start..e]] + Tokens(CString(s[e + 1..]), d)
  {
    TokenText(s, u, d);
    SplitText(s, start, c, d, e);
  }

  /** The split of the text from start at the byte e that closes its token. */
  lemma SplitText(s: seq<Byte>, start: nat, c: Byte, d: Byte, e: nat)
    requires start <= |s| && var w := CString(s[start..]); Span(w, c) < |w| && e == start + Span(w, c)
    ensures e < |s| && e - start <= |CString(s[start..])| && CString(s[start..])[..e - start] == s[start..e]
    ensures TokenSplit(CString(s[start..]), c, d) == [s[start..e]] + Tokens(CString(s[e + 1..]), d)
  {
    var w := CString(s[start..]);
    SplitAt(w, c, d);
    CStringAfter(s, start, e + 1);
    CStringPrefix(s, start, e);
  }

  /** CStringFrom with the index after the dropped bytes. */
  lemma CStringAfter(s: seq<Byte>, t: nat, m: nat)
    requires t <= m && t <= |s| && m - t <= |CString(s[t..])|
    ensures CString(s[t..])[m - t..] == CString(s[m..])
  {
    CStringFrom(s, t, m - t);
  }

  /** The arguments of a text whose first token runs to its end. */
  lemma RunText(s: seq<Byte>, u: nat, d: Byte, start: nat, c: Byte)
    requires u < |s| && s[u] != 0 && s[u] != d
    requires start == (if s[u] == QUOTE then u + 1 else u) && c == (if s[u] == QUOTE then QUOTE else d)
    requires start <= |s| && var w := CString(s[start..]); Span(w, c) == |w|
    ensures Tokens(CString(s[u..]), d) == [CString(s[start..])]
  {
    TokenText(s, u, d);
  }

  /** A token closed at e: the parse goes on after the NUL written at e,
      and the token reads back as the bytes before e. */
  lemma {:induction false} CutCase(s: seq<Byte>, u: nat, args: seq<nat>, d: Byte, start: nat, e: nat)
    requires u <= start <= e && e + 1 < |s| && |args| < MAX_ARG_NUM - 1 && NulFrom(s[e := 0], e + 1)
    requires e - start <= |CString(s[start..])| && CString(s[start..])[..e - start] == s[start..e]
    ensures ReadsAs(s, u, args, ParseFrom(s[e := 0], e + 1, args + [start], d), [s[start..e]] + Tokens(CString(s[e + 1..]), d))
    decreases |s| - u, 1
  {
    var s' := s[e := 0];
    var r := ParseFrom(s', e + 1, args + [start], d);
    ArgAt(s', e + 1, args, start, d);
    ParseFromTokens(s', e + 1, args + [start], d);
    assert s'[e + 1..] == s[e + 1..];
    CutReadsBack(s, start, e, r.buf);
    assert r.buf[..u] == r.buf[..e + 1][..u];
    CutCombine(s, u, args, start, e, r, s[start..e], Tokens(CString(s[e + 1..]), d));
  }

  /** The parse after a cut keeps the start just recorded. */
  lemma ArgAt(s: seq<Byte>, t: nat, args: seq<nat>, start: nat, d: Byte)
    requires t < |s| && NulFrom(s, t) && |args| < MAX_ARG_NUM - 1
    ensures var r := ParseFrom(s, t, args + [start], d); |args| < |r.args| && r.args[|args|] == start
  {
    var r := ParseFrom(s, t, args + [start], d);
    ParseFromShape(s, t, args + [start], d);
    assert r.args[..|args| + 1] == args + [start];
    assert r.args[|args|] == r.args[..|args| + 1][|args|];
  }

  /** A token that runs to the end of the string ends the parse. */
  lemma RunParse(s: seq<Byte>, u: nat, args: seq<nat>, d: Byte, start: nat, c: Byte)
    requires u < |s| && s[u] != 0 && NulFrom(s, u) && |args| < MAX_ARG_NUM - 1
    requires start == (if s[u] == QUOTE then u + 1 else u) && c == (if s[u] == QUOTE then QUOTE else d)
    requires start < |s| && NulFrom(s, start) && Find(s, start, c).None?
    ensures ParseToken(s, u, args, d) == Parsed(s, args + [start])
  {
    var n := start + LenFrom(s, start);
    TokenRunsOut(s, u, args, d, start, c, n);
    LenFromEnds(s, start);
    assert ParseFrom(s, n, args + [start], d) == Parsed(s, args + [start]);
  }

  /** A parse that records just the token at start. */
  lemma ReadsOne(s: seq<Byte>, u: nat, args: seq<nat>, start: nat, w: seq<Byte>)
    requires u <= start <= |s| && |args| < MAX_ARG_NUM - 1 && w == CString(s[start..])
    ensures ReadsAs(s, u, args, Parsed(s, args + [start]), [w])
  {
  }

  /** The front of a C string is the front of the buffer it is read from. */
  lemma CStringPrefix(s: seq<Byte>, t: nat, e: nat)
    requires t <= e <= |s| && e - t <= |CString(s[t..])|
    ensures CString(s[t..])[..e - t] == s[t..e]
  {
    var w := CString(s[t..]);
    assert w[..e - t] == s[t..][..|w|][..e - t];
  }

  /** The bytes of a token cut at e read back, from its start, as the
      bytes before e. */
  lemma CutReadsBack(s: seq<Byte>, start: nat, e: nat, b: seq<Byte>)
    requires start <= e < |s| && |b| == |s| && b[..e + 1] == s[e := 0][..e + 1]
    requires e - start <= |CString(s[start..])| && CString(s[start..])[..e - start] == s[start..e]
    ensures CString(b[start..]) == s[start..e]
  {
    forall j | start <= j < e
      ensures b[j] == s[j] && b[j] != 0
    {
      assert b[j] == b[..e + 1][j];
      assert s[j] == s[start..e][j - start];
    }
    assert b[e] == b[..e + 1][e];
    ReadsBackTo(b, start, e);
    assert b[start..e] == s[start..e];
  }

  /** The text split at a closing byte. */
  lemma SplitAt(body: seq<Byte>, c: Byte, d: Byte)
    requires Span(body, c) < |body|
    ensures TokenSplit(body, c, d) == [body[..Span(body, c)]] + Tokens(body[Span(body, c) + 1..], d)
  {
  }

  /** The token tok recorded at args' slot, followed by what the parse
      after it records, is the parse from u. */
  lemma CutCombine(s: seq<Byte>, u: nat, args: seq<nat>, start: nat, e: nat, r: Parsed, tok: seq<Byte>, rest: seq<seq<Byte>>)
    requires u <= e && e + 1 < |s| && |args| < MAX_ARG_NUM - 1
    requires |r.buf| == |s| && r.buf[..u] == s[..u]
    requires |args| < |r.args| && r.args[|args|] == start <= |r.buf| && CString(r.buf[start..]) == tok
    requires ReadsAs(s[e := 0], e + 1, args + [start], r, rest)
    ensures ReadsAs(s, u, args, r, [tok] + rest)
  {
    var ts := [tok] + rest;
    forall k | |args| <= k < |r.args|
      ensures r.args[k] <= |r.buf| && CString(r.buf[r.args[k]..]) == ts[k - |args|]
    {
      if k > |args| {
        assert ts[k - |args|] == rest[k - |args| - 1];
      }
    }
  }

  /** parse_command's arguments read back as the arguments of the line:
      argc is the number of them, cut at MAX_ARG_NUM - 1, and argv[k]
      points at the k-th. */
  lemma ParseCommandTokens(s: seq<Byte>, d: Byte)
    requires Terminated(s)
    ensures var r := ParseFrom(s, 0, [], d);
      var ts := Tokens(CString(s), d);
      && |r.args| == Min(|ts|, MAX_ARG_NUM - 1)
      && forall k :: 0 <= k < |r.args| ==> r.args[k] <= |r.buf| && CString(r.buf[r.args[k]..]) == ts[k]
  {
    TerminatedFromStart(s);
    assert s[0..] == s;
    var none: seq<nat> := [];
    ParseFromTokens(s, 0, none, d);
    var r, ts := ParseFrom(s, 0, none, d), Tokens(CString(s), d);
    assert ReadsAs(s, 0, none, r, ts);
    forall k | 0 <= k < |r.args|
      ensures r.args[k] <= |r.buf| && CString(r.buf[r.args[k]..]) == ts[k]
    {
      assert |none| <= k && k - |none| == k;
    }
  }

  /** The argv array as parse_command leaves it: the argument starts, then
      NULL up to MAX_ARG_NUM. */
  function Slots(args: seq<nat>): (r: seq<Option<nat>>)
    ensures |r| == MAX_ARG_NUM
  {
    seq(MAX_ARG_NUM, i => if 0 <= i < |args| then Some(args[i]) else None)
  }

  /** Recording one more start in the next slot. */
  lemma SlotsPush(v: seq<Option<nat>>, args: seq<nat>, start: nat)
    requires |v| >= MAX_ARG_NUM && |args| < MAX_ARG_NUM && v[..MAX_ARG_NUM] == Slots(args)
    ensures v[|args| := Some(start)][..MAX_ARG_NUM] == Slots(args + [start])
    ensures v[|args| := Some(start)][MAX_ARG_NUM..] == v[MAX_ARG_NUM..]
  {
    var w := v[|args| := Some(start)];
    forall i | 0 <= i < MAX_ARG_NUM
      ensures w[i] == Slots(args + [start])[i]
    {
      assert v[i] == Slots(args)[i];
    }
  }

  /** The delimiter-skipping loop. */
  method SkipDelims(buf: array<Byte>, t: nat, d: Byte) returns (u: nat)
    requires t < buf.Length && NulFrom(buf[..], t) && (buf[t] != 0 || d != 0)
    ensures u == Skip(buf[..], t, d)
  {
    u := t;
    while buf[u] == d
      invariant t <= u < buf.Length && NulFrom(buf[..], u) && (buf[u] != 0 || d != 0)
      invariant Skip(buf[..], t, d) == Skip(buf[..], u, d)
      decreases buf.Length - u
    {
      u := u + 1;
    }
  }

  /** strchr(buf + t, c). */
  method FindFrom(buf: array<Byte>, t: nat, c: Byte) returns (r: Option<nat>)
    requires t < buf.Length && NulFrom(buf[..], t)
    ensures r == Find(buf[..], t, c)
  {
    ghost var s := buf[..];
    LenFromEnds(s, t);
    ghost var n := t + LenFrom(s, t);
    var i := t;
    while buf[i] != 0
      invariant t <= i <= n && Find(s, t, c) == ShiftBy(StrChrSpec(s[i..], c), i)
      decreases n - i
    {
      if i == n {
        assert false;
      }
      StrChrStep(Find(s, t, c), s, i, c);
      if Signed(buf[i]) == c {
        return Some(i);
      }
      i := i + 1;
    }
    assert s[i..][0] == 0;
    return None;
  }

  /** strlen(buf + t). */
  method LenAt(buf: array<Byte>, t: nat) returns (n: nat)
    requires t < buf.Length && NulFrom(buf[..], t)
    ensures n == LenFrom(buf[..], t)
  {
    LenFromEnds(buf[..], t);
    n := 0;
    while buf[t + n] != 0
      invariant t + n <= t + LenFrom(buf[..], t)
      decreases LenFrom(buf[..], t) - n
    {
      n := n + 1;
    }
  }

  /** ParseToken unfolded for a token that ends at the byte e. */
  lemma TokenEndsAt(s: seq<Byte>, u: nat, args: seq<nat>, d: Byte, start: nat, c: Byte, e: nat)
    requires u < |s| && s[u] != 0 && NulFrom(s, u) && |args| < MAX_ARG_NUM - 1
    requires start == (if s[u] == QUOTE then u + 1 else u) && c == (if s[u] == QUOTE then QUOTE else d)
    requires start < |s| && NulFrom(s, start) && Find(s, start, c) == Some(e)
    ensures u < e + 1 < |s| && NulFrom(s[e := 0], e + 1)
    ensures ParseToken(s, u, args, d) == ParseFrom(s[e := 0], e + 1, args + [start], d)
  {
    Resume(s, start, c);
  }

  /** ParseToken unfolded for a token that runs to the end of the string,
      which is at n. */
  lemma TokenRunsOut(s: seq<Byte>, u: nat, args: seq<nat>, d: Byte, start: nat, c: Byte, n: nat)
    requires u < |s| && s[u] != 0 && NulFrom(s, u) && |args| < MAX_ARG_NUM - 1
    requires start == (if s[u] == QUOTE then u + 1 else u) && c == (if s[u] == QUOTE then QUOTE else d)
    requires start < |s| && NulFrom(s, start) && Find(s, start, c).None?
    requires n == start + LenFrom(s, start)
    ensures u < n < |s| && NulFrom(s, n)
    ensures ParseToken(s, u, args, d) == ParseFrom(s, n, args + [start], d)
  {
    Resume(s, start, c);
    assert s[n] == 0 && u <= start <= n;
  }

  /** The body of the tokenizer loop for a token at u: record its start in
      argv[argc], end it with a NUL, and move past it. */
  method TakeToken(buf: array<Byte>, argv: array<Option<nat>>, u: nat, argc: nat, ghost args: seq<nat>, d: Byte)
    returns (t: nat, start: nat)
    requires argc == |args| < MAX_ARG_NUM - 1 && argv.Length >= MAX_ARG_NUM
    requires u < buf.Length && buf[u] != 0 && NulFrom(buf[..], u)
    modifies buf, argv
    ensures argv[..] == old(argv[..])[argc := Some(start)]
    ensures u < t < buf.Length && NulFrom(buf[..], t)
    ensures ParseFrom(buf[..], t, args + [start], d) == ParseToken(old(buf[..]), u, args, d)
  {
    ghost var s := buf[..];
    var c := d;
    start := u;
    if buf[u] == QUOTE {
      start := u + 1;
      c := QUOTE;
    }
    assert start < buf.Length && NulFrom(s, start) by {
      var k :| u <= k < |s| && s[k] == 0;
    }
    argv[argc] := Some(start);
    t := CutToken(buf, u, args, d, start, c);
  }

  /** End the token that starts at `start` with a NUL at the first `c`,
      or let it run to the string's NUL, and move past it. */
  method CutToken(buf: array<Byte>, u: nat, ghost args: seq<nat>, d: Byte, start: nat, c: Byte) returns (t: nat)
    requires u < buf.Length && buf[u] != 0 && NulFrom(buf[..], u) && |args| < MAX_ARG_NUM - 1
    requires start == (if buf[u] == QUOTE then u + 1 else u) && c == (if buf[u] == QUOTE then QUOTE else d)
    requires start < buf.Length && NulFrom(buf[..], start)
    modifies buf
    ensures u < t < buf.Length && NulFrom(buf[..], t)
    ensures ParseFrom(buf[..], t, args + [start], d) == ParseToken(old(buf[..]), u, args, d)
  {
    ghost var s := buf[..];
    var e := FindFrom(buf, start, c);
    if e.Some? {
      Resume(s, start, c);
      buf[e.value] := 0;
      t := e.value + 1;
      assert buf[..] == s[e.value := 0];
      TokenCut(s, buf[..], u, args, d, start, c, e.value);
      assert ParseFrom(buf[..], t, args + [start], d) == ParseToken(s, u, args, d);
    } else {
      var n := LenAt(buf, start);
      t := start + n;
      TokenRunsOut(s, u, args, d, start, c, t);
      assert buf[..] == s;
      assert ParseFrom(buf[..], t, args + [start], d) == ParseToken(s, u, args, d);
    }
  }

  /** TokenEndsAt, stated for the buffer b the cut leaves. */
  lemma TokenCut(s: seq<Byte>, b: seq<Byte>, u: nat, args: seq<nat>, d: Byte, start: nat, c: Byte, e: nat)
    requires u < |s| && s[u] != 0 && NulFrom(s, u) && |args| < MAX_ARG_NUM - 1
    requires start == (if s[u] == QUOTE then u + 1 else u) && c == (if s[u] == QUOTE then QUOTE else d)
    requires start < |s| && NulFrom(s, start) && Find(s, start, c) == Some(e)
    requires e < |s| && b == s[e := 0]
    ensures u < e + 1 < |b| && NulFrom(b, e + 1)
    ensures ParseFrom(b, e + 1, args + [start], d) == ParseToken(s, u, args, d)
  {
    TokenEndsAt(s, u, args, d, start, c, e);
  }

  /** The loop that sets argv[0..MAX_ARG_NUM) to NULL. */
  method ClearArgs(argv: array<Option<nat>>)
    requires argv.Length >= MAX_ARG_NUM
    modifies argv
    ensures argv[..MAX_ARG_NUM] == Slots([]) && argv[MAX_ARG_NUM..] == old(argv[MAX_ARG_NUM..])
  {
    var i := 0;
    while i < MAX_ARG_NUM
      invariant i <= MAX_ARG_NUM && argv[MAX_ARG_NUM..] == old(argv[MAX_ARG_NUM..])
      invariant forall k :: 0 <= k < i ==> argv[k] == None
    {
      argv[i] := None;
      i := i + 1;
    }
  }

  lemma TerminatedFromStart(s: seq<Byte>)
    requires Terminated(s)
    ensures NulFrom(s, 0)
  {
    var k :| 0 <= k < |s| && s[k] == 0;
    assert 0 <= k < |s| && s[k] == 0;
  }

  /** parse_command: splits the NUL-terminated command line in place and
      fills argv; the result is exactly ParseFrom from the first byte. */
  method ParseCommand(buf: array<Byte>, argv: array<Option<nat>>, d: Byte) returns (argc: nat)
    requires Terminated(buf[..]) && argv.Length >= MAX_ARG_NUM
    modifies buf, argv
    ensures var p := ParseFrom(old(buf[..]), 0, [], d);
      && buf[..] == p.buf && argc == |p.args|
      && argv[..MAX_ARG_NUM] == Slots(p.args)
      && argv[MAX_ARG_NUM..] == old(argv[MAX_ARG_NUM..])
  {
    ghost var s0 := buf[..];
    TerminatedFromStart(s0);
    ClearArgs(argv);
    argc := 0;
    var token := 0;
    ghost var args: seq<nat> := [];
    while buf[token] != 0 && argc < MAX_ARG_NUM - 1
      invariant token < buf.Length && NulFrom(buf[..], token) && argc == |args| < MAX_ARG_NUM
      invariant argv[..MAX_ARG_NUM] == Slots(args) && argv[MAX_ARG_NUM..] == old(argv[MAX_ARG_NUM..])
      invariant ParseFrom(buf[..], token, args, d) == ParseFrom(s0, 0, [], d)
      decreases buf.Length - token
    {
      var u := SkipDelims(buf, token, d);
      if buf[u] == 0 {
        break;
      }
      var start;
      ghost var slots := argv[..];
      token, start := TakeToken(buf, argv, u, argc, args, d);
      SlotsPush(slots, args, start);
      args := args + [start];
      argc := argc + 1;
    }
    assert ParseFrom(buf[..], token, args, d) == Parsed(buf[..], args);
  }
}
