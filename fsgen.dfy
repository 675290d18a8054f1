/** The build-time file-system generator fs.py: for the files named on
    its command line it writes an assembly source that holds a lookup
    routine comparing a requested name with each file's name, one
    `.found_N` exit per file, the list of names, and each file's name and
    contents as data, the contents escaped byte by byte.

    The generated text is modelled as a sequence of chunks, one per
    template the script fills in; the literal assembly of each template is
    not spelled out. Whether a file exists and what it holds are inputs. */
module FsGen {
  import opened Machine

  // ----- labels -----

  /** The index of the last `ch` in `p`, or -1. */
  function RFind(p: string, ch: char): (r: int)
    ensures -1 <= r < |p|
    ensures r >= 0 ==> p[r] == ch
    ensures forall k :: r < k < |p| ==> p[k] != ch
    decreases |p|
  {
    if p == [] then -1 else if p[|p| - 1] == ch then |p| - 1 else RFind(p[..|p| - 1], ch)
  }

  /** Whether every character of p[lo..hi] is a dot. */
  predicate AllDots(p: string, lo: int, hi: int)
    requires 0 <= lo && hi <= |p|
  {
    forall k :: lo <= k < hi ==> p[k] == '.'
  }

  /** os.path.splitext(p)[0] on POSIX: the text before the last '.' when
      that dot lies in the last path component and is not one of its
      leading dots; otherwise p itself. */
  function SplitextRoot(p: string): (r: string)
    ensures |r| <= |p| && r == p[..|r|]
  {
    var sepIndex := RFind(p, '/');
    var dotIndex := RFind(p, '.');
    if dotIndex > sepIndex && !AllDots(p, sepIndex + 1, dotIndex) then p[..dotIndex] else p
  }

  /** A file name with one extension loses exactly that extension. */
  lemma SplitextStripsExtension(base: string, ext: string)
    requires base != [] && base[0] != '.'
    requires forall k :: 0 <= k < |base| ==> base[k] != '/'
    requires forall k :: 0 <= k < |ext| ==> ext[k] != '.' && ext[k] != '/'
    ensures SplitextRoot(base + "." + ext) == base
  {
    var p := base + "." + ext;
    assert p[|base|] == '.';
    assert forall k :: 0 <= k < |p| ==> p[k] != '/';
    assert RFind(p, '/') == -1;
    assert RFind(p, '.') == |base|;
    assert p[0] != '.';
    assert p[..|base|] == base;
  }

  /** str.replace(a, b) for single characters. */
  function Replace(s: string, a: char, b: char): (r: string)
    ensures |r| == |s|
    ensures forall k :: 0 <= k < |s| ==> r[k] == if s[k] == a then b else s[k]
  {
    seq(|s|, k requires 0 <= k < |s| => if s[k] == a then b else s[k])
  }

  /** clean_base: the root of the name with '.' and then ' ' replaced by
      '_'. */
  function Label(filename: string): string
  {
    Replace(Replace(SplitextRoot(filename), '.', '_'), ' ', '_')
  }

  /** A label holds neither '.' nor ' ', and keeps every other character
      of the root in place. */
  lemma LabelClean(filename: string)
    ensures var root := SplitextRoot(filename);
            var l := Label(filename);
            |l| == |root|
            && (forall k :: 0 <= k < |l| ==> l[k] != '.' && l[k] != ' ')
            && (forall k :: 0 <= k < |l| && root[k] != '.' && root[k] != ' ' ==> l[k] == root[k])
  {
  }

  /** A plain name with one extension is labelled by its base. */
  lemma LabelOfPlainName(base: string, ext: string)
    requires base != [] && base[0] != '.'
    requires forall k :: 0 <= k < |base| ==> base[k] != '/' && base[k] != '.' && base[k] != ' '
    requires forall k :: 0 <= k < |ext| ==> ext[k] != '.' && ext[k] != '/'
    ensures Label(base + "." + ext) == base
  {
    SplitextStripsExtension(base, ext);
    assert Replace(base, '.', '_') == base;
    assert Replace(base, ' ', '_') == base;
  }

  /** Files with the same root share a label, so the generated source
      defines `file_a_name` twice for "a.txt" and "a.bin". */
  lemma LabelsCollide()
    ensures Label("a.txt") == Label("a.bin") == "a"
  {
    LabelOfPlainName("a", "txt");
    assert "a" + "." + "txt" == "a.txt";
    LabelOfPlainName("a", "bin");
    assert "a" + "." + "bin" == "a.bin";
  }

  // ----- escaping -----

  function HexDigit(d: nat): char
    requires d < 16
  {
    if d < 10 then (48 + d) as char else (87 + d) as char
  }

  predicate IsHex(ch: char)
  {
    '0' <= ch <= '9' || 'a' <= ch <= 'f' || 'A' <= ch <= 'F'
  }

  function HexVal(ch: char): (v: nat)
    requires IsHex(ch)
    ensures v < 16
  {
    if '0' <= ch <= '9' then ch as int - 48 else if 'a' <= ch <= 'f' then ch as int - 87 else ch as int - 55
  }

  /** One content byte as the script writes it: NUL as `\0`, the quote
      as `\'`, the backslash as `\\`, other printable ASCII as itself and
      anything else as `\x` and two lowercase hex digits. The quote and
      the backslash are tested before the printable range. */
  function EscapeByte(b: Byte): string
  {
    if b == 0 then "\\0"
    else if b == 0x27 then "\\'"
    else if b == 0x5C then "\\\\"
    else if 32 <= b <= 126 then [b as char]
    else "\\x" + [HexDigit(b / 16), HexDigit(b % 16)]
  }

  /** The escapes of a whole content, in order, as the `escaped` list
      holds them. */
  function EscapeList(content: seq<Byte>): (r: seq<string>)
    ensures |r| == |content|
    ensures forall k :: 0 <= k < |r| ==> r[k] == EscapeByte(content[k])
  {
    if content == [] then [] else EscapeList(content[..|content| - 1]) + [EscapeByte(content[|content| - 1])]
  }

  /** ''.join(strings). */
  function Concat(strings: seq<string>): string
  {
    if strings == [] then "" else Concat(strings[..|strings| - 1]) + strings[|strings| - 1]
  }

  /** The escaped text of a content. */
  function Escaped(content: seq<Byte>): string
  {
    Concat(EscapeList(content))
  }

  lemma {:induction false} ConcatCons(s: string, strings: seq<string>)
    ensures Concat([s] + strings) == s + Concat(strings)
    decreases |strings|
  {
    if strings != [] {
      var all := [s] + strings;
      assert all[..|all| - 1] == [s] + strings[..|strings| - 1];
      ConcatCons(s, strings[..|strings| - 1]);
    } else {
      assert Concat([s]) == Concat([]) + s;
    }
  }

  /** The escaped text is the escape of the first byte followed by that of
      the rest. */
  lemma EscapedCons(b: Byte, content: seq<Byte>)
    ensures Escaped([b] + content) == EscapeByte(b) + Escaped(content)
  {
    assert EscapeList([b] + content) == [EscapeByte(b)] + EscapeList(content);
    ConcatCons(EscapeByte(b), EscapeList(content));
  }

  /** Every character the escaping writes is printable ASCII, so the
      text fits between the quotes on one source line. */
  lemma {:induction false} EscapedPrintable(content: seq<Byte>)
    ensures forall k :: 0 <= k < |Escaped(content)| ==> 32 <= Escaped(content)[k] as int <= 126
    decreases |content|
  {
    if content != [] {
      var b := content[0];
      EscapedPrintable(content[1..]);
      assert content == [b] + content[1..];
      EscapedCons(b, content[1..]);
      var e := EscapeByte(b);
      assert forall k :: 0 <= k < |e| ==> 32 <= e[k] as int <= 126;
    }
  }

  /** The escape loop of the script: the `escaped` list, one entry per
      byte, appended in order. */
  method EscapeContent(content: seq<Byte>) returns (escaped: seq<string>)
    ensures escaped == EscapeList(content)
  {
    escaped := [];
    for k := 0 to |content|
      invariant escaped == EscapeList(content[..k])
    {
      assert content[..k + 1][..k] == content[..k];
      escaped := escaped + [EscapeByte(content[k])];
    }
    assert content[..|content|] == content;
  }

  // ----- how the assembler reads the quoted text -----

  /** The bytes NASM assembles from the single-quoted literal `'s'`: a
      single-quoted string is taken verbatim (no backslash escapes) and
      ends at the next quote. */
  function SingleQuotedBody(s: string): string
  {
    if s == [] || s[0] == '\'' then [] else [s[0]] + SingleQuotedBody(s[1..])
  }

  lemma EscapedQuoteThenA()
    ensures Escaped([0x27, 0x41]) == "\\'A"
  {
    var c: seq<Byte> := [0x27, 0x41];
    var l := EscapeList(c);
    assert l == [EscapeByte(0x27), EscapeByte(0x41)];
    assert EscapeByte(0x27) == "\\'" && EscapeByte(0x41) == "A";
    assert l[..1] == ["\\'"] && l[..1][..0] == [];
    assert Concat(l[..1]) == Concat([]) + "\\'";
    assert Concat(l) == Concat(l[..1]) + "A";
  }

  /** As written: inside the single quotes the script emits, a content
      quote ends the string after the backslash, and a NUL is assembled as
      the two characters `\0`. */
  lemma SingleQuotesTakeEscapesVerbatim()
    ensures SingleQuotedBody(Escaped([0x27, 0x41])) == "\\"
    ensures SingleQuotedBody(Escaped([0])) == "\\0"
  {
    EscapedQuoteThenA();
    var t := "\\'A";
    assert t[1..][0] == '\'';
    assert SingleQuotedBody(t) == [t[0]] + SingleQuotedBody(t[1..]);
    var l := EscapeList([0]);
    assert l == [EscapeByte(0)] && l[..0] == [];
    assert Escaped([0]) == Concat([]) + "\\0";
    var z := "\\0";
    assert z[1..][1..] == [];
    assert SingleQuotedBody(z) == [z[0]] + ([z[1]] + SingleQuotedBody(z[1..][1..]));
  }

  /** A C-style escape sequence the way NASM reads one in a backquoted
      string, applied to the text after the backslash: `\\`, `\'`, `\"`
      and `` \` `` stand for the character, up to three octal digits or
      `x` and up to two hex digits for a byte. The other escapes (and
      octal values above 255) are outside this model: None. */
  function Prepend(b: Byte, rest: Option<seq<Byte>>): Option<seq<Byte>>
  {
    if rest.Some? then Some([b] + rest.value) else None
  }

  predicate IsOctal(ch: char) { '0' <= ch <= '7' }

  function OctVal(ch: char): nat
    requires IsOctal(ch)
  {
    ch as int - 48
  }

  /** The escape sequence at the start of s (which starts with a
      backslash) and how many characters it takes. */
  function EscapeSeq(s: string): (r: Option<(Byte, nat)>)
    requires |s| >= 1 && s[0] == '\\'
    ensures r.Some? ==> 2 <= r.value.1 <= |s|
  {
    if |s| < 2 then None
    else if s[1] == '\\' || s[1] == '\'' || s[1] == '"' || s[1] == '`' then Some((s[1] as int, 2))
    else if IsOctal(s[1]) then
      if |s| >= 4 && IsOctal(s[2]) && IsOctal(s[3]) then
        var v := OctVal(s[1]) * 64 + OctVal(s[2]) * 8 + OctVal(s[3]);
        if v < 0x100 then Some((v, 4)) else None
      else if |s| >= 3 && IsOctal(s[2]) then Some((OctVal(s[1]) * 8 + OctVal(s[2]), 3))
      else Some((OctVal(s[1]), 2))
    else if s[1] == 'x' && |s| >= 3 && IsHex(s[2]) then
      if |s| >= 4 && IsHex(s[3]) then Some((HexVal(s[2]) * 16 + HexVal(s[3]), 4))
      else Some((HexVal(s[2]), 3))
    else None
  }

  /** The bytes NASM assembles from the backquoted literal `` `s` ``. */
  function Backquoted(s: string): Option<seq<Byte>>
    decreases |s|
  {
    if s == [] then Some([])
    else if s[0] == '`' then None
    else if s[0] != '\\' then
      if s[0] as int < 0x100 then Prepend(s[0] as int, Backquoted(s[1..])) else None
    else
      match EscapeSeq(s)
      case None => None
      case Some(e) => Prepend(e.0, Backquoted(s[e.1..]))
  }

  lemma EscapedNulDigit()
    ensures Escaped([0, 0x31]) == "\\01"
  {
    var c: seq<Byte> := [0, 0x31];
    var l := EscapeList(c);
    assert l == [EscapeByte(0), EscapeByte(0x31)];
    assert EscapeByte(0) == "\\0" && EscapeByte(0x31) == "1";
    assert l[..1] == ["\\0"] && l[..1][..0] == [];
    assert Concat(l[..1]) == Concat([]) + "\\0";
    assert Concat(l) == Concat(l[..1]) + "1";
  }

  lemma BackquotedNulDigit()
    ensures Backquoted("\\01") == Some([1])
  {
    var t := "\\01";
    assert t[0] == '\\' && t[1] == '0' && t[2] == '1' && |t| == 3;
    assert EscapeSeq(t) == Some((1, 3));
    assert t[3..] == [];
    assert Backquoted(t[3..]) == Some([]);
    assert Backquoted(t) == Prepend(1, Backquoted(t[3..]));
    var one: seq<Byte> := [1];
    var none: seq<Byte> := [];
    assert [1] + none == one;
  }

  /** As written, even in backquotes `\0` is not a NUL when a digit
      follows it: a NUL and then '1' read back as the single byte 1. */
  lemma NulEscapeSwallowsDigit()
    ensures Backquoted(Escaped([0, 0x31])) == Some([1])
  {
    EscapedNulDigit();
    BackquotedNulDigit();
  }

  /** The escaping evidently intended: every byte reproduced in a
      backquoted literal, so NUL is written `\x00` (no digit after it can
      extend it) and the backquote itself is escaped. */
  function EscapeByteBackquoted(b: Byte): string
  {
    if b == 0 then "\\x00"
    else if b == 0x27 then "\\'"
    else if b == 0x5C then "\\\\"
    else if b == 0x60 then "\\`"
    else if 32 <= b <= 126 then [b as char]
    else "\\x" + [HexDigit(b / 16), HexDigit(b % 16)]
  }

  function EscapedBackquoted(content: seq<Byte>): string
  {
    if content == [] then "" else EscapeByteBackquoted(content[0]) + EscapedBackquoted(content[1..])
  }

  /** The two hex digits of a byte read back as the byte. */
  lemma HexDigitsRoundTrip(b: Byte)
    ensures IsHex(HexDigit(b / 16)) && IsHex(HexDigit(b % 16))
    ensures HexVal(HexDigit(b / 16)) * 16 + HexVal(HexDigit(b % 16)) == b
  {
  }

  /** One escaped byte reads back as that byte, whatever follows it. */
  lemma BackquotedByte(b: Byte, rest: string)
    ensures Backquoted(EscapeByteBackquoted(b) + rest) == Prepend(b, Backquoted(rest))
  {
    var e := EscapeByteBackquoted(b);
    var s := e + rest;
    if b == 0 {
      assert s[0] == '\\' && s[1] == 'x' && s[2] == '0' && s[3] == '0' && s[4..] == rest;
    } else if b == 0x27 || b == 0x5C || b == 0x60 {
      assert s[0] == '\\' && s[2..] == rest;
    } else if 32 <= b <= 126 {
      assert s[0] == b as char && s[1..] == rest;
    } else {
      HexDigitsRoundTrip(b);
      assert s[0] == '\\' && s[1] == 'x' && s[2] == HexDigit(b / 16) && s[3] == HexDigit(b % 16);
      assert s[4..] == rest;
    }
  }

  /** With the intended escaping the assembler reproduces every content
      exactly. */
  lemma {:induction false} BackquotedRoundTrip(content: seq<Byte>)
    ensures Backquoted(EscapedBackquoted(content)) == Some(content)
    decreases |content|
  {
    if content != [] {
      BackquotedRoundTrip(content[1..]);
      BackquotedByte(content[0], EscapedBackquoted(content[1..]));
      assert [content[0]] + content[1..] == content;
    }
  }

  // ----- the generated source -----

  /** The templates create_fs_asm fills in, in the order it appends them:
      the header with the file count, a name check per file jumping to
      `.found_<found>`, the not-found exit, a `.found_<found>` exit per
      file, the string comparison routine, the `file_names` data, and a
      name and content data pair per file. */
  datatype Chunk =
    | Header(count: nat)
    | Check(filename: string, base: string, found: nat)
    | NotFound
    | Found(found: nat, base: string)
    | StrCompare
    | FileNames(names: string)
    | FileData(filename: string, base: string, content: string)

  /** The three loops over the files that emit one chunk per file. */
  datatype Pass = Checks | Exits | Data

  /** The chunk a pass emits for the file at index i of the arguments. */
  function ChunkFor(pass: Pass, files: seq<string>, read: string -> seq<Byte>, i: nat): Chunk
    requires i < |files|
  {
    match pass
    case Checks => Check(files[i], Label(files[i]), i + 1)
    case Exits => Found(i + 1, Label(files[i]))
    case Data => FileData(files[i], Label(files[i]), Escaped(read(files[i])))
  }

  /** The chunks a pass emits for files[..n]: missing files are skipped,
      the others keep their argument index. */
  function PassUpTo(pass: Pass, files: seq<string>, present: string -> bool, read: string -> seq<Byte>, n: nat): seq<Chunk>
    requires n <= |files|
  {
    if n == 0 then []
    else PassUpTo(pass, files, present, read, n - 1)
         + (if present(files[n - 1]) then [ChunkFor(pass, files, read, n - 1)] else [])
  }

  /** The argument indices below n of the files that exist, in order. */
  function Present(files: seq<string>, present: string -> bool, n: nat): (p: seq<nat>)
    requires n <= |files|
    ensures forall j :: 0 <= j < |p| ==> p[j] < n
  {
    if n == 0 then [] else Present(files, present, n - 1) + (if present(files[n - 1]) then [n - 1] else [])
  }

  /** The present indices are exactly the existing files, each once, in
      increasing order. */
  lemma {:induction false} PresentExact(files: seq<string>, present: string -> bool, n: nat)
    requires n <= |files|
    ensures var p := Present(files, present, n);
            (forall j :: 0 <= j < |p| ==> p[j] < n && present(files[p[j]]))
            && (forall j, k :: 0 <= j < k < |p| ==> p[j] < p[k])
            && (forall i :: 0 <= i < n && present(files[i]) ==> i in p)
  {
    if n > 0 {
      PresentExact(files, present, n - 1);
    }
  }

  /** A pass emits, in order, the chunk of each present file and nothing
      else. */
  lemma {:induction false} PassFollowsPresent(pass: Pass, files: seq<string>, present: string -> bool, read: string -> seq<Byte>, n: nat)
    requires n <= |files|
    ensures var p := Present(files, present, n);
            var c := PassUpTo(pass, files, present, read, n);
            |c| == |p| && forall j :: 0 <= j < |c| ==> c[j] == ChunkFor(pass, files, read, p[j])
  {
    if n > 0 {
      PassFollowsPresent(pass, files, present, read, n - 1);
    }
  }

  /** name_list for files[..n]: each existing name quoted with a trailing
      space. */
  function NameList(files: seq<string>, present: string -> bool, n: nat): seq<string>
    requires n <= |files|
  {
    if n == 0 then [] else NameList(files, present, n - 1) + (if present(files[n - 1]) then ["'" + files[n - 1] + " '"] else [])
  }

  /** sep.join(strings). */
  function Join(sep: string, strings: seq<string>): string
  {
    if strings == [] then ""
    else if |strings| == 1 then strings[0]
    else Join(sep, strings[..|strings| - 1]) + sep + strings[|strings| - 1]
  }

  /** The name list quotes the present files in order. */
  lemma {:induction false} NameListFollowsPresent(files: seq<string>, present: string -> bool, n: nat)
    requires n <= |files|
    ensures var p := Present(files, present, n);
            var l := NameList(files, present, n);
            |l| == |p| && forall j :: 0 <= j < |l| ==> l[j] == "'" + files[p[j]] + " '"
  {
    if n > 0 {
      NameListFollowsPresent(files, present, n - 1);
    }
  }

  /** The `file_names` data: the joined list and ",0"; with no file it is
      just ",0". */
  function FileNamesText(files: seq<string>, present: string -> bool): (t: string)
    ensures Present(files, present, |files|) == [] ==> t == ",0"
  {
    NameListFollowsPresent(files, present, |files|);
    Join(", ", NameList(files, present, |files|)) + ",0"
  }

  /** Everything create_fs_asm writes to fs.asm, chunk by chunk. */
  function FsAsm(files: seq<string>, present: string -> bool, read: string -> seq<Byte>): seq<Chunk>
  {
    var n := |files|;
    [Header(n)] + PassUpTo(Checks, files, present, read, n) + [NotFound]
    + PassUpTo(Exits, files, present, read, n) + [StrCompare, FileNames(FileNamesText(files, present))]
    + PassUpTo(Data, files, present, read, n)
  }

  /** One of the per-file loops of create_fs_asm, appending to the
      generated source. */
  method RunPass(pass: Pass, files: seq<string>, present: string -> bool, read: string -> seq<Byte>, asm: seq<Chunk>)
    returns (asm': seq<Chunk>)
    ensures asm' == asm + PassUpTo(pass, files, present, read, |files|)
  {
    asm' := asm;
    for i := 0 to |files|
      invariant asm' == asm + PassUpTo(pass, files, present, read, i)
    {
      ghost var done := PassUpTo(pass, files, present, read, i);
      if present(files[i]) {
        var chunk := MakeChunk(pass, files, read, i);
        assert PassUpTo(pass, files, present, read, i + 1) == done + [chunk];
        asm' := asm' + [chunk];
      } else {
        assert PassUpTo(pass, files, present, read, i + 1) == done;
      }
    }
  }

  /** The chunk one iteration appends; the data pass runs the escape loop
      over the file's contents and joins the pieces. */
  method MakeChunk(pass: Pass, files: seq<string>, read: string -> seq<Byte>, i: nat) returns (chunk: Chunk)
    requires i < |files|
    ensures chunk == ChunkFor(pass, files, read, i)
  {
    if pass == Data {
      var escaped := EscapeContent(read(files[i]));
      chunk := FileData(files[i], Label(files[i]), Concat(escaped));
    } else {
      chunk := ChunkFor(pass, files, read, i);
    }
  }

  /** The loop that builds name_list. */
  method CollectNames(files: seq<string>, present: string -> bool) returns (names: seq<string>)
    ensures names == NameList(files, present, |files|)
  {
    names := [];
    for i := 0 to |files|
      invariant names == NameList(files, present, i)
    {
      if present(files[i]) {
        names := names + ["'" + files[i] + " '"];
      }
    }
  }

  /** create_fs_asm: the header counts every argument, while each of the
      later sections skips the files that do not exist. */
  method CreateFsAsm(files: seq<string>, present: string -> bool, read: string -> seq<Byte>) returns (asm: seq<Chunk>)
    ensures asm == FsAsm(files, present, read)
    ensures asm[0] == Header(|files|)
  {
    asm := [Header(|files|)];
    asm := RunPass(Checks, files, present, read, asm);
    asm := asm + [NotFound];
    asm := RunPass(Exits, files, present, read, asm);
    asm := asm + [StrCompare];
    var names := CollectNames(files, present);
    asm := asm + [FileNames(Join(", ", names) + ",0")];
    asm := RunPass(Data, files, present, read, asm);
  }

  /** The header counts the missing files too: two arguments of which
      only the first exists give a count of 2 but one check and one exit. */
  lemma CountIncludesMissing(read: string -> seq<Byte>)
    ensures var files := ["a.txt", "b.txt"];
            var present := (f: string) => f == "a.txt";
            FsAsm(files, present, read)[0] == Header(2)
            && PassUpTo(Checks, files, present, read, 2) == [Check("a.txt", "a", 1)]
  {
    LabelOfPlainName("a", "txt");
    assert "a" + "." + "txt" == "a.txt";
    var files := ["a.txt", "b.txt"];
    var present := (f: string) => f == "a.txt";
    assert PassUpTo(Checks, files, present, read, 1) == [Check("a.txt", "a", 1)];
    assert !present(files[1]);
  }
}
