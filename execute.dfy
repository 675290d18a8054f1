/** The shell commands' path handling in the kernel's command executor:
    the working directory `current_path` that cd edits, the target
    directory of ls, the leaf name that mkdir and rm act on, and the
    routing of a command line to a built-in or to an external program.
    Paths are C strings, held here by their characters (no NUL); the
    directory lookups of the FAT16 layer are inputs. */
module Execute {
  import opened Machine

  const SLASH: Byte := 0x2F
  const DOT: Byte := 0x2E
  const DIR_TYPE: nat := 0x10
  /** A directory name is cut to the eleven characters of an 8.3 name. */
  const NAME_MAX: nat := 11

  const DOT_DOT: seq<Byte> := [DOT, DOT]
  const DOT_ONLY: seq<Byte> := [DOT]

  /** A path the working directory can hold: it begins and ends with '/'. */
  predicate Rooted(p: seq<Byte>)
  {
    |p| >= 1 && p[0] == SLASH && p[|p| - 1] == SLASH
  }

  predicate NoSlash(s: seq<Byte>)
  {
    forall k :: 0 <= k < |s| ==> s[k] != SLASH
  }

  /** The index of the last '/' at or before i, or -1. */
  function LastSlashFrom(p: seq<Byte>, i: int): (r: int)
    requires -1 <= i < |p|
    ensures -1 <= r <= i && (r >= 0 ==> p[r] == SLASH)
    decreases i + 1
  {
    if i < 0 then -1 else if p[i] == SLASH then i else LastSlashFrom(p, i - 1)
  }

  /** Scanning back over characters that are not '/' changes nothing. */
  lemma {:induction false} LastSlashSkips(p: seq<Byte>, i: int, lo: int)
    requires -1 <= lo <= i < |p|
    requires forall k :: lo < k <= i ==> p[k] != SLASH
    ensures LastSlashFrom(p, i) == LastSlashFrom(p, lo)
    decreases i - lo
  {
    if i > lo {
      LastSlashSkips(p, i - 1, lo);
    }
  }

  /** The backwards scan for '/' from index i. */
  method ScanBack(p: seq<Byte>, i: int) returns (j: int)
    requires -1 <= i < |p|
    ensures j == LastSlashFrom(p, i)
  {
    j := i;
    while j >= 0 && p[j] != SLASH
      invariant -1 <= j <= i
      invariant LastSlashFrom(p, j) == LastSlashFrom(p, i)
    {
      j := j - 1;
    }
  }

  /** `cd ..`: a path of at most one character stays; otherwise the path
      is cut just after the last '/' before its final character, or
      becomes "/" when there is none. */
  function ParentPath(p: seq<Byte>): seq<Byte>
  {
    if |p| <= 1 then p
    else
      var i := LastSlashFrom(p, |p| - 2);
      if i < 0 then [SLASH] else p[..i + 1]
  }

  /** Going up from a rooted path gives a rooted prefix of it. */
  lemma ParentRooted(p: seq<Byte>)
    requires Rooted(p)
    ensures Rooted(ParentPath(p)) && ParentPath(p) <= p
  {
    if |p| > 1 {
      LastSlashFindsRoot(p, |p| - 2);
    }
  }

  /** A scan back in a path that starts with '/' always finds one. */
  lemma {:induction false} LastSlashFindsRoot(p: seq<Byte>, i: int)
    requires 0 <= i < |p| && p[0] == SLASH
    ensures LastSlashFrom(p, i) >= 0
    decreases i
  {
    if i > 0 && p[i] != SLASH {
      LastSlashFindsRoot(p, i - 1);
    }
  }

  /** In dir + name + tail, the last '/' at or before the end of name is
      the one that ends dir. */
  lemma LastSlashOfChild(p: seq<Byte>, name: seq<Byte>, q: seq<Byte>)
    requires |p| >= 1 && p[|p| - 1] == SLASH && NoSlash(name)
    requires |q| >= |p| + |name| && q[..|p| + |name|] == p + name
    ensures LastSlashFrom(q, |p| + |name| - 1) == |p| - 1
  {
    forall k | |p| - 1 < k <= |p| + |name| - 1
      ensures q[k] != SLASH
    {
      assert q[k] == (p + name)[k] == name[k - |p|];
    }
    LastSlashSkips(q, |p| + |name| - 1, |p| - 1);
    assert q[|p| - 1] == (p + name)[|p| - 1];
  }

  /** cd .. undoes a step down into a directory. */
  lemma ParentOfChild(p: seq<Byte>, name: seq<Byte>)
    requires |p| >= 1 && p[|p| - 1] == SLASH && |name| >= 1 && NoSlash(name)
    ensures ParentPath(p + name + [SLASH]) == p
  {
    var q := p + name + [SLASH];
    assert q[..|p| + |name|] == p + name;
    LastSlashOfChild(p, name, q);
    assert q[..|p|] == p;
  }

  /** The new path that cd builds for a name other than ".." and ".": an
      absolute path as given, a relative one after the current path and a
      '/' (when the current path does not end with one); then a final '/'
      when missing. */
  function NewPath(cur: seq<Byte>, path: seq<Byte>): seq<Byte>
  {
    var joined :=
      if |path| > 0 && path[0] == SLASH then path
      else WithSlash(cur) + path;
    WithSlash(joined)
  }

  /** "Ensure the path ends with '/'". */
  function WithSlash(p: seq<Byte>): seq<Byte>
  {
    if |p| > 0 && p[|p| - 1] != SLASH then p + [SLASH] else p
  }

  /** A rooted directory plus a name gives a rooted path that starts with
      the directory, and an absolute name is taken as it is. */
  lemma NewPathShape(cur: seq<Byte>, path: seq<Byte>)
    requires Rooted(cur) && |path| > 0
    ensures Rooted(NewPath(cur, path))
    ensures path[0] != SLASH ==> cur <= NewPath(cur, path)
    ensures path[0] == SLASH ==> NewPath(cur, path) == WithSlash(path)
  {
  }

  /** The first eleven characters. */
  function Take11(s: seq<Byte>): (r: seq<Byte>)
    ensures |r| <= NAME_MAX && r <= s
  {
    if |s| > NAME_MAX then s[..NAME_MAX] else s
  }

  /** The directory name cd looks up: the component before the final '/'
      (after the previous '/'), cut to eleven characters. The other
      branches cover paths with no '/' before the final one and paths that
      do not end with '/'. */
  function DirName(np: seq<Byte>): seq<Byte>
  {
    var last := LastSlashFrom(np, |np| - 1);
    if last >= 0 && last == |np| - 1 then InnerName(np, last, LastSlashFrom(np, last - 1))
    else if last >= 0 then Take11(np[last + 1..])
    else Take11(np)
  }

  /** The name cd looks up for dir + name + "/" is the name (cut to eleven
      characters). */
  lemma DirNameOfChild(p: seq<Byte>, name: seq<Byte>)
    requires |p| >= 1 && p[|p| - 1] == SLASH && NoSlash(name)
    ensures DirName(p + name + [SLASH]) == Take11(name)
  {
    var q := p + name + [SLASH];
    assert q[..|p| + |name|] == p + name;
    assert LastSlashFrom(q, |q| - 1) == |q| - 1;
    LastSlashOfChild(p, name, q);
    assert DirName(q) == InnerName(q, |q| - 1, |p| - 1);
    assert q[|p|..|q| - 1] == name;
  }

  /** The directory-name extraction with its two backwards scans. */
  method ExtractDirName(np: seq<Byte>) returns (name: seq<Byte>)
    ensures name == DirName(np)
  {
    var last := ScanBack(np, |np| - 1);
    if last >= 0 && last == |np| - 1 {
      var prev := ScanBack(np, last - 1);
      name := InnerName(np, last, prev);
    } else if last >= 0 {
      name := Take11(np[last + 1..]);
    } else {
      name := Take11(np);
    }
  }

  /** The name between the last two '/' of a path ending with '/'. */
  function InnerName(np: seq<Byte>, last: nat, prev: int): seq<Byte>
    requires last == |np| - 1 && -1 <= prev < last
  {
    if prev >= 0 then Take11(np[prev + 1..last])
    else if |np| > 1 then np[1..|np| - 1]
    else []
  }

  /** What cmd_cd returns and the working directory after it, given the
      type the FAT16 layer reports for a name (None when it cannot open
      it). */
  function CdResult(cur: seq<Byte>, path: seq<Byte>, lookup: seq<Byte> -> Option<nat>): (int, seq<Byte>)
  {
    if |path| == 0 then (-1, cur)
    else if path == DOT_DOT then (0, ParentPath(cur))
    else if path == DOT_ONLY then (0, cur)
    else
      var np := NewPath(cur, path);
      var dn := DirName(np);
      if |dn| == 0 then (-1, cur)
      else match lookup(dn)
        case None => (-1, cur)
        case Some(t) => if t == DIR_TYPE then (0, np) else (-1, cur)
  }

  /** cd keeps the working directory rooted, and changes it only when it
      returns 0. */
  lemma CdKeepsRooted(cur: seq<Byte>, path: seq<Byte>, lookup: seq<Byte> -> Option<nat>)
    requires Rooted(cur)
    ensures Rooted(CdResult(cur, path, lookup).1)
    ensures CdResult(cur, path, lookup).0 in {0, -1}
    ensures CdResult(cur, path, lookup).0 == -1 ==> CdResult(cur, path, lookup).1 == cur
  {
    if path == DOT_DOT {
      ParentRooted(cur);
    } else if |path| > 0 {
      NewPathShape(cur, path);
    }
  }

  /** cd into a subdirectory and back: a short name without '/' that the
      lookup reports as a directory is appended with a '/', and cd ..
      returns to where it started. */
  lemma CdDownAndUp(cur: seq<Byte>, name: seq<Byte>, lookup: seq<Byte> -> Option<nat>)
    requires Rooted(cur) && 1 <= |name| <= NAME_MAX && NoSlash(name)
    requires name != DOT_DOT && name != DOT_ONLY && lookup(name) == Some(DIR_TYPE)
    ensures CdResult(cur, name, lookup) == (0, cur + name + [SLASH])
    ensures CdResult(cur + name + [SLASH], DOT_DOT, lookup) == (0, cur)
  {
    assert name[0] != SLASH;
    assert NewPath(cur, name) == cur + name + [SLASH];
    DirNameOfChild(cur, name);
    ParentOfChild(cur, name);
  }

  /** The shell's state in this file: the static current_path. */
  class Session {
    var current: seq<Byte>

    /** current_path starts as "/". */
    constructor ()
      ensures current == [SLASH]
    {
      current := [SLASH];
    }

    /** cmd_cd(path). */
    method Cd(path: seq<Byte>, lookup: seq<Byte> -> Option<nat>) returns (r: int)
      modifies this
      ensures (r, current) == CdResult(old(current), path, lookup)
    {
      if |path| == 0 {
        return -1;
      }
      if path == DOT_DOT {
        var len := |current|;
        if len <= 1 {
          return 0;
        }
        var i := ScanBack(current, len - 2);
        if i < 0 {
          current := [SLASH];
        } else {
          current := current[..i + 1];
        }
        return 0;
      } else if path == DOT_ONLY {
        return 0;
      }
      var np := NewPath(current, path);
      var dn := ExtractDirName(np);
      if |dn| == 0 {
        return -1;
      }
      var t := lookup(dn);
      if t.Some? && t.value == DIR_TYPE {
        current := np;
        return 0;
      }
      return -1;
    }
  }

  /** The directory cmd_ls lists: the current path for an empty argument,
      an absolute argument as given, otherwise the current path followed
      directly by the argument; then a final '/' when missing. */
  function LsTarget(cur: seq<Byte>, path: seq<Byte>): seq<Byte>
  {
    var t :=
      if |path| == 0 then cur
      else if path[0] == SLASH then path
      else cur + path;
    WithSlash(t)
  }

  /** From a working directory that ends with '/', ls and cd resolve a
      non-empty argument to the same directory. */
  lemma LsMatchesCd(cur: seq<Byte>, path: seq<Byte>)
    requires Rooted(cur) && |path| > 0
    ensures LsTarget(cur, path) == NewPath(cur, path)
  {
  }

  /** The name mkdir creates and rm deletes: the argument made absolute
      (the current path followed directly by it when relative), one final
      '/' dropped, then the text after the last '/'. None when the
      argument or that name is empty. */
  function LeafName(cur: seq<Byte>, path: seq<Byte>): Option<seq<Byte>>
  {
    if |path| == 0 then None
    else
      var full := if path[0] == SLASH then path else cur + path;
      var name := AfterLastSlash(DropSlash(full));
      if |name| == 0 then None else Some(name)
  }

  /** A path with one final '/' dropped. */
  function DropSlash(full: seq<Byte>): seq<Byte>
  {
    if |full| > 0 && full[|full| - 1] == SLASH then full[..|full| - 1] else full
  }

  /** The text after the last '/'. */
  function AfterLastSlash(t: seq<Byte>): seq<Byte>
  {
    t[LastSlashFrom(t, |t| - 1) + 1..]
  }

  /** The leaf name is the last component, with or without a trailing '/',
      and the only failures are an empty argument or an empty last
      component. */
  lemma LeafNameOf(cur: seq<Byte>, dir: seq<Byte>, name: seq<Byte>, p: seq<Byte>)
    requires |dir| >= 1 && dir[0] == SLASH && dir[|dir| - 1] == SLASH
    requires |name| >= 1 && NoSlash(name)
    requires p == dir + name || p == dir + name + [SLASH]
    ensures LeafName(cur, p) == Some(name)
  {
    var trimmed := dir + name;
    assert p[0] == dir[0];
    assert DropSlash(p) == trimmed by {
      if p == dir + name + [SLASH] {
        assert p[..|p| - 1] == trimmed;
      } else {
        assert p[|p| - 1] == name[|name| - 1];
      }
    }
    AfterLastSlashOfChild(dir, name);
    LeafNameAbsolute(cur, p);
  }

  /** The text after the last '/' of dir + name is name. */
  lemma AfterLastSlashOfChild(dir: seq<Byte>, name: seq<Byte>)
    requires |dir| >= 1 && dir[|dir| - 1] == SLASH && NoSlash(name)
    ensures AfterLastSlash(dir + name) == name
  {
    var t := dir + name;
    assert t[..|dir| + |name|] == t;
    LastSlashOfChild(dir, name, t);
    assert t[|dir|..] == name;
  }

  /** An absolute argument is taken as it is. */
  lemma LeafNameAbsolute(cur: seq<Byte>, p: seq<Byte>)
    requires |p| > 0 && p[0] == SLASH
    ensures LeafName(cur, p) == if |AfterLastSlash(DropSlash(p))| == 0 then None else Some(AfterLastSlash(DropSlash(p)))
  {
  }

  /** The result of cmd_mkdir and of cmd_rm, which share their argument
      handling: -1 without a leaf name, otherwise 0 exactly when `act` (the
      FAT16 create of mkdir, the delete of rm) succeeds on that name. */
  function LeafCommandResult(cur: seq<Byte>, path: seq<Byte>, act: seq<Byte> -> bool): (r: int)
    ensures r == 0 <==> (LeafName(cur, path).Some? && act(LeafName(cur, path).value))
    ensures r in {0, -1}
  {
    match LeafName(cur, path)
    case None => -1
    case Some(n) => if act(n) then 0 else -1
  }

  /** The fifteen names execute_command hands to the built-in handler. */
  const BUILTINS: seq<seq<Byte>> := [
    [0x76, 0x65, 0x72],                               // ver
    [0x74, 0x69, 0x6D, 0x65],                         // time
    [0x63, 0x6C, 0x65, 0x61, 0x72],                   // clear
    [0x68, 0x65, 0x6C, 0x70],                         // help
    [0x65, 0x63, 0x68, 0x6F],                         // echo
    [0x73, 0x68, 0x75, 0x74, 0x64, 0x6F, 0x77, 0x6E], // shutdown
    [0x70, 0x69, 0x6E, 0x67],                         // ping
    [0x6E, 0x65, 0x74, 0x69, 0x6E, 0x69, 0x74],       // netinit
    [0x63, 0x61, 0x74],                               // cat
    [0x6C, 0x73],                                     // ls
    [0x63, 0x64],                                     // cd
    [0x6D, 0x6B, 0x64, 0x69, 0x72],                   // mkdir
    [0x72, 0x6D],                                     // rm
    [0x64, 0x65, 0x6D, 0x6F],                         // demo
    [0x63, 0x6C, 0x73]                                // cls
  ]

  /** Where execute_command sends a command line. */
  datatype Route = Nothing | Internal | External

  function RouteOf(argc: nat, name: seq<Byte>): (r: Route)
    ensures r == Nothing <==> argc == 0
    ensures r == Internal <==> argc > 0 && name in BUILTINS
  {
    if argc == 0 then Nothing
    else if name in BUILTINS then Internal
    else External
  }

  /** The fifteen built-in names are distinct, so exactly fifteen names
      route inside. */
  lemma FifteenBuiltins()
    ensures |BUILTINS| == 15
    ensures forall i, j :: 0 <= i < j < |BUILTINS| ==> BUILTINS[i] != BUILTINS[j]
  {
  }

  /** The suffix execute_external_command tries second: ".bin". */
  const BIN_SUFFIX: seq<Byte> := [0x2E, 0x62, 0x69, 0x6E]

  /** execute_external_command: start the program under its own name, and
      failing that under the name with ".bin" appended, then wait for it;
      -1 when neither starts. `create` is create_process (its pid, or -1)
      and `wait` is waitpid. */
  function ExternalStatus(name: seq<Byte>, create: seq<Byte> -> int, wait: int -> int): (r: int)
    ensures create(name) != -1 ==> r == wait(create(name))
    ensures create(name) == -1 && create(name + BIN_SUFFIX) != -1 ==> r == wait(create(name + BIN_SUFFIX))
    ensures create(name) == -1 && create(name + BIN_SUFFIX) == -1 ==> r == -1
  {
    var pid := create(name);
    if pid != -1 then wait(pid)
    else
      var binPid := create(name + BIN_SUFFIX);
      if binPid == -1 then -1 else wait(binPid)
  }

  /** When no started program reports -1, the command is reported missing
      exactly when neither the name nor the name with ".bin" starts. */
  lemma ExternalNotFound(name: seq<Byte>, create: seq<Byte> -> int, wait: int -> int)
    requires forall pid :: wait(pid) != -1
    ensures ExternalStatus(name, create, wait) == -1 <==> create(name) == -1 && create(name + BIN_SUFFIX) == -1
  {
  }
}
