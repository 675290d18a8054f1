/** The kernel's byte and string routines. A C buffer is an array of bytes
    that starts where the pointer points; a C string is such a buffer with a
    NUL in it. `char` is signed on the target, so comparisons of characters
    see bytes from 0x80 on as negative numbers. */
module StringLib {
  import opened Machine

  /** A byte read through a (signed) `char`. */
  function Signed(b: Byte): int
  {
    if b < 0x80 then b else b - U8
  }

  function Zeros(n: nat): (r: seq<Byte>)
    ensures |r| == n && forall k :: 0 <= k < n ==> r[k] == 0
  {
    seq(n, _ => 0)
  }

  // ----- specifications on byte sequences -----

  /** memcmp over two equally long byte strings: 0 when they are equal,
      otherwise 1 or -1 as the first differing byte, read as a signed char,
      is larger in `x` or in `y`. */
  function MemCmpSpec(x: seq<Byte>, y: seq<Byte>): (r: int)
    requires |x| == |y|
    ensures r == 0 || r == 1 || r == -1
    ensures r == 0 <==> x == y
  {
    if |x| == 0 then 0
    else if x[0] != y[0] then (if Signed(x[0]) > Signed(y[0]) then 1 else -1)
    else
      assert x == [x[0]] + x[1..] && y == [y[0]] + y[1..];
      MemCmpSpec(x[1..], y[1..])
  }

  /** strcmp over the two C strings: -1, 0 or 1 from the first position
      where they differ, a terminator counting as 0. */
  function StrCmpSpec(x: seq<Byte>, y: seq<Byte>): (r: int)
    requires Terminated(x) && Terminated(y)
    ensures r == 0 || r == 1 || r == -1
    decreases |x|
  {
    if x[0] != 0 && x[0] == y[0] then
      assert Terminated(x[1..]) by { var k :| 0 <= k < |x| && x[k] == 0; assert x[1..][k - 1] == 0; }
      assert Terminated(y[1..]) by { var k :| 0 <= k < |y| && y[k] == 0; assert y[1..][k - 1] == 0; }
      StrCmpSpec(x[1..], y[1..])
    else if Signed(x[0]) < Signed(y[0]) then -1
    else if Signed(x[0]) > Signed(y[0]) then 1
    else 0
  }

  /** Two C strings compare equal exactly when they hold the same text. */
  lemma {:induction false} StrCmpZeroIff(x: seq<Byte>, y: seq<Byte>)
    requires Terminated(x) && Terminated(y)
    ensures StrCmpSpec(x, y) == 0 <==> CString(x) == CString(y)
    decreases |x|
  {
    if x[0] != 0 && x[0] == y[0] {
      assert Terminated(x[1..]) by { var k :| 0 <= k < |x| && x[k] == 0; assert x[1..][k - 1] == 0; }
      assert Terminated(y[1..]) by { var k :| 0 <= k < |y| && y[k] == 0; assert y[1..][k - 1] == 0; }
      StrCmpZeroIff(x[1..], y[1..]);
      assert CString(x) == [x[0]] + CString(x[1..]);
      assert CString(y) == [y[0]] + CString(y[1..]);
    } else if x[0] == 0 {
      assert CString(x) == [];
      if y[0] != 0 {
        assert CString(y)[0] == y[0];
      }
    } else {
      assert CString(x)[0] == x[0];
      if y[0] != 0 {
        assert CString(y)[0] == y[0];
      }
    }
  }

  /** Swapping the operands of strcmp flips the sign. */
  lemma {:induction false} StrCmpAntisymmetric(x: seq<Byte>, y: seq<Byte>)
    requires Terminated(x) && Terminated(y)
    ensures StrCmpSpec(y, x) == -StrCmpSpec(x, y)
    decreases |x|
  {
    if x[0] != 0 && x[0] == y[0] {
      assert Terminated(x[1..]) by { var k :| 0 <= k < |x| && x[k] == 0; assert x[1..][k - 1] == 0; }
      assert Terminated(y[1..]) by { var k :| 0 <= k < |y| && y[k] == 0; assert y[1..][k - 1] == 0; }
      StrCmpAntisymmetric(x[1..], y[1..]);
    } else if y[0] != 0 && y[0] == x[0] {
      assert false;
    }
  }

  /** strchr's scan over the C string in `s`: the first index whose byte,
      read as a signed char, equals `ch`. */
  function StrChrSpec(s: seq<Byte>, ch: Byte): Option<nat>
  {
    if |s| == 0 || s[0] == 0 then None
    else if Signed(s[0]) == ch then Some(0)
    else ShiftBy(StrChrSpec(s[1..], ch), 1)
  }

  /** The scan finds the first match inside the string, never the
      terminator, and finds nothing only when there is no match. */
  lemma {:induction false} StrChrFindsFirst(s: seq<Byte>, ch: Byte)
    ensures var r := StrChrSpec(s, ch);
      && (r.Some? ==> r.value < |CString(s)| && Signed(s[r.value]) == ch && s[r.value] != 0)
      && (r.Some? ==> forall k :: 0 <= k < r.value ==> Signed(s[k]) != ch)
      && (r.None? ==> forall k :: 0 <= k < |CString(s)| ==> Signed(s[k]) != ch)
  {
    if |s| == 0 || s[0] == 0 {
    } else if Signed(s[0]) == ch {
    } else {
      StrChrFindsFirst(s[1..], ch);
      assert CString(s) == [s[0]] + CString(s[1..]);
      var r := StrChrSpec(s[1..], ch);
      if r.Some? {
        forall k | 0 <= k < r.value + 1
          ensures Signed(s[k]) != ch
        {
          if k > 0 {
            assert s[k] == s[1..][k - 1];
          }
        }
      } else {
        forall k | 0 <= k < |CString(s)|
          ensures Signed(s[k]) != ch
        {
          if k > 0 {
            assert s[k] == s[1..][k - 1];
          }
        }
      }
    }
  }

  /** A byte from 0x80 on can never be found: the signed char it is read as
      is negative, the unsigned argument is not. */
  lemma StrChrMissesHighBytes(s: seq<Byte>, ch: Byte)
    requires ch >= 0x80
    ensures StrChrSpec(s, ch) == None
  {
    StrChrFindsFirst(s, ch);
  }

  /** What strncpy leaves in its n destination bytes. */
  function StrNCpySpec(s: seq<Byte>, n: nat): (r: seq<Byte>)
    requires n <= |s| || Terminated(s)
    ensures |r| == n
    ensures |CString(s)| < n ==> r == CString(s) + Zeros(n - |CString(s)|)
    ensures |CString(s)| >= n ==> r == s[..n]
  {
    var c := CString(s);
    if |c| < n then c + Zeros(n - |c|) else s[..n]
  }

  /** strncpy terminates its result exactly when the source is shorter
      than n; then the copy reads back as the source string. */
  lemma StrNCpyTerminates(s: seq<Byte>, n: nat)
    requires n <= |s| || Terminated(s)
    ensures Terminated(StrNCpySpec(s, n)) <==> |CString(s)| < n
    ensures |CString(s)| < n ==> CString(StrNCpySpec(s, n)) == CString(s)
  {
    var c := CString(s);
    var r := StrNCpySpec(s, n);
    if |c| < n {
      assert r[|c|] == 0;
      CStringOfPrefix(c, Zeros(n - |c|));
    } else {
      assert r == c[..n];
    }
  }

  /** The C string of a NUL-free text followed by a NUL is that text. */
  lemma {:induction false} CStringOfPrefix(c: seq<Byte>, rest: seq<Byte>)
    requires forall k :: 0 <= k < |c| ==> c[k] != 0
    requires |rest| > 0 && rest[0] == 0
    ensures CString(c + rest) == c
  {
    if |c| > 0 {
      assert (c + rest)[1..] == c[1..] + rest;
      CStringOfPrefix(c[1..], rest);
    }
  }

  // ----- the routines -----

  /** memset: exactly the first `size` bytes become `value`; dst comes back. */
  method Memset(dst: array<Byte>, value: Byte, size: Word32) returns (r: array<Byte>)
    requires size <= dst.Length
    modifies dst
    ensures r == dst
    ensures forall k :: 0 <= k < size ==> dst[k] == value
    ensures forall k :: size <= k < dst.Length ==> dst[k] == old(dst[k])
  {
    var i := 0;
    while i < size
      invariant 0 <= i <= size
      invariant forall k :: 0 <= k < i ==> dst[k] == value
      invariant forall k :: i <= k < dst.Length ==> dst[k] == old(dst[k])
    {
      dst[i] := value;
      i := i + 1;
    }
    return dst;
  }

  /** memcpy: copies `size` bytes forward and, unlike the C library,
      hands back the source pointer. */
  method Memcpy(dst: array<Byte>, src: array<Byte>, size: Word32) returns (r: array<Byte>)
    requires size <= dst.Length && size <= src.Length
    modifies dst
    ensures r == src
    ensures dst[..size] == old(src[..size])
    ensures dst[size..] == old(dst[size..])
  {
    var i := 0;
    while i < size
      invariant 0 <= i <= size
      invariant dst[..i] == old(src[..i])
      invariant dst[i..] == old(dst[i..])
      invariant src[i..] == old(src[i..])
    {
      dst[i] := src[i];
      assert dst[..i + 1] == old(src[..i + 1]);
      i := i + 1;
    }
    return src;
  }

  /** memcmp over the first `size` bytes. */
  method Memcmp(a: array<Byte>, b: array<Byte>, size: Word32) returns (r: int)
    requires size <= a.Length && size <= b.Length
    ensures r == MemCmpSpec(a[..size], b[..size])
  {
    var i := 0;
    while i < size
      invariant 0 <= i <= size
      invariant a[..i] == b[..i]
    {
      if a[i] != b[i] {
        ghost var x, y := a[..size], b[..size];
        assert x[..i] == a[..i] && y[..i] == b[..i];
        MemCmpSkip(x, y, i);
        return if Signed(a[i]) > Signed(b[i]) then 1 else -1;
      }
      assert a[..i + 1] == b[..i + 1];
      i := i + 1;
    }
    assert a[..size] == b[..size];
    return 0;
  }

  /** memcmp decides on the first difference: 1 when that byte, read as
      a signed char, is larger in `x`, -1 when it is larger in `y`. */
  lemma {:induction false} MemCmpSkip(x: seq<Byte>, y: seq<Byte>, i: nat)
    requires |x| == |y| && i < |x| && x[..i] == y[..i] && x[i] != y[i]
    ensures MemCmpSpec(x, y) == if Signed(x[i]) > Signed(y[i]) then 1 else -1
  {
    if i > 0 {
      assert x[0] == x[..i][0] == y[..i][0] == y[0];
      assert x[1..][..i - 1] == x[..i][1..] == y[..i][1..] == y[1..][..i - 1];
      MemCmpSkip(x[1..], y[1..], i - 1);
    }
  }

  /** strlen: the index of the first NUL. */
  method Strlen(s: array<Byte>) returns (r: nat)
    requires Terminated(s[..])
    ensures r < s.Length && s[r] == 0
    ensures forall k :: 0 <= k < r ==> s[k] != 0
    ensures r == |CString(s[..])|
  {
    r := 0;
    ghost var c := CString(s[..]);
    while s[r] != 0
      invariant 0 <= r <= |c| && forall k :: 0 <= k < r ==> s[k] != 0
      decreases |c| - r
    {
      if r == |c| {
        assert false;
      }
      r := r + 1;
    }
  }

  /** strcpy: copies the string and its terminator; dst comes back. */
  method Strcpy(dst: array<Byte>, src: array<Byte>) returns (r: array<Byte>)
    requires dst != src && Terminated(src[..]) && |CString(src[..])| < dst.Length
    modifies dst
    ensures r == dst
    ensures var n := |CString(src[..])|; dst[..n + 1] == src[..n + 1]
    ensures var n := |CString(src[..])|; dst[n + 1..] == old(dst[n + 1..])
  {
    ghost var n := |CString(src[..])|;
    var i := 0;
    while src[i] != 0
      invariant 0 <= i <= n && dst[..i] == src[..i]
      invariant forall k :: i <= k < dst.Length ==> dst[k] == old(dst[k])
      decreases n - i
    {
      if i == n {
        assert false;
      }
      dst[i] := src[i];
      assert dst[..i + 1] == src[..i + 1];
      i := i + 1;
    }
    dst[i] := 0;
    assert dst[..i + 1] == src[..i + 1];
    assert dst[n + 1..] == old(dst[n + 1..]);
    return dst;
  }

  /** strncpy: writes exactly n bytes, padding with NUL once the source
      has ended; a source of n or more bytes leaves no terminator. */
  method Strncpy(dst: array<Byte>, src: array<Byte>, n: Word32) returns (r: array<Byte>)
    requires dst != src && n <= dst.Length && (n <= src.Length || Terminated(src[..]))
    modifies dst
    ensures r == dst
    ensures dst[..n] == StrNCpySpec(src[..], n)
    ensures dst[n..] == old(dst[n..])
  {
    ghost var c := CString(src[..]);
    var i := 0;
    while i < n
      invariant 0 <= i <= n && i <= |c| && dst[..i] == c[..i] && dst[n..] == old(dst[n..])
    {
      dst[i] := src[i];
      if src[i] == 0 {
        assert i == |c|;
        assert dst[..i + 1] == c + [0];
        PadZeros(dst, i + 1, n, c);
        return dst;
      }
      assert i < |c|;
      assert dst[..i + 1] == c[..i + 1];
      i := i + 1;
    }
    assert dst[..n] == src[..n];
    return dst;
  }

  /** The padding loop of strncpy: zeros from i up to n. */
  method PadZeros(dst: array<Byte>, i: nat, n: nat, ghost c: seq<Byte>)
    requires |c| < i <= n <= dst.Length && dst[..i] == c + Zeros(i - |c|)
    modifies dst
    ensures dst[..n] == c + Zeros(n - |c|)
    ensures dst[n..] == old(dst[n..])
  {
    var j := i;
    while j < n
      invariant i <= j <= n && dst[..j] == c + Zeros(j - |c|) && dst[n..] == old(dst[n..])
    {
      dst[j] := 0;
      assert dst[..j + 1] == c + Zeros(j + 1 - |c|);
      j := j + 1;
    }
  }

  /** strcmp over two C strings. */
  method Strcmp(a: array<Byte>, b: array<Byte>) returns (r: int)
    requires Terminated(a[..]) && Terminated(b[..])
    ensures r == StrCmpSpec(a[..], b[..])
    ensures r == 0 <==> CString(a[..]) == CString(b[..])
  {
    StrCmpZeroIff(a[..], b[..]);
    var i := 0;
    ghost var n := |CString(a[..])|;
    while a[i] != 0 && a[i] == b[i]
      invariant 0 <= i <= n && i < b.Length
      invariant Terminated(a[i..]) && Terminated(b[i..])
      invariant StrCmpSpec(a[..], b[..]) == StrCmpSpec(a[i..], b[i..])
      decreases n - i
    {
      assert a[i..][1..] == a[i + 1..] && b[i..][1..] == b[i + 1..];
      i := i + 1;
    }
    r := if Signed(a[i]) < Signed(b[i]) then -1 else if Signed(a[i]) > Signed(b[i]) then 1 else 0;
  }

  /** strchr: the first occurrence of `ch` before the terminator, or none. */
  method Strchr(s: array<Byte>, ch: Byte) returns (r: Option<nat>)
    requires Terminated(s[..])
    ensures r == StrChrSpec(s[..], ch)
  {
    var i := 0;
    ghost var c := CString(s[..]);
    while s[i] != 0
      invariant 0 <= i <= |c| && StrChrSpec(s[..], ch) == ShiftBy(StrChrSpec(s[i..], ch), i)
      decreases |c| - i
    {
      if i == |c| {
        assert false;
      }
      StrChrStep(StrChrSpec(s[..], ch), s[..], i, ch);
      if Signed(s[i]) == ch {
        return Some(i);
      }
      i := i + 1;
    }
    return None;
  }

  /** One byte of the scan: if `goal` is the answer for t[i..] shifted by
      i, then either it is i, or it is the answer for t[i+1..] shifted by
      i + 1. */
  lemma StrChrStep(goal: Option<nat>, t: seq<Byte>, i: nat, ch: Byte)
    requires i < |t| && t[i] != 0
    requires goal == ShiftBy(StrChrSpec(t[i..], ch), i)
    ensures Signed(t[i]) == ch ==> goal == Some(i)
    ensures Signed(t[i]) != ch ==> goal == ShiftBy(StrChrSpec(t[i + 1..], ch), i + 1)
  {
    var u := t[i..];
    assert u[0] == t[i] && u[1..] == t[i + 1..];
    if Signed(t[i]) != ch {
      var x := StrChrSpec(t[i + 1..], ch);
      assert StrChrSpec(u, ch) == ShiftBy(x, 1);
      match x
      case None =>
        calc {
          goal;
          ShiftBy(StrChrSpec(u, ch), i);
          ShiftBy(None, i);
        }
      case Some(j) =>
        calc {
          goal;
          ShiftBy(StrChrSpec(u, ch), i);
          ShiftBy(Some(j + 1), i);
        }
    }
  }

  function ShiftBy(o: Option<nat>, d: nat): Option<nat>
  {
    match o
    case None => None
    case Some(i) => Some(i + d)
  }
}
