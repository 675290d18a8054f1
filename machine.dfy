/** Machine-level vocabulary shared by every module of the model: fixed-width
    unsigned integers of the i386 target, the optional and error-carrying
    results that stand for C's NULL and -1 returns, and the byte-string view
    of NUL-terminated C strings. */
module Machine {

  const U8: int := 0x100
  const U16: int := 0x1_0000
  const U32: int := 0x1_0000_0000

  type Byte = x: int | 0 <= x < U8
  type Word16 = x: int | 0 <= x < U16
  type Word32 = x: int | 0 <= x < U32

  /** The C type `int` on the target: a 32-bit two's-complement integer. */
  type Int32 = x: int | -0x8000_0000 <= x < 0x8000_0000

  datatype Option<T> = None | Some(value: T)

  /** Reinterprets a signed 32-bit value as the unsigned word with the same bits. */
  function ToWord32(x: int): Word32
  {
    x % U32
  }

  /** Reinterprets a 32-bit word as the signed `int` with the same bits. */
  function ToInt32(w: Word32): (x: Int32)
    ensures ToWord32(x) == w
    ensures 0 <= x <==> w < 0x8000_0000
  {
    if w < 0x8000_0000 then w else w - U32
  }

  /** The prefix of `s` before its first NUL, i.e. what C sees as the string. */
  function CString(s: seq<Byte>): (r: seq<Byte>)
    ensures |r| <= |s| && r == s[..|r|]
    ensures forall k :: 0 <= k < |r| ==> r[k] != 0
    ensures |r| < |s| ==> s[|r|] == 0
  {
    if |s| == 0 || s[0] == 0 then [] else [s[0]] + CString(s[1..])
  }

  /** True when `s` contains a NUL, so that a C string scan over it stops. */
  predicate Terminated(s: seq<Byte>)
  {
    exists k :: 0 <= k < |s| && s[k] == 0
  }

  /** A NUL at or after index t, so that a C scan from t stops inside s. */
  predicate NulFrom(s: seq<Byte>, t: nat)
  {
    exists k :: t <= k < |s| && s[k] == 0
  }

  /** A 32-bit sum that does not wrap is the plain sum. */
  lemma NoWrap(x: int)
    requires 0 <= x < U32
    ensures x % U32 == x
  {
  }

  /** A write to an I/O port: `outb`, `outw` or `outl` of a value. */
  datatype PortOut = Outb(port: Word16, b: Byte) | Outw(port: Word16, w: Word16) | Outl(port: Word16, l: Word32)

  function Min(a: int, b: int): int { if a <= b then a else b }
  function Max(a: int, b: int): int { if a >= b then a else b }
}
