/** The FAT32 driver: its own toupper, strncmp and bump allocator, the
    volume layout fat32_init computes from the boot sector, FAT entry
    reads and writes, the free-cluster scan, chain creation, the 8.3 names
    fat32_create builds, and the cluster walks of fat32_read and
    fat32_write.

    The disk is an abstract store of 512-byte sectors by sector number
    (the IDE transfer unit), zero where nothing was ever written;
    disk_read and disk_write move whole sectors through it. */
module Fat32 {
  import opened Machine
  import StringLib

  /** The value written to end a cluster chain; an entry at or above it
      ends a walk. */
  const FAT32_EOC: nat := 0x0FFF_FFF8
  /** FAT32 entries are 28 bits wide; the upper 4 bits of the stored word
      are reserved. */
  const ENTRY_SPAN: nat := 0x1000_0000
  /** The bytes disk_read and disk_write move per sector. */
  const SECTOR_SIZE: nat := 512
  /** Four-byte FAT entries in one sector. */
  const ENTRIES_PER_SECTOR: nat := 128

  const O_READ: nat := 0x01
  const O_WRITE: nat := 0x02

  /** The bump allocator's static heap: 1 MiB. */
  const HEAP_SIZE: nat := 0x10_0000

  const SPACE: Byte := 0x20
  const DOT: Byte := 0x2E
  const LOWER_A: int := 0x61
  const LOWER_Z: int := 0x7A
  const CASE_GAP: int := 0x20

  // ---------------------------------------------------------------------
  // toupper and strncmp
  // ---------------------------------------------------------------------

  /** toupper changes exactly the lower-case ASCII letters, each into an
      upper-case one, so nothing it returns is lower case. */
  function ToUpper(c: int): (r: int)
    ensures r != c <==> LOWER_A <= c <= LOWER_Z
    ensures r != c ==> r + CASE_GAP == c && 0x41 <= r <= 0x5A
    ensures !(LOWER_A <= r <= LOWER_Z)
  {
    if LOWER_A <= c <= LOWER_Z then c - CASE_GAP else c
  }

  /** A byte passed through toupper as a (signed) char and stored back:
      bytes from 0x80 on are negative chars and stay as they are. */
  function UpperByte(b: Byte): Byte
  {
    ToUpper(b)
  }

  function Upper(s: seq<Byte>): (r: seq<Byte>)
    ensures |r| == |s|
  {
    seq(|s|, k requires 0 <= k < |s| => UpperByte(s[k]))
  }

  /** strncmp from index i on: the difference of the first differing pair
      of chars (read as signed chars), and 0 once a NUL has matched or all
      n chars agree. */
  function StrNCmpFrom(s1: seq<Byte>, s2: seq<Byte>, n: nat, i: nat): int
    requires i <= n <= |s1| && n <= |s2|
    decreases n - i
  {
    if i == n then 0
    else if s1[i] != s2[i] then StringLib.Signed(s1[i]) - StringLib.Signed(s2[i])
    else if s1[i] == 0 then 0
    else StrNCmpFrom(s1, s2, n, i + 1)
  }

  /** No NUL in s[i..k). */
  predicate NoNulIn(s: seq<Byte>, i: nat, k: nat)
    requires i <= k <= |s|
  {
    forall j :: i <= j < k ==> s[j] != 0
  }

  /** From index i to n, the two buffers agree up to and including the
      first NUL of s1. */
  predicate AgreeFrom(s1: seq<Byte>, s2: seq<Byte>, n: nat, i: nat)
    requires i <= n <= |s1| && n <= |s2|
  {
    forall k :: i <= k < n && NoNulIn(s1, i, k) ==> s1[k] == s2[k]
  }

  /** strncmp is 0 exactly when the first n chars agree up to the first
      NUL: it looks at no more than n chars and none past a matched NUL. */
  lemma {:induction false} StrNCmpZeroIff(s1: seq<Byte>, s2: seq<Byte>, n: nat, i: nat)
    requires i <= n <= |s1| && n <= |s2|
    ensures StrNCmpFrom(s1, s2, n, i) == 0 <==> AgreeFrom(s1, s2, n, i)
    decreases n - i
  {
    if i == n {
    } else if s1[i] != s2[i] {
      assert NoNulIn(s1, i, i);
    } else if s1[i] == 0 {
      forall k | i < k <= n
        ensures !NoNulIn(s1, i, k)
      {
        assert s1[i] == 0;
      }
    } else {
      StrNCmpZeroIff(s1, s2, n, i + 1);
      forall k | i < k <= n
        ensures NoNulIn(s1, i, k) <==> NoNulIn(s1, i + 1, k)
      {
        assert s1[i] != 0;
      }
      if AgreeFrom(s1, s2, n, i + 1) {
        assert NoNulIn(s1, i, i);
      }
    }
  }

  /** The strncmp loop. */
  method StrNCmp(s1: seq<Byte>, s2: seq<Byte>, n: Word32) returns (r: int)
    requires n <= |s1| && n <= |s2|
    ensures r == StrNCmpFrom(s1, s2, n, 0)
  {
    var i: nat := 0;
    while i < n
      invariant i <= n && StrNCmpFrom(s1, s2, n, i) == StrNCmpFrom(s1, s2, n, 0)
    {
      if s1[i] != s2[i] {
        return StringLib.Signed(s1[i]) - StringLib.Signed(s2[i]);
      }
      if s1[i] == 0 {
        return 0;
      }
      i := i + 1;
    }
    return 0;
  }

  // ---------------------------------------------------------------------
  // The bump allocator
  // ---------------------------------------------------------------------

  /** A size rounded up to a multiple of 4, without wrap-around. */
  function RoundUp4(n: nat): (r: nat)
    ensures r % 4 == 0 && n <= r < n + 4
  {
    (n + 3) / 4 * 4
  }

  /** Blocks handed out back to back from offset 0, the last one ending
      at `end`. */
  ghost predicate BackToBack(blocks: seq<(nat, nat)>, end: nat)
    decreases |blocks|
  {
    if |blocks| == 0 then end == 0
    else
      var b := blocks[|blocks| - 1];
      b.0 + b.1 == end && BackToBack(blocks[..|blocks| - 1], b.0)
  }

  lemma {:induction false} BackToBackEnd(blocks: seq<(nat, nat)>, end: nat, i: nat)
    requires BackToBack(blocks, end) && i < |blocks|
    ensures blocks[i].0 + blocks[i].1 <= end
    decreases |blocks|
  {
    var m := |blocks| - 1;
    if i < m {
      BackToBackEnd(blocks[..m], blocks[m].0, i);
    }
  }

  /** Blocks handed out back to back never overlap: each one ends before
      any later one begins. */
  lemma {:induction false} BackToBackDisjoint(blocks: seq<(nat, nat)>, end: nat, i: nat, j: nat)
    requires BackToBack(blocks, end) && i < j < |blocks|
    ensures blocks[i].0 + blocks[i].1 <= blocks[j].0
    decreases |blocks|
  {
    var m := |blocks| - 1;
    if j < m {
      BackToBackDisjoint(blocks[..m], blocks[m].0, i, j);
    } else {
      BackToBackEnd(blocks[..m], blocks[m].0, i);
    }
  }

  /** The static heap and its high-water mark `heap_ptr`; `blocks` records
      the (offset, size) of every block handed out. The matching free does
      nothing. */
  class BumpHeap {
    var heapPtr: nat
    ghost var blocks: seq<(nat, nat)>

    ghost predicate Valid()
      reads this
    {
      heapPtr <= HEAP_SIZE && BackToBack(blocks, heapPtr)
    }

    constructor()
      ensures Valid() && heapPtr == 0 && blocks == []
    {
      heapPtr := 0;
      blocks := [];
    }

    /** malloc with the size rounding and the bound test done without
        32-bit wrap-around: a block of the rounded size at the old mark,
        or None when it would pass the end of the heap. */
    method Malloc(size: Word32) returns (p: Option<nat>)
      requires Valid()
      modifies this
      ensures Valid()
      ensures old(heapPtr) + RoundUp4(size) > HEAP_SIZE ==> p == None && heapPtr == old(heapPtr) && blocks == old(blocks)
      ensures old(heapPtr) + RoundUp4(size) <= HEAP_SIZE ==>
        p == Some(old(heapPtr)) && heapPtr == old(heapPtr) + RoundUp4(size)
        && blocks == old(blocks) + [(old(heapPtr), RoundUp4(size))]
    {
      var rounded := RoundUp4(size);
      if heapPtr + rounded > HEAP_SIZE {
        return None;
      }
      p := Some(heapPtr);
      assert (blocks + [(heapPtr, rounded)])[..|blocks|] == blocks;
      blocks := blocks + [(heapPtr, rounded)];
      heapPtr := heapPtr + rounded;
    }
  }

  /** malloc as written: `(size + 3) & ~3` and `heap_ptr + size` are
      computed in 32-bit size_t and both wrap. Returns the block offset (or
      None) and the new mark. */
  function MallocAsWritten(heapPtr: nat, size: Word32): (Option<nat>, nat)
  {
    var rounded := (size + 3) % U32 / 4 * 4;
    if (heapPtr + rounded) % U32 > HEAP_SIZE then (None, heapPtr)
    else (Some(heapPtr), (heapPtr + rounded) % U32)
  }

  /** After two 4-byte blocks at 0 and 4, a request for 0xFFFF_FFF8 bytes
      succeeds and wraps the mark back to 0, so the next 4-byte block is
      handed out at offset 0 again, on top of the first. The model's
      Malloc refuses the large request. */
  lemma MallocWrapsAsWritten()
    ensures MallocAsWritten(0, 4) == (Some(0), 4) && MallocAsWritten(4, 4) == (Some(4), 8)
    ensures MallocAsWritten(8, 0xFFFF_FFF8) == (Some(8), 0)
    ensures 8 + RoundUp4(0xFFFF_FFF8) > HEAP_SIZE
  {
  }

  // ---------------------------------------------------------------------
  // 8.3 names
  // ---------------------------------------------------------------------

  /** The text of a C string: no NUL in it. */
  predicate NoNul(s: seq<Byte>)
  {
    forall k :: 0 <= k < |s| ==> s[k] != 0
  }

  function Spaces(n: nat): (r: seq<Byte>)
    ensures |r| == n
  {
    seq(n, _ => SPACE)
  }

  /** The 11 name bytes fat32_create stores for a file name: the base is
      eight spaces overwritten by strncpy with the part before the first
      '.' (at most 8 chars), or with strncpy(base, name, 8) when there is
      no '.'; the extension is three spaces overwritten by
      strncpy(ext, after the dot, 3); both are then upper-cased. strncpy
      pads with NULs, so a short name without a dot, or a short
      extension, leaves NULs rather than spaces. */
  function ShortName(name: seq<Byte>): (r: seq<Byte>)
    requires NoNul(name)
    ensures |r| == 11
  {
    var z := name + [0];
    assert z[|name|] == 0;
    StringLib.CStringOfPrefix(name, [0]);
    StringLib.StrChrFindsFirst(z, DOT);
    match StringLib.StrChrSpec(z, DOT)
    case Some(d) =>
      var m := Min(8, d);
      assert z[d + 1..] == name[d + 1..] + [0];
      assert (name[d + 1..] + [0])[|name| - d - 1] == 0;
      Upper(name[..m] + Spaces(8 - m)) + Upper(StringLib.StrNCpySpec(name[d + 1..] + [0], 3))
    case None =>
      Upper(StringLib.StrNCpySpec(z, 8)) + Upper(Spaces(3))
  }

  /** A name with a dot: the base field is the part before the dot, cut
      to 8 bytes and padded with spaces (the memset that strncpy of
      min(8, dot - filename) bytes leaves alone); the extension field is
      the part after the dot cut to 3 bytes and padded with NULs, as
      strncpy pads it; both upper-cased. */
  lemma ShortNameDotted(base: seq<Byte>, ext: seq<Byte>)
    requires NoNul(base) && NoNul(ext)
    requires forall k :: 0 <= k < |base| ==> base[k] != DOT
    ensures NoNul(base + [DOT] + ext)
    ensures var r := ShortName(base + [DOT] + ext);
      && r[..8] == Upper(base[..Min(8, |base|)] + Spaces(8 - Min(8, |base|)))
      && r[8..] == Upper(ext[..Min(3, |ext|)] + Zeros(3 - Min(3, |ext|)))
  {
    var name := base + [DOT] + ext;
    var z := name + [0];
    var d := |base|;
    assert z[d] == DOT;
    StringLib.CStringOfPrefix(name, [0]);
    StringLib.StrChrFindsFirst(z, DOT);
    assert StringLib.StrChrSpec(z, DOT) == Some(d);
    assert name[..Min(8, d)] == base[..Min(8, d)];
    assert name[d + 1..] == ext;
    StringLib.CStringOfPrefix(ext, [0]);
    var x := StringLib.StrNCpySpec(ext + [0], 3);
    if |ext| < 3 {
      assert x == ext + StringLib.Zeros(3 - |ext|);
      assert StringLib.Zeros(3 - |ext|) == Zeros(3 - |ext|);
      assert ext[..Min(3, |ext|)] == ext;
    } else {
      assert x == (ext + [0])[..3] == ext[..3];
    }
  }

  /** A name without a dot: the base field is the name cut to 8 bytes and
      padded with NULs by strncpy, upper-cased; the extension keeps its
      three spaces. */
  lemma ShortNameUndotted(name: seq<Byte>)
    requires NoNul(name)
    requires forall k :: 0 <= k < |name| ==> name[k] != DOT
    ensures var r := ShortName(name);
      && r[..8] == Upper(name[..Min(8, |name|)] + Zeros(8 - Min(8, |name|)))
      && r[8..] == Spaces(3)
  {
    var z := name + [0];
    StringLib.CStringOfPrefix(name, [0]);
    StringLib.StrChrFindsFirst(z, DOT);
    assert StringLib.StrChrSpec(z, DOT) == None;
    var x := StringLib.StrNCpySpec(z, 8);
    if |name| < 8 {
      assert x == name + StringLib.Zeros(8 - |name|);
      assert StringLib.Zeros(8 - |name|) == Zeros(8 - |name|);
      assert name[..Min(8, |name|)] == name;
    } else {
      assert x == z[..8] == name[..8];
    }
    assert Upper(Spaces(3)) == Spaces(3);
  }

  /** The key find_in_directory compares an entry against, as written:
      the name itself copied into 11 bytes with strncpy and upper-cased up
      to its NUL (the NULs that follow are unaffected by toupper). */
  function LookupKeyAsWritten(name: seq<Byte>): (r: seq<Byte>)
    requires NoNul(name) && |name| < 11
    ensures |r| == 11
  {
    assert (name + [0])[|name|] == 0;
    Upper(StringLib.StrNCpySpec(name + [0], 11))
  }

  /** find_in_directory's test, as written: strncmp over 11 chars of the
      entry's name bytes and the key. */
  predicate MatchesAsWritten(entry: seq<Byte>, name: seq<Byte>)
    requires |entry| == 11 && NoNul(name) && |name| < 11
  {
    StrNCmpFrom(entry, LookupKeyAsWritten(name), 11, 0) == 0
  }

  /** "TEST.TXT" and the entry name "TEST    TXT". */
  function TestName(): seq<Byte>
  {
    [0x54, 0x45, 0x53, 0x54, DOT, 0x54, 0x58, 0x54]
  }

  function TestEntry(): seq<Byte>
  {
    [0x54, 0x45, 0x53, 0x54, SPACE, SPACE, SPACE, SPACE, 0x54, 0x58, 0x54]
  }

  lemma TestShortName()
    ensures NoNul(TestName()) && ShortName(TestName()) == TestEntry()
  {
    var name := TestName();
    var z := name + [0];
    StringLib.CStringOfPrefix(name, [0]);
    StringLib.StrChrFindsFirst(z, DOT);
    assert StringLib.Signed(z[4]) == DOT;
    assert forall k :: 0 <= k < 4 ==> StringLib.Signed(z[k]) != DOT;
    assert StringLib.StrChrSpec(z, DOT) == Some(4);
    assert CString(name[5..] + [0]) == name[5..] by {
      StringLib.CStringOfPrefix(name[5..], [0]);
    }
  }

  lemma TestLookupKey()
    ensures NoNul(TestName())
    ensures var key := LookupKeyAsWritten(TestName());
      key[..4] == TestEntry()[..4] && key[4] == DOT
  {
    var name := TestName();
    assert CString(name + [0]) == name by {
      StringLib.CStringOfPrefix(name, [0]);
    }
    var copy := StringLib.StrNCpySpec(name + [0], 11);
    assert copy[..8] == name;
    var key := Upper(copy);
    assert forall k :: 0 <= k < 5 ==> key[k] == UpperByte(name[k]);
    assert forall k :: 0 <= k < 4 ==> key[k] == name[k] == TestEntry()[k];
    assert key[..4] == TestEntry()[..4];
  }

  /** fat32_create("TEST.TXT") stores "TEST    TXT", and the lookup that
      fat32_open does right after it compares that with "TEST.TXT": the
      fifth chars (a space and the dot) differ, so the new file is not
      found. */
  lemma CreatedUnfoundAsWritten()
    ensures NoNul(TestName()) && ShortName(TestName()) == TestEntry()
    ensures !MatchesAsWritten(TestEntry(), TestName())
  {
    TestShortName();
    TestLookupKey();
    var e := TestEntry();
    var key := LookupKeyAsWritten(TestName());
    assert e[0] == key[0] && e[1] == key[1] && e[2] == key[2] && e[3] == key[3];
    assert StrNCmpFrom(e, key, 11, 4) != 0;
    assert StrNCmpFrom(e, key, 11, 0) == StrNCmpFrom(e, key, 11, 4);
  }

  /** The lookup with the name brought into the same 8.3 form fat32_create
      stores. */
  predicate Matches(entry: seq<Byte>, name: seq<Byte>)
    requires |entry| == 11 && NoNul(name)
  {
    StrNCmpFrom(entry, ShortName(name), 11, 0) == 0
  }

  /** With the corrected lookup, the entry fat32_create writes for a name
      is found under that name. */
  lemma CreatedIsFound(name: seq<Byte>)
    requires NoNul(name)
    ensures Matches(ShortName(name), name)
  {
    StrNCmpZeroIff(ShortName(name), ShortName(name), 11, 0);
  }

  /** The corrected lookup finds an entry whose 11 name bytes hold no NUL
      exactly when they are the 8.3 form of the name: no other such entry
      is taken for it. */
  lemma MatchesOnlyShortName(e: seq<Byte>, name: seq<Byte>)
    requires |e| == 11 && NoNul(e) && NoNul(name)
    ensures Matches(e, name) <==> e == ShortName(name)
  {
    var r := ShortName(name);
    StrNCmpZeroIff(e, r, 11, 0);
    assert forall k :: 0 <= k <= 11 ==> NoNulIn(e, 0, k);
    if AgreeFrom(e, r, 11, 0) {
      assert forall k :: 0 <= k < 11 ==> e[k] == r[k];
    }
  }

  // ---------------------------------------------------------------------
  // The sector store and the volume layout
  // ---------------------------------------------------------------------

  /** The disk: 512-byte sectors by sector number, what disk_read and
      disk_write move. Sectors never written read as zeros. */
  type Store = map<nat, seq<Byte>>

  function Zeros(n: nat): (r: seq<Byte>)
    ensures |r| == n && forall j :: 0 <= j < n ==> r[j] == 0
  {
    seq<Byte>(n, _ => 0)
  }

  /** disk_read of one sector. */
  function ReadSector(d: Store, s: nat): (r: seq<Byte>)
    ensures |r| == SECTOR_SIZE
    ensures s in d && |d[s]| == SECTOR_SIZE ==> r == d[s]
  {
    if s in d && |d[s]| == SECTOR_SIZE then d[s] else Zeros(SECTOR_SIZE)
  }

  /** A little-endian 32-bit word: what a `uint32_t *` load reads at
      offset i. */
  function LeAt(s: seq<Byte>, i: nat): Word32
    requires i + 4 <= |s|
  {
    s[i] as int + s[i + 1] as int * 0x100 + s[i + 2] as int * 0x1_0000 + s[i + 3] as int * 0x100_0000
  }

  /** The word at offset i with its upper 4 bits masked off
      (`& 0x0FFFFFFF`), taken byte by byte. */
  function Low28(s: seq<Byte>, i: nat): (r: nat)
    requires i + 4 <= |s|
    ensures r < ENTRY_SPAN
  {
    s[i] as int + s[i + 1] as int * 0x100 + s[i + 2] as int * 0x1_0000 + s[i + 3] as int % 0x10 * 0x100_0000
  }

  /** ... and those upper 4 bits (`& 0xF0000000`, shifted down). */
  function High4(s: seq<Byte>, i: nat): (r: nat)
    requires i + 4 <= |s|
    ensures r < 0x10
  {
    s[i + 3] / 0x10
  }

  /** A word built from a high part and a 28-bit low part splits back
      into them. */
  lemma SplitWord(hi: nat, lo: nat)
    requires lo < ENTRY_SPAN
    ensures (hi * ENTRY_SPAN + lo) % ENTRY_SPAN == lo && (hi * ENTRY_SPAN + lo) / ENTRY_SPAN == hi
  {
  }

  /** The two masks split the loaded word. */
  lemma MaskSplits(s: seq<Byte>, i: nat)
    requires i + 4 <= |s|
    ensures LeAt(s, i) == High4(s, i) * ENTRY_SPAN + Low28(s, i)
    ensures LeAt(s, i) % ENTRY_SPAN == Low28(s, i) && LeAt(s, i) / ENTRY_SPAN == High4(s, i)
  {
    var b := s[i + 3];
    assert b == b / 0x10 * 0x10 + b % 0x10;
    SplitWord(High4(s, i), Low28(s, i));
  }

  /** The four bytes set_fat_entry's store leaves: `(hi << 28) |
      (v & 0x0FFFFFFF)`, little-endian. */
  function EntryBytes(v: Word32, hi: nat): (r: seq<Byte>)
    requires hi < 0x10
    ensures |r| == 4
  {
    [v % 0x100, v / 0x100 % 0x100, v / 0x100 / 0x100 % 0x100, hi * 0x10 + v / 0x100 / 0x100 / 0x100 % 0x10]
  }

  /** They read back as v's low 28 bits under the reserved bits hi. */
  lemma EntryBytesRead(v: Word32, hi: nat)
    requires hi < 0x10
    ensures Low28(EntryBytes(v, hi), 0) == v % ENTRY_SPAN && High4(EntryBytes(v, hi), 0) == hi
    ensures LeAt(EntryBytes(v, hi), 0) == hi * ENTRY_SPAN + v % ENTRY_SPAN
  {
    var q1 := v / 0x100;
    var q2 := q1 / 0x100;
    var q3 := q2 / 0x100;
    assert v == q1 * 0x100 + v % 0x100;
    assert q1 == q2 * 0x100 + q1 % 0x100;
    assert q2 == q3 * 0x100 + q2 % 0x100;
    assert q3 == q3 / 0x10 * 0x10 + q3 % 0x10;
    var lo := v % 0x100 + q1 % 0x100 * 0x100 + q2 % 0x100 * 0x1_0000 + q3 % 0x10 * 0x100_0000;
    assert v == q3 / 0x10 * ENTRY_SPAN + lo;
    SplitWord(q3 / 0x10, lo);
    var r := EntryBytes(v, hi);
    assert r[3] / 0x10 == hi && r[3] % 0x10 == q3 % 0x10;
    MaskSplits(r, 0);
  }

  /** A sector with an entry's four bytes replaced by set_fat_entry's
      store of v, the entry's reserved bits kept. */
  function StoreEntry(s: seq<Byte>, off: nat, v: Word32): (r: seq<Byte>)
    requires off + 4 <= |s|
    ensures |r| == |s|
    ensures forall j :: 0 <= j < |s| && !(off <= j < off + 4) ==> r[j] == s[j]
  {
    s[..off] + EntryBytes(v, High4(s, off)) + s[off + 4..]
  }

  /** The stored entry reads back as v's low 28 bits, with the reserved
      bits as they were. */
  lemma StoreEntryReads(s: seq<Byte>, off: nat, v: Word32)
    requires off + 4 <= |s|
    ensures Low28(StoreEntry(s, off, v), off) == v % ENTRY_SPAN
    ensures High4(StoreEntry(s, off, v), off) == High4(s, off)
  {
    var e := EntryBytes(v, High4(s, off));
    var r := StoreEntry(s, off, v);
    assert r[off] == e[0] && r[off + 1] == e[1] && r[off + 2] == e[2] && r[off + 3] == e[3];
    EntryBytesRead(v, High4(s, off));
  }

  /** Entries at 4-aligned offsets are disjoint: storing one keeps the
      others, reserved bits included. */
  lemma StoreEntryKeeps(s: seq<Byte>, off: nat, v: Word32, off2: nat)
    requires off + 4 <= |s| && off2 + 4 <= |s| && off % 4 == 0 && off2 % 4 == 0 && off != off2
    ensures Low28(StoreEntry(s, off, v), off2) == Low28(s, off2)
    ensures High4(StoreEntry(s, off, v), off2) == High4(s, off2)
  {
    var r := StoreEntry(s, off, v);
    assert r[off2] == s[off2] && r[off2 + 1] == s[off2 + 1];
    assert r[off2 + 2] == s[off2 + 2] && r[off2 + 3] == s[off2 + 3];
  }

  /** The drive behind disk_read and disk_write. */
  class Drive {
    var sectors: Store

    constructor(d: Store)
      ensures sectors == d
    {
      sectors := d;
    }
  }

  /** The boot-sector fields the driver uses. */
  datatype BootSector = BootSector(bytesPerSector: Word16, sectorsPerCluster: Byte, reservedSectors: Word16,
                                   numFats: Byte, totalSectors32: Word32, fatSize32: Word32,
                                   rootCluster: Word32, fsType: seq<Byte>)

  /** fat32_init's signature test: the type field starts with "FAT32". */
  predicate Fat32Signature(fsType: seq<Byte>)
  {
    |fsType| >= 5 && fsType[..5] == [0x46, 0x41, 0x54, 0x33, 0x32]
  }

  /** The values of the global `fs` that the entry and cluster arithmetic
      uses. */
  datatype Layout = Layout(bps: Word16, spc: Byte, numFats: Byte, fatSize: Word32,
                           fatStart: Word32, dataStart: Word32, bytesPerCluster: Word32)

  /** The geometry the driver's buffers fit: 512-byte sectors (what
      disk_read moves into its sector-sized buffers), at least one sector
      per cluster, the cluster size fat32_init computes, and a FAT whose
      cluster numbers are 28-bit ones. fat32_init does not check these. */
  predicate LayoutOk(g: Layout)
  {
    g.bps == SECTOR_SIZE && g.spc >= 1 && g.bytesPerCluster == g.bps * g.spc
    && g.fatSize * ENTRIES_PER_SECTOR <= ENTRY_SPAN
  }

  lemma MulSplit(a: nat, b: nat, k: nat)
    ensures (a + b) * k == a * k + b * k && (b >= 1 ==> b * k >= k)
  {
  }

  /** cluster_to_sector, in 32-bit arithmetic. */
  function ClusterToSector(g: Layout, c: Word32): Word32
  {
    (g.dataStart + (c - 2) * g.spc) % U32
  }

  /** Clusters from 2 on are consecutive runs of sectors_per_cluster
      sectors from data_start, in cluster order, as long as the sums do
      not wrap. */
  lemma ClusterRuns(g: Layout, c1: Word32, c2: Word32)
    requires 2 <= c1 < c2 && g.dataStart + (c2 - 1) * g.spc < U32
    ensures ClusterToSector(g, 2) == g.dataStart
    ensures ClusterToSector(g, c1) + g.spc <= ClusterToSector(g, c2)
  {
    var a1 := (c1 - 2) * g.spc;
    var a2 := (c2 - 2) * g.spc;
    OffsetsOrdered(c1, c2, g.spc);
    SectorAt(g, 2, 0);
    SectorAt(g, c1, a1);
    SectorAt(g, c2, a2);
  }

  /** cluster_to_sector without wrap-around is data_start plus the offset. */
  lemma SectorAt(g: Layout, c: Word32, a: nat)
    requires 2 <= c && a == (c - 2) * g.spc && g.dataStart + a < U32
    ensures ClusterToSector(g, c) == g.dataStart + a
  {
    NoWrap(g.dataStart + a);
  }

  /** Cluster offsets `(c - 2) * k` of two clusters are at least k apart. */
  lemma OffsetsOrdered(c1: nat, c2: nat, k: nat)
    requires 2 <= c1 < c2
    ensures (c1 - 2) * k + k <= (c2 - 2) * k && (c2 - 2) * k + k == (c2 - 1) * k
  {
    MulSplit(c1 - 2, 1, k);
    MulLe(c1 - 1, c2 - 2, k);
    MulSplit(c2 - 2, 1, k);
  }

  /** The number of clusters create_chain allocates for `size` bytes:
      `(size + bytes_per_cluster - 1) / bytes_per_cluster` in 32-bit
      arithmetic. */
  function ClustersFor(bpc: Word32, size: Word32): Word32
    requires bpc > 0
  {
    ((size + bpc - 1) % U32) / bpc
  }

  /** Without wrap-around that is the rounded-up quotient: the fewest
      clusters that hold `size` bytes. */
  lemma ClustersForCeil(bpc: Word32, size: Word32)
    requires bpc > 0 && size + bpc - 1 < U32
    ensures ClustersFor(bpc, size) * bpc >= size
    ensures ClustersFor(bpc, size) > 0 ==> (ClustersFor(bpc, size) - 1) * bpc < size
  {
    var x := size + bpc - 1;
    var n := x / bpc;
    assert x == n * bpc + x % bpc && 0 <= x % bpc < bpc;
    MulSplit(n, 1, bpc);
    if n > 0 {
      MulSplit(n - 1, 1, bpc);
    }
  }

  // ---------------------------------------------------------------------
  // FAT entries
  // ---------------------------------------------------------------------

  /** get_fat_entry's sector: `fat_start + (cluster * 4) / bytes_per_sector`,
      with bytes_per_sector the 512 of the layout. */
  function EntrySector(g: Layout, c: Word32): Word32
  {
    (g.fatStart + (c * 4) % U32 / SECTOR_SIZE) % U32
  }

  /** ... and the entry's offset in it: `(cluster * 4) % bytes_per_sector`. */
  function EntryOffset(c: Word32): nat
  {
    (c * 4) % U32 % SECTOR_SIZE
  }

  lemma EntryOffsetFits(c: Word32)
    ensures EntryOffset(c) % 4 == 0 && EntryOffset(c) + 4 <= SECTOR_SIZE
  {
    var x := (c * 4) % U32;
    assert c * 4 == (c * 4) / U32 * U32 + x;
    assert x % 4 == 0;
  }

  /** get_fat_entry: the word at the entry's place with its reserved
      upper 4 bits masked off. */
  function FatEntry(g: Layout, d: Store, c: Word32): (r: nat)
    ensures r < ENTRY_SPAN
  {
    EntryOffsetFits(c);
    Low28(ReadSector(d, EntrySector(g, c)), EntryOffset(c))
  }

  /** The entry's reserved upper 4 bits. */
  function Reserved(g: Layout, d: Store, c: Word32): nat
  {
    EntryOffsetFits(c);
    High4(ReadSector(d, EntrySector(g, c)), EntryOffset(c))
  }

  /** Entry c sits in the first FAT, and the layout of all the FAT copies
      fits in 32 bits. */
  predicate InFirstFat(g: Layout, c: Word32)
  {
    c < g.fatSize * ENTRIES_PER_SECTOR && g.fatStart + g.numFats * g.fatSize < U32
  }

  /** Entries of the first FAT are consecutive 4-byte words from its first
      sector on: entry c is word c mod 128 of FAT sector c / 128. */
  lemma EntryPlace(g: Layout, c: Word32)
    requires LayoutOk(g) && InFirstFat(g, c) && g.numFats >= 1
    ensures EntrySector(g, c) == g.fatStart + c / ENTRIES_PER_SECTOR < g.fatStart + g.fatSize
    ensures EntryOffset(c) == c % ENTRIES_PER_SECTOR * 4
  {
    var q, r := c / ENTRIES_PER_SECTOR, c % ENTRIES_PER_SECTOR;
    assert c == q * ENTRIES_PER_SECTOR + r;
    MulSplit(1, g.numFats - 1, g.fatSize);
    assert c * 4 < U32;
    NoWrap(c * 4);
    ByteOffsetSplit(q, r * 4);
    assert (q * ENTRIES_PER_SECTOR + r * 4 / 4) * 4 == c * 4;
    NoWrap(g.fatStart + q);
  }

  lemma MulLe(x: nat, y: nat, k: nat)
    requires x <= y
    ensures x * k <= y * k
  {
    MulSplit(x, y - x, k);
  }

  /** The sector set_fat_entry writes: the entry's sector with the new
      value stored under the entry's reserved bits. */
  function SetImage(g: Layout, d: Store, c: Word32, v: Word32): (img: seq<Byte>)
    ensures |img| == SECTOR_SIZE
  {
    EntryOffsetFits(c);
    StoreEntry(ReadSector(d, EntrySector(g, c)), EntryOffset(c), v)
  }

  /** FAT copy i's sector holding the entry: `fat_sector + i * fat_size_32`
      in 32-bit arithmetic. */
  function CopySector(g: Layout, sec: Word32, i: nat): Word32
  {
    (sec + i * g.fatSize) % U32
  }

  /** The image written to the same sector of FAT copies i to
      num_fats - 1. */
  function WriteCopies(g: Layout, d: Store, sec: Word32, img: seq<Byte>, i: nat): Store
    decreases g.numFats - i
  {
    if i >= g.numFats then d
    else WriteCopies(g, d[CopySector(g, sec, i) := img], sec, img, i + 1)
  }

  /** set_fat_entry: the updated sector goes back to its place, and then
      to the same sector of every further FAT copy. */
  function SetEntrySpec(g: Layout, d: Store, c: Word32, v: Word32): Store
  {
    var sec := EntrySector(g, c);
    var img := SetImage(g, d, c, v);
    WriteCopies(g, d[sec := img], sec, img, 1)
  }

  /** A sector that already holds the image keeps it through the copies:
      each copy either lands elsewhere or writes the same image. */
  lemma {:induction false} CopiesKeep(g: Layout, d: Store, sec: Word32, img: seq<Byte>, i: nat)
    requires |img| == SECTOR_SIZE && ReadSector(d, sec) == img
    ensures ReadSector(WriteCopies(g, d, sec, img, i), sec) == img
    decreases g.numFats - i
  {
    if i < g.numFats {
      CopiesKeep(g, d[CopySector(g, sec, i) := img], sec, img, i + 1);
    }
  }

  /** Any sector that already holds the image keeps it through the
      copies. */
  lemma {:induction false} CopiesKeepAt(g: Layout, d: Store, sec: Word32, img: seq<Byte>, i: nat, s: nat)
    requires |img| == SECTOR_SIZE && ReadSector(d, s) == img
    ensures ReadSector(WriteCopies(g, d, sec, img, i), s) == img
    decreases g.numFats - i
  {
    if i < g.numFats {
      CopiesKeepAt(g, d[CopySector(g, sec, i) := img], sec, img, i + 1, s);
    }
  }

  /** Every FAT copy from i on holds the image at its sector. */
  lemma {:induction false} CopiesLand(g: Layout, d: Store, sec: Word32, img: seq<Byte>, i: nat, j: nat)
    requires |img| == SECTOR_SIZE && i <= j < g.numFats
    ensures ReadSector(WriteCopies(g, d, sec, img, i), CopySector(g, sec, j)) == img
    decreases g.numFats - i
  {
    var d' := d[CopySector(g, sec, i) := img];
    if i == j {
      CopiesKeepAt(g, d', sec, img, i + 1, CopySector(g, sec, j));
    } else {
      CopiesLand(g, d', sec, img, i + 1, j);
    }
  }

  /** set_fat_entry writes the updated sector to every backup copy too:
      the sector of copy j, fat_size_32 * j sectors on, holds the image. */
  lemma SetWritesCopies(g: Layout, d: Store, c: Word32, v: Word32, j: nat)
    requires 1 <= j < g.numFats
    ensures ReadSector(SetEntrySpec(g, d, c, v), CopySector(g, EntrySector(g, c), j)) == SetImage(g, d, c, v)
  {
    var sec := EntrySector(g, c);
    CopiesLand(g, d[sec := SetImage(g, d, c, v)], sec, SetImage(g, d, c, v), 1, j);
  }

  /** A sector no copy lands on is left alone. */
  lemma {:induction false} CopiesMiss(g: Layout, d: Store, sec: Word32, img: seq<Byte>, i: nat, s: nat)
    requires forall j :: i <= j < g.numFats ==> s != CopySector(g, sec, j)
    ensures ReadSector(WriteCopies(g, d, sec, img, i), s) == ReadSector(d, s)
    decreases g.numFats - i
  {
    if i < g.numFats {
      assert s != CopySector(g, sec, i);
      CopiesMiss(g, d[CopySector(g, sec, i) := img], sec, img, i + 1, s);
    }
  }

  /** After set_fat_entry(c, v), entry c reads back as the low 28 bits of
      v, and keeps its reserved upper 4 bits. */
  lemma SetThenGet(g: Layout, d: Store, c: Word32, v: Word32)
    ensures FatEntry(g, SetEntrySpec(g, d, c, v), c) == v % ENTRY_SPAN
    ensures Reserved(g, SetEntrySpec(g, d, c, v), c) == Reserved(g, d, c)
  {
    var sec := EntrySector(g, c);
    var img := SetImage(g, d, c, v);
    EntryOffsetFits(c);
    CopiesKeep(g, d[sec := img], sec, img, 1);
    StoreEntryReads(ReadSector(d, sec), EntryOffset(c), v);
  }

  /** An entry in the same sector at another offset keeps its value and
      its reserved bits. */
  lemma SetKeepsSameSector(g: Layout, d: Store, c: Word32, v: Word32, c2: Word32)
    requires EntrySector(g, c2) == EntrySector(g, c) && EntryOffset(c2) != EntryOffset(c)
    ensures FatEntry(g, SetEntrySpec(g, d, c, v), c2) == FatEntry(g, d, c2)
    ensures Reserved(g, SetEntrySpec(g, d, c, v), c2) == Reserved(g, d, c2)
  {
    var sec := EntrySector(g, c);
    var img := SetImage(g, d, c, v);
    EntryOffsetFits(c);
    EntryOffsetFits(c2);
    CopiesKeep(g, d[sec := img], sec, img, 1);
    StoreEntryKeeps(ReadSector(d, sec), EntryOffset(c), v, EntryOffset(c2));
  }

  /** A sector of the first FAT other than the entry's is left alone: the
      copies lie past the first FAT. */
  lemma SetKeepsOtherSectors(g: Layout, d: Store, c: Word32, v: Word32, s: nat)
    requires LayoutOk(g) && g.numFats >= 1 && InFirstFat(g, c)
    requires s != EntrySector(g, c) && s < g.fatStart + g.fatSize
    ensures ReadSector(SetEntrySpec(g, d, c, v), s) == ReadSector(d, s)
  {
    var sec := EntrySector(g, c);
    var img := SetImage(g, d, c, v);
    EntryPlace(g, c);
    forall j | 1 <= j < g.numFats
      ensures s != CopySector(g, sec, j)
    {
      CopyPastFirst(g, sec, j);
    }
    CopiesMiss(g, d[sec := img], sec, img, 1, s);
  }

  /** Every further FAT copy's sector lies past the first FAT. */
  lemma CopyPastFirst(g: Layout, sec: Word32, j: nat)
    requires g.fatStart <= sec < g.fatStart + g.fatSize && 1 <= j < g.numFats
    requires g.fatStart + g.numFats * g.fatSize < U32
    ensures CopySector(g, sec, j) >= g.fatStart + g.fatSize
  {
    var p := j * g.fatSize;
    MulSplit(j, g.numFats - j, g.fatSize);
    MulSplit(1, j - 1, g.fatSize);
    assert g.fatSize <= p && p + g.fatSize <= g.numFats * g.fatSize;
    assert sec + p < U32;
  }

  /** set_fat_entry(c, v) leaves every other entry of the first FAT as it
      was: entries are disjoint words, and the copies lie past the first
      FAT. */
  lemma SetKeepsOthers(g: Layout, d: Store, c: Word32, v: Word32, c2: Word32)
    requires LayoutOk(g) && g.numFats >= 1 && InFirstFat(g, c) && InFirstFat(g, c2) && c != c2
    ensures FatEntry(g, SetEntrySpec(g, d, c, v), c2) == FatEntry(g, d, c2)
  {
    EntryPlace(g, c);
    EntryPlace(g, c2);
    if EntrySector(g, c2) == EntrySector(g, c) {
      SetKeepsSameSector(g, d, c, v, c2);
    } else {
      SetKeepsOtherSectors(g, d, c, v, EntrySector(g, c2));
    }
  }

  // ---------------------------------------------------------------------
  // The free-cluster scan and chain creation
  // ---------------------------------------------------------------------

  /** The entry find_free_cluster reads at byte i of FAT sector s: the
      little-endian word there, low 28 bits. */
  function ScanWord(g: Layout, d: Store, s: nat, i: nat): nat
    requires i + 4 <= SECTOR_SIZE
  {
    Low28(ReadSector(d, (g.fatStart + s) % U32), i)
  }

  /** Byte i of FAT sector s holds the entry of cluster s * 128 + i / 4. */
  lemma ScanWordIsFatEntry(g: Layout, d: Store, s: nat, i: nat)
    requires i % 4 == 0 && i < SECTOR_SIZE && (s * ENTRIES_PER_SECTOR + i / 4) * 4 < U32
    ensures ScanWord(g, d, s, i) == FatEntry(g, d, s * ENTRIES_PER_SECTOR + i / 4)
  {
    var k := s * ENTRIES_PER_SECTOR + i / 4;
    ByteOffsetSplit(s, i);
    assert EntrySector(g, k) == (g.fatStart + s) % U32 && EntryOffset(k) == i;
  }

  lemma ByteOffsetSplit(s: nat, i: nat)
    requires i % 4 == 0 && i < SECTOR_SIZE && (s * ENTRIES_PER_SECTOR + i / 4) * 4 < U32
    ensures var x := (s * ENTRIES_PER_SECTOR + i / 4) * 4;
      x % U32 == x && x / SECTOR_SIZE == s && x % SECTOR_SIZE == i
  {
    assert (s * ENTRIES_PER_SECTOR + i / 4) * 4 == s * SECTOR_SIZE + i;
  }

  /** The clusters the scan covers: 128 per FAT sector. */
  function ScanLimit(g: Layout): nat
  {
    g.fatSize * ENTRIES_PER_SECTOR
  }

  /** find_free_cluster from byte i of FAT sector s on: the first cluster
      from 2 on whose entry is 0, or 0 when the FAT runs out. */
  function ScanFrom(g: Layout, d: Store, s: nat, i: nat): (r: nat)
    requires i % 4 == 0 && i <= SECTOR_SIZE
    ensures r == 0 || 2 <= r < ScanLimit(g)
    decreases g.fatSize - s, SECTOR_SIZE - i
  {
    if s >= g.fatSize then 0
    else if i == SECTOR_SIZE then ScanFrom(g, d, s + 1, 0)
    else
      var cluster := s * ENTRIES_PER_SECTOR + i / 4;
      if cluster >= 2 && ScanWord(g, d, s, i) == 0 then cluster else ScanFrom(g, d, s, i + 4)
  }

  /** find_free_cluster's answer. */
  function FreeCluster(g: Layout, d: Store): (r: nat)
    ensures r == 0 || 2 <= r < ScanLimit(g)
  {
    ScanFrom(g, d, 0, 0)
  }

  /** What the scan from position (s, i) promises: the cluster it finds
      is the least one from there (and from 2) on whose entry is 0, and it
      finds none only when there is none before the end of the first FAT. */
  predicate ScanLeast(g: Layout, d: Store, s: nat, i: nat)
    requires LayoutOk(g) && i % 4 == 0 && i <= SECTOR_SIZE
  {
    var r := ScanFrom(g, d, s, i);
    var k := s * ENTRIES_PER_SECTOR + i / 4;
    (r != 0 ==> 2 <= r && k <= r < ScanLimit(g) && FatEntry(g, d, r) == 0)
    && forall c: Word32 :: k <= c < (if r == 0 then ScanLimit(g) else r) && 2 <= c ==> FatEntry(g, d, c) != 0
  }

  lemma {:induction false} ScanFromLeast(g: Layout, d: Store, s: nat, i: nat)
    requires LayoutOk(g) && i % 4 == 0 && i <= SECTOR_SIZE
    ensures ScanLeast(g, d, s, i)
    decreases g.fatSize - s, SECTOR_SIZE - i
  {
    if s >= g.fatSize {
      ScanLeastEnd(g, d, s, i);
    } else if i == SECTOR_SIZE {
      ScanFromLeast(g, d, s + 1, 0);
      ScanLeastNextSector(g, d, s);
    } else {
      var k := s * ENTRIES_PER_SECTOR + i / 4;
      if k >= 2 && ScanWord(g, d, s, i) == 0 {
        ScanLeastHit(g, d, s, i);
      } else {
        ScanFromLeast(g, d, s, i + 4);
        ScanLeastMiss(g, d, s, i);
      }
    }
  }

  /** Past the last FAT sector the scan finds nothing, and there is
      nothing left to find. */
  lemma ScanLeastEnd(g: Layout, d: Store, s: nat, i: nat)
    requires LayoutOk(g) && i % 4 == 0 && i <= SECTOR_SIZE && s >= g.fatSize
    ensures ScanLeast(g, d, s, i)
  {
    MulSplit(g.fatSize, s - g.fatSize, ENTRIES_PER_SECTOR);
  }

  /** The end of a FAT sector hands over to the start of the next. */
  lemma ScanLeastNextSector(g: Layout, d: Store, s: nat)
    requires LayoutOk(g) && s < g.fatSize && ScanLeast(g, d, s + 1, 0)
    ensures ScanLeast(g, d, s, SECTOR_SIZE)
  {
    MulSplit(s, 1, ENTRIES_PER_SECTOR);
  }

  /** A word of the scan whose cluster is the answer. */
  lemma ScanLeastHit(g: Layout, d: Store, s: nat, i: nat)
    requires LayoutOk(g) && s < g.fatSize && i % 4 == 0 && i < SECTOR_SIZE
    requires s * ENTRIES_PER_SECTOR + i / 4 >= 2 && ScanWord(g, d, s, i) == 0
    ensures ScanLeast(g, d, s, i)
  {
    MulSplit(s + 1, g.fatSize - s - 1, ENTRIES_PER_SECTOR);
    ScanWordIsFatEntry(g, d, s, i);
  }

  /** A word of the scan whose cluster is passed over: the scan from the
      next word promises the rest. */
  lemma ScanLeastMiss(g: Layout, d: Store, s: nat, i: nat)
    requires LayoutOk(g) && s < g.fatSize && i % 4 == 0 && i < SECTOR_SIZE
    requires !(s * ENTRIES_PER_SECTOR + i / 4 >= 2 && ScanWord(g, d, s, i) == 0)
    requires ScanLeast(g, d, s, i + 4)
    ensures ScanLeast(g, d, s, i)
  {
    var k := s * ENTRIES_PER_SECTOR + i / 4;
    var r := ScanFrom(g, d, s, i + 4);
    ScanMiss(g, d, s, i);
    forall c: Word32 | k <= c < (if r == 0 then ScanLimit(g) else r) && 2 <= c
      ensures FatEntry(g, d, c) != 0
    {
      if c > k {
        assert k + 1 <= c;
      }
    }
  }

  /** The word passed over: the scan moves on to the next entry, and the
      entry skipped, when it is a cluster from 2 on, is not free. */
  lemma ScanMiss(g: Layout, d: Store, s: nat, i: nat)
    requires LayoutOk(g) && s < g.fatSize && i % 4 == 0 && i < SECTOR_SIZE
    requires !(s * ENTRIES_PER_SECTOR + i / 4 >= 2 && ScanWord(g, d, s, i) == 0)
    ensures var k := s * ENTRIES_PER_SECTOR + i / 4;
            ScanFrom(g, d, s, i) == ScanFrom(g, d, s, i + 4)
            && s * ENTRIES_PER_SECTOR + (i + 4) / 4 == k + 1 && k < ScanLimit(g)
            && (k >= 2 ==> FatEntry(g, d, k) != 0)
  {
    MulSplit(s + 1, g.fatSize - s - 1, ENTRIES_PER_SECTOR);
    ScanWordIsFatEntry(g, d, s, i);
  }

  /** The first-free search: the result is the least cluster from 2 on
      whose first-FAT entry is 0, or 0 when the FAT has none. */
  lemma FreeClusterIsLeast(g: Layout, d: Store)
    requires LayoutOk(g)
    ensures var r := FreeCluster(g, d);
      (r != 0 ==> 2 <= r < ScanLimit(g) && FatEntry(g, d, r) == 0)
      && forall c: Word32 :: 2 <= c < (if r == 0 then ScanLimit(g) else r) ==> FatEntry(g, d, c) != 0
  {
    ScanFromLeast(g, d, 0, 0);
  }

  /** create_chain from prev for n more clusters: the disk it leaves and
      the cluster it returns. Each round takes the first free cluster,
      links prev to it unless the chain is just starting, and ends the
      chain there; with no free cluster it stops and returns 0. */
  function ChainSpec(g: Layout, d: Store, prev: Word32, n: nat): (Store, Word32)
    requires LayoutOk(g)
    decreases n
  {
    if n == 0 then (d, prev)
    else
      var c := FreeCluster(g, d);
      if c == 0 then (d, 0)
      else if prev == 0 then ChainSpec(g, SetEntrySpec(g, d, c, FAT32_EOC), c, n - 1)
      else ChainSpec(g, SetEntrySpec(g, SetEntrySpec(g, d, prev, c), c, FAT32_EOC), c, n - 1)
  }

  /** A chain create_chain returns ends in an end-of-chain entry: its tail
      is a cluster from 2 on whose entry is FAT32_EOC. */
  lemma {:induction false} ChainTail(g: Layout, d: Store, prev: Word32, n: nat)
    requires LayoutOk(g) && n > 0 && ChainSpec(g, d, prev, n).1 != 0
    ensures var (d1, tail) := ChainSpec(g, d, prev, n);
      2 <= tail && FatEntry(g, d1, tail) == FAT32_EOC
    decreases n
  {
    var c := FreeCluster(g, d);
    FreeClusterIsLeast(g, d);
    var d0 := if prev == 0 then d else SetEntrySpec(g, d, prev, c);
    SetThenGet(g, d0, c, FAT32_EOC);
    if n > 1 {
      ChainTail(g, SetEntrySpec(g, d0, c, FAT32_EOC), c, n - 1);
    }
  }

  // ---------------------------------------------------------------------
  // Cluster transfers
  // ---------------------------------------------------------------------

  /** disk_write of `n` consecutive sectors from sector `s`, cut from
      `data` 512 bytes at a time. */
  function WriteRun(d: Store, s: nat, n: nat, data: seq<Byte>): Store
    requires |data| == n * SECTOR_SIZE
    decreases n
  {
    if n == 0 then d else WriteRun(d[s := data[..SECTOR_SIZE]], s + 1, n - 1, data[SECTOR_SIZE..])
  }

  /** A run of sector writes leaves every sector outside the run alone. */
  lemma {:induction false} WriteRunKeeps(d: Store, s: nat, n: nat, data: seq<Byte>, t: nat)
    requires |data| == n * SECTOR_SIZE && (t < s || s + n <= t)
    ensures ReadSector(WriteRun(d, s, n, data), t) == ReadSector(d, t)
    decreases n
  {
    if n > 0 {
      WriteRunKeeps(d[s := data[..SECTOR_SIZE]], s + 1, n - 1, data[SECTOR_SIZE..], t);
    }
  }

  /** Sector `s + t` of a run just written holds the run's t-th 512 bytes. */
  lemma {:induction false} WriteRunReads(d: Store, s: nat, n: nat, data: seq<Byte>, t: nat)
    requires |data| == n * SECTOR_SIZE && t < n
    ensures ReadSector(WriteRun(d, s, n, data), s + t) == data[t * SECTOR_SIZE..(t + 1) * SECTOR_SIZE]
    decreases n
  {
    var d1 := d[s := data[..SECTOR_SIZE]];
    if t == 0 {
      WriteRunKeeps(d1, s + 1, n - 1, data[SECTOR_SIZE..], s);
    } else {
      WriteRunReads(d1, s + 1, n - 1, data[SECTOR_SIZE..], t - 1);
      assert (t - 1) * SECTOR_SIZE + SECTOR_SIZE == t * SECTOR_SIZE;
      assert t * SECTOR_SIZE + SECTOR_SIZE == (t + 1) * SECTOR_SIZE;
      assert data[SECTOR_SIZE..][(t - 1) * SECTOR_SIZE..t * SECTOR_SIZE] == data[t * SECTOR_SIZE..(t + 1) * SECTOR_SIZE];
    }
  }

  /** read_cluster: the sectors_per_cluster sectors from the cluster's
      first sector, one after the other. */
  function ClusterData(g: Layout, d: Store, c: Word32): (r: seq<Byte>)
    requires LayoutOk(g)
    ensures |r| == g.bytesPerCluster
  {
    seq(g.bytesPerCluster, j requires 0 <= j < g.bytesPerCluster =>
          ReadSector(d, ClusterToSector(g, c) + j / SECTOR_SIZE)[j % SECTOR_SIZE])
  }

  /** write_cluster. */
  function PutCluster(g: Layout, d: Store, c: Word32, data: seq<Byte>): Store
    requires LayoutOk(g) && |data| == g.bytesPerCluster
  {
    WriteRun(d, ClusterToSector(g, c), g.spc, data)
  }

  /** write_cluster then read_cluster of the same cluster round-trips. */
  lemma PutThenRead(g: Layout, d: Store, c: Word32, data: seq<Byte>)
    requires LayoutOk(g) && |data| == g.bytesPerCluster
    ensures ClusterData(g, PutCluster(g, d, c, data), c) == data
  {
    var r := ClusterData(g, PutCluster(g, d, c, data), c);
    forall j | 0 <= j < |data|
      ensures r[j] == data[j]
    {
      var t := j / SECTOR_SIZE;
      WriteRunReads(d, ClusterToSector(g, c), g.spc, data, t);
      assert j == t * SECTOR_SIZE + j % SECTOR_SIZE;
    }
  }

  // ---------------------------------------------------------------------
  // fat32_read and fat32_write, one chunk at a time
  // ---------------------------------------------------------------------

  /** `min(size, bytes_per_cluster - position % bytes_per_cluster)`: what
      is left of the request, cut at the end of the current cluster. */
  function InCluster(g: Layout, pos: Word32, n: nat): (k: nat)
    requires LayoutOk(g)
    ensures k <= n && (n > 0 ==> k >= 1)
    ensures pos % g.bytesPerCluster + k <= g.bytesPerCluster
  {
    Min(n, g.bytesPerCluster - pos % g.bytesPerCluster)
  }

  /** fat32_read's chunk: cut further at the file size when the 32-bit
      sum `position + to_read` passes it. */
  function ReadLen(g: Layout, fsize: Word32, pos: Word32, n: nat): (k: nat)
    requires LayoutOk(g) && pos < fsize
    ensures k <= InCluster(g, pos, n) && (n > 0 ==> k >= 1)
    ensures pos + k < U32 ==> pos + k <= fsize
  {
    var k := InCluster(g, pos, n);
    if (pos + k) % U32 > fsize then fsize - pos else k
  }

  /** The bytes read, the final position and the final current cluster. */
  datatype ReadOut = ReadOut(data: seq<Byte>, pos: Word32, cur: Word32)

  /** fat32_read's loop from `pos` in cluster `cur` with `n` bytes still
      wanted and `acc` read so far, on a file of `fsize` bytes: it stops
      at the end of the request or of the file, and otherwise takes the
      next chunk from the current cluster. (`to_read` is never 0 in a
      loop round that gets that far, so the source's `to_read > 0` test
      always holds.) */
  function ReadFrom(g: Layout, d: Store, fsize: Word32, pos: Word32, cur: Word32, n: nat, acc: seq<Byte>): ReadOut
    requires LayoutOk(g)
    decreases n, 0
  {
    if n == 0 || pos >= fsize then ReadOut(acc, pos, cur)
    else
      var off := pos % g.bytesPerCluster;
      var k := ReadLen(g, fsize, pos, n);
      ReadNext(g, d, fsize, (pos + k) % U32, cur, n - k, acc + ClusterData(g, d, cur)[off..off + k])
  }

  /** The end of a round of fat32_read's loop: when the chunk ended at a
      cluster boundary and more is wanted, the walk follows the FAT, and
      stops at an entry that is at or above FAT32_EOC or below 2. */
  function ReadNext(g: Layout, d: Store, fsize: Word32, pos: Word32, cur: Word32, n: nat, acc: seq<Byte>): ReadOut
    requires LayoutOk(g)
    decreases n, 1
  {
    if pos % g.bytesPerCluster == 0 && n > 0 then
      var next := FatEntry(g, d, cur);
      if next >= FAT32_EOC || next < 2 then ReadOut(acc, pos, cur)
      else ReadFrom(g, d, fsize, pos, next, n, acc)
    else ReadFrom(g, d, fsize, pos, cur, n, acc)
  }

  /** One chunk of fat32_read's loop: `to_read` is what is left of the
      cluster or of the request, cut at the file size when the 32-bit sum
      passes it, and that many bytes of the current cluster are appended. */
  method ReadChunk(g: Layout, d: Store, fsize: Word32, pos: Word32, cur: Word32, size: nat, data: seq<Byte>)
    returns (pos': Word32, size': nat, data': seq<Byte>)
    requires LayoutOk(g) && size > 0 && pos < fsize
    ensures size' < size
    ensures ReadFrom(g, d, fsize, pos, cur, size, data) == ReadNext(g, d, fsize, pos', cur, size', data')
  {
    var off := pos % g.bytesPerCluster;
    var toRead: nat := Min(size, g.bytesPerCluster - off);
    if (pos + toRead) % U32 > fsize {
      toRead := fsize - pos;
    }
    assert toRead == ReadLen(g, fsize, pos, size);
    var buf := ClusterData(g, d, cur);
    data' := data + buf[off..off + toRead];
    pos' := (pos + toRead) % U32;
    size' := size - toRead;
    assert ReadFrom(g, d, fsize, pos, cur, size, data) == ReadNext(g, d, fsize, pos', cur, size', data');
  }

  /** The write of one chunk of fat32_write's loop: `buf[i..i + k]` goes
      into cluster `cur` at the position's offset by a read-modify-write,
      the position moves on by k in 32-bit arithmetic, and the size grows
      to the position when it passes it. */
  method PatchCluster(g: Layout, d: Store, fsize: Word32, pos: Word32, cur: Word32, buf: seq<Byte>, i: nat, k: nat)
    returns (d': Store, fsize': Word32, pos': Word32)
    requires LayoutOk(g) && i < |buf| && k == InCluster(g, pos, |buf| - i)
    ensures WriteInto(g, d, fsize, pos, cur, buf[i..], i) == WriteFrom(g, d', fsize', pos', cur, buf[i + k..], i + k)
  {
    var img := ClusterData(g, d, cur);
    d' := PutCluster(g, d, cur, Patch(img, pos % g.bytesPerCluster, buf[i..i + k]));
    pos' := (pos + k) % U32;
    fsize' := fsize;
    if pos' > fsize {
      fsize' := pos';
    }
    assert buf[i..][..k] == buf[i..i + k] && buf[i..][k..] == buf[i + k..];
    WriteIntoRound(g, d, fsize, pos, cur, buf[i..], i, k, d', fsize', pos');
  }

  /** The cleared cluster a write at the end of the file moves to: the
      first free cluster, linked after `cur` and marking the end of the
      chain. */
  function Extend(g: Layout, d: Store, cur: Word32): Store
    requires LayoutOk(g) && FreeCluster(g, d) != 0
  {
    var nc := FreeCluster(g, d);
    PutCluster(g, SetEntrySpec(g, SetEntrySpec(g, d, cur, nc), nc, FAT32_EOC), nc, Zeros(g.bytesPerCluster))
  }

  /** The memcpy into the cluster buffer: `chunk` over `img` from `off`. */
  function Patch(img: seq<Byte>, off: nat, chunk: seq<Byte>): (r: seq<Byte>)
    requires off + |chunk| <= |img|
    ensures |r| == |img| && r[off..off + |chunk|] == chunk
    ensures forall j :: 0 <= j < |img| && !(off <= j < off + |chunk|) ==> r[j] == img[j]
  {
    img[..off] + chunk + img[off + |chunk|..]
  }

  /** A write round at a cluster boundary at or past the end of the file
      moves to a fresh cluster first. */
  predicate Grows(g: Layout, fsize: Word32, pos: Word32)
    requires LayoutOk(g)
  {
    pos % g.bytesPerCluster == 0 && pos >= fsize
  }

  /** The store, the file size, the final position and current cluster,
      and the count of bytes written. */
  datatype WriteOut = WriteOut(d: Store, size: Word32, pos: Word32, cur: Word32, written: nat)

  /** fat32_write's loop from `pos` in cluster `cur` with `buf` still to
      write and `written` bytes written so far, on a file of `fsize`
      bytes: at a cluster boundary at or past the end of the file it
      first moves to a fresh cluster, and stops when none is free. */
  function WriteFrom(g: Layout, d: Store, fsize: Word32, pos: Word32, cur: Word32, buf: seq<Byte>, written: nat): WriteOut
    requires LayoutOk(g)
    decreases |buf|, 1
  {
    if |buf| == 0 then WriteOut(d, fsize, pos, cur, written)
    else if Grows(g, fsize, pos) then
      if FreeCluster(g, d) == 0 then WriteOut(d, fsize, pos, cur, written)
      else WriteInto(g, Extend(g, d, cur), fsize, pos, FreeCluster(g, d), buf, written)
    else WriteInto(g, d, fsize, pos, cur, buf, written)
  }

  /** The rest of a round of fat32_write's loop: the chunk that fits in
      cluster `cur` goes into it by a read-modify-write, the size grows to
      the new position, and the loop goes on. */
  function WriteInto(g: Layout, d: Store, fsize: Word32, pos: Word32, cur: Word32, buf: seq<Byte>, written: nat): WriteOut
    requires LayoutOk(g) && |buf| > 0
    decreases |buf|, 0
  {
    var k := InCluster(g, pos, |buf|);
    var pos' := (pos + k) % U32;
    WriteFrom(g, PutCluster(g, d, cur, Patch(ClusterData(g, d, cur), pos % g.bytesPerCluster, buf[..k])),
              Max(fsize, pos'), pos', cur, buf[k..], written + k)
  }

  /** The read-modify-write of a round of fat32_write's loop, ending in
      the store `d'`, the size `fsize'` and the position `pos'`. */
  lemma WriteIntoRound(g: Layout, d: Store, fsize: Word32, pos: Word32, cur: Word32, buf: seq<Byte>, written: nat,
                       k: nat, d': Store, fsize': Word32, pos': Word32)
    requires LayoutOk(g) && |buf| > 0 && k == InCluster(g, pos, |buf|)
    requires pos' == (pos + k) % U32 && fsize' == Max(fsize, pos')
    requires d' == PutCluster(g, d, cur, Patch(ClusterData(g, d, cur), pos % g.bytesPerCluster, buf[..k]))
    ensures WriteInto(g, d, fsize, pos, cur, buf, written) == WriteFrom(g, d', fsize', pos', cur, buf[k..], written + k)
  {
    WriteIntoUnfold(g, d, fsize, pos, cur, buf, written);
  }

  /** One round of the write loop, as WriteInto spells it out. */
  lemma WriteIntoUnfold(g: Layout, d: Store, fsize: Word32, pos: Word32, cur: Word32, buf: seq<Byte>, written: nat)
    requires LayoutOk(g) && |buf| > 0
    ensures var k := InCluster(g, pos, |buf|);
            var pos' := (pos + k) % U32;
            WriteInto(g, d, fsize, pos, cur, buf, written)
            == WriteFrom(g, PutCluster(g, d, cur, Patch(ClusterData(g, d, cur), pos % g.bytesPerCluster, buf[..k])),
                         Max(fsize, pos'), pos', cur, buf[k..], written + k)
  {
  }

  /** fat32_read hands back at most what was asked for, appended to what
      it had. */
  lemma {:induction false} ReadFromLength(g: Layout, d: Store, fsize: Word32, pos: Word32, cur: Word32, n: nat, acc: seq<Byte>)
    requires LayoutOk(g)
    ensures var r := ReadFrom(g, d, fsize, pos, cur, n, acc);
            |acc| <= |r.data| <= |acc| + n && r.data[..|acc|] == acc
    decreases n, 0
  {
    if n == 0 || pos >= fsize {
    } else {
      var off := pos % g.bytesPerCluster;
      var k := ReadLen(g, fsize, pos, n);
      var acc' := acc + ClusterData(g, d, cur)[off..off + k];
      var r := ReadNext(g, d, fsize, (pos + k) % U32, cur, n - k, acc');
      ReadNextLength(g, d, fsize, (pos + k) % U32, cur, n - k, acc');
      assert r.data[..|acc|] == r.data[..|acc'|][..|acc|];
    }
  }

  /** The same for the cluster step at the end of a round. */
  lemma {:induction false} ReadNextLength(g: Layout, d: Store, fsize: Word32, pos: Word32, cur: Word32, n: nat, acc: seq<Byte>)
    requires LayoutOk(g)
    ensures var r := ReadNext(g, d, fsize, pos, cur, n, acc);
            |acc| <= |r.data| <= |acc| + n && r.data[..|acc|] == acc
    decreases n, 1
  {
    if pos % g.bytesPerCluster == 0 && n > 0 {
      var next := FatEntry(g, d, cur);
      if 2 <= next < FAT32_EOC {
        ReadFromLength(g, d, fsize, pos, next, n, acc);
      }
    } else {
      ReadFromLength(g, d, fsize, pos, cur, n, acc);
    }
  }

  /** On a file that is not within a cluster of the 32-bit end, a read
      from inside the file moves the position by exactly the bytes read
      and leaves it within the file. */
  lemma {:induction false} ReadFromPosition(g: Layout, d: Store, fsize: Word32, pos: Word32, cur: Word32, n: nat, acc: seq<Byte>)
    requires LayoutOk(g) && pos <= fsize && fsize + g.bytesPerCluster <= U32
    ensures var r := ReadFrom(g, d, fsize, pos, cur, n, acc);
            r.pos == pos + (|r.data| - |acc|) <= fsize
    decreases n, 0
  {
    if n == 0 || pos >= fsize {
    } else {
      var off := pos % g.bytesPerCluster;
      var k := ReadLen(g, fsize, pos, n);
      var acc' := acc + ClusterData(g, d, cur)[off..off + k];
      assert k <= g.bytesPerCluster;
      NoWrap(pos + k);
      assert |acc'| == |acc| + k;
      assert ReadFrom(g, d, fsize, pos, cur, n, acc) == ReadNext(g, d, fsize, pos + k, cur, n - k, acc');
      ReadNextPosition(g, d, fsize, pos + k, cur, n - k, acc');
    }
  }

  /** The same for the cluster step at the end of a round. */
  lemma {:induction false} ReadNextPosition(g: Layout, d: Store, fsize: Word32, pos: Word32, cur: Word32, n: nat, acc: seq<Byte>)
    requires LayoutOk(g) && pos <= fsize && fsize + g.bytesPerCluster <= U32
    ensures var r := ReadNext(g, d, fsize, pos, cur, n, acc);
            r.pos == pos + (|r.data| - |acc|) <= fsize
    decreases n, 1
  {
    if pos % g.bytesPerCluster == 0 && n > 0 {
      var next := FatEntry(g, d, cur);
      if 2 <= next < FAT32_EOC {
        ReadFromPosition(g, d, fsize, pos, next, n, acc);
      }
    } else {
      ReadFromPosition(g, d, fsize, pos, cur, n, acc);
    }
  }

  /** A read that comes back short stopped at the end of the file, or at
      a cluster boundary whose FAT entry ends the chain. */
  lemma {:induction false} ReadFromShort(g: Layout, d: Store, fsize: Word32, pos: Word32, cur: Word32, n: nat, acc: seq<Byte>)
    requires LayoutOk(g)
    ensures var r := ReadFrom(g, d, fsize, pos, cur, n, acc);
            |r.data| < |acc| + n ==>
              r.pos >= fsize
              || (r.pos % g.bytesPerCluster == 0 && (FatEntry(g, d, r.cur) >= FAT32_EOC || FatEntry(g, d, r.cur) < 2))
    decreases n, 0
  {
    if n == 0 || pos >= fsize {
    } else {
      var off := pos % g.bytesPerCluster;
      var k := ReadLen(g, fsize, pos, n);
      var acc' := acc + ClusterData(g, d, cur)[off..off + k];
      ReadNextShort(g, d, fsize, (pos + k) % U32, cur, n - k, acc');
    }
  }

  /** The same for the cluster step at the end of a round. */
  lemma {:induction false} ReadNextShort(g: Layout, d: Store, fsize: Word32, pos: Word32, cur: Word32, n: nat, acc: seq<Byte>)
    requires LayoutOk(g)
    ensures var r := ReadNext(g, d, fsize, pos, cur, n, acc);
            |r.data| < |acc| + n ==>
              r.pos >= fsize
              || (r.pos % g.bytesPerCluster == 0 && (FatEntry(g, d, r.cur) >= FAT32_EOC || FatEntry(g, d, r.cur) < 2))
    decreases n, 1
  {
    if pos % g.bytesPerCluster == 0 && n > 0 {
      var next := FatEntry(g, d, cur);
      if 2 <= next < FAT32_EOC {
        ReadFromShort(g, d, fsize, pos, next, n, acc);
      }
    } else {
      ReadFromShort(g, d, fsize, pos, cur, n, acc);
    }
  }

  /** fat32_write reports at most the bytes it was given, and writes
      fewer only when it needed a new cluster and the FAT had none free. */
  lemma {:induction false} WriteFromLength(g: Layout, d: Store, fsize: Word32, pos: Word32, cur: Word32, buf: seq<Byte>, written: nat)
    requires LayoutOk(g)
    ensures var r := WriteFrom(g, d, fsize, pos, cur, buf, written);
            written <= r.written <= written + |buf|
            && (r.written < written + |buf| ==> FreeCluster(g, r.d) == 0)
    decreases |buf|, 1
  {
    if |buf| == 0 {
    } else if Grows(g, fsize, pos) {
      if FreeCluster(g, d) != 0 {
        WriteIntoLength(g, Extend(g, d, cur), fsize, pos, FreeCluster(g, d), buf, written);
      }
    } else {
      WriteIntoLength(g, d, fsize, pos, cur, buf, written);
    }
  }

  /** The same for a round that writes into the current cluster. */
  lemma {:induction false} WriteIntoLength(g: Layout, d: Store, fsize: Word32, pos: Word32, cur: Word32, buf: seq<Byte>, written: nat)
    requires LayoutOk(g) && |buf| > 0
    ensures var r := WriteInto(g, d, fsize, pos, cur, buf, written);
            written < r.written <= written + |buf|
            && (r.written < written + |buf| ==> FreeCluster(g, r.d) == 0)
    decreases |buf|, 0
  {
    var k := InCluster(g, pos, |buf|);
    var pos' := (pos + k) % U32;
    var d' := PutCluster(g, d, cur, Patch(ClusterData(g, d, cur), pos % g.bytesPerCluster, buf[..k]));
    WriteIntoRound(g, d, fsize, pos, cur, buf, written, k, d', Max(fsize, pos'), pos');
    WriteFromLength(g, d', Max(fsize, pos'), pos', cur, buf[k..], written + k);
  }

  /** Where the position cannot wrap and starts within the file, a write
      moves it by the bytes written, and the size becomes the larger of
      the old size and the new position. */
  lemma {:induction false} WriteFromPosition(g: Layout, d: Store, fsize: Word32, pos: Word32, cur: Word32, buf: seq<Byte>, written: nat)
    requires LayoutOk(g) && pos <= fsize && pos + |buf| < U32
    ensures var r := WriteFrom(g, d, fsize, pos, cur, buf, written);
            r.written >= written && r.pos == pos + (r.written - written) && r.size == Max(fsize, r.pos)
    decreases |buf|, 1
  {
    if |buf| == 0 {
    } else if Grows(g, fsize, pos) {
      if FreeCluster(g, d) != 0 {
        WriteIntoPosition(g, Extend(g, d, cur), fsize, pos, FreeCluster(g, d), buf, written);
      }
    } else {
      WriteIntoPosition(g, d, fsize, pos, cur, buf, written);
    }
  }

  /** The same for a round that writes into the current cluster. */
  lemma {:induction false} WriteIntoPosition(g: Layout, d: Store, fsize: Word32, pos: Word32, cur: Word32, buf: seq<Byte>, written: nat)
    requires LayoutOk(g) && |buf| > 0 && pos <= fsize && pos + |buf| < U32
    ensures var r := WriteInto(g, d, fsize, pos, cur, buf, written);
            r.written >= written && r.pos == pos + (r.written - written) && r.size == Max(fsize, r.pos)
    decreases |buf|, 0
  {
    var k := InCluster(g, pos, |buf|);
    NoWrap(pos + k);
    var d' := PutCluster(g, d, cur, Patch(ClusterData(g, d, cur), pos % g.bytesPerCluster, buf[..k]));
    WriteIntoRound(g, d, fsize, pos, cur, buf, written, k, d', Max(fsize, pos + k), pos + k);
    WriteFromPosition(g, d', Max(fsize, pos + k), pos + k, cur, buf[k..], written + k);
  }

  /** A write that fits in one cluster, and does not run out of clusters,
      can be read back: reading as many bytes from the same position and
      the cluster the write ended in returns exactly what was written. */
  lemma WriteThenRead(g: Layout, d: Store, fsize: Word32, pos: Word32, cur: Word32, buf: seq<Byte>)
    requires LayoutOk(g) && 0 < |buf| && pos % g.bytesPerCluster + |buf| <= g.bytesPerCluster
    requires pos + |buf| < U32
    requires !Grows(g, fsize, pos) || FreeCluster(g, d) != 0
    ensures var r := WriteFrom(g, d, fsize, pos, cur, buf, 0);
            r.written == |buf| && ReadFrom(g, r.d, r.size, pos, r.cur, |buf|, []).data == buf
  {
    var d0, c := d, cur;
    if Grows(g, fsize, pos) {
      d0, c := Extend(g, d, cur), FreeCluster(g, d);
    }
    assert WriteFrom(g, d, fsize, pos, cur, buf, 0) == WriteInto(g, d0, fsize, pos, c, buf, 0);
    var off := pos % g.bytesPerCluster;
    var k := |buf|;
    assert InCluster(g, pos, |buf|) == k;
    var img := Patch(ClusterData(g, d0, c), off, buf);
    assert buf[..k] == buf && buf[k..] == [];
    var d' := PutCluster(g, d0, c, img);
    NoWrap(pos + k);
    WriteIntoRound(g, d0, fsize, pos, c, buf, 0, k, d', Max(fsize, pos + k), pos + k);
    var r := WriteFrom(g, d, fsize, pos, cur, buf, 0);
    assert r == WriteFrom(g, d', Max(fsize, pos + k), pos + k, c, [], k);
    assert r == WriteOut(d', Max(fsize, pos + k), pos + k, c, k);
    PutThenRead(g, d0, c, img);
    assert ReadLen(g, r.size, pos, k) == k;
    assert ClusterData(g, d', c)[off..off + k] == buf;
  }

  // ---------------------------------------------------------------------
  // The open file
  // ---------------------------------------------------------------------

  /** The FILE handle fat32_open fills in and fat32_read/fat32_write move
      along. */
  class FileHandle {
    var startCluster: Word32
    var currentCluster: Word32
    var position: Word32
    var size: Word32
    var dirSector: Word32
    var dirOffset: Word32
    var modified: bool
    var mode: Byte

    /** The handle fat32_open builds from a directory entry: the start
        cluster from its high and low halves, position 0, not modified. */
    constructor(high: Word16, low: Word16, fileSize: Word32, sector: Word32, offset: Word32, m: Byte)
      ensures startCluster == high * 0x1_0000 + low && currentCluster == startCluster
      ensures position == 0 && size == fileSize && dirSector == sector && dirOffset == offset
      ensures !modified && mode == m
    {
      startCluster := high * 0x1_0000 + low;
      currentCluster := high * 0x1_0000 + low;
      position := 0;
      size := fileSize;
      dirSector := sector;
      dirOffset := offset;
      modified := false;
      mode := m;
    }
  }

  // ---------------------------------------------------------------------
  // The volume: the global `fs`
  // ---------------------------------------------------------------------

  class Volume {
    var bpb: BootSector
    var fatStart: Word32
    var dataStart: Word32
    var bytesPerCluster: Word32
    var rootDirCluster: Word32
    const drive: Drive

    function Geo(): Layout
      reads this
    {
      Layout(bpb.bytesPerSector, bpb.sectorsPerCluster, bpb.numFats, bpb.fatSize32,
             fatStart, dataStart, bytesPerCluster)
    }

    predicate Valid()
      reads this
    {
      LayoutOk(Geo())
    }

    /** The zero-initialised global, over a drive. */
    constructor(dr: Drive)
      ensures drive == dr && fatStart == 0 && dataStart == 0 && bytesPerCluster == 0 && rootDirCluster == 0
    {
      bpb := BootSector(0, 0, 0, 0, 0, 0, 0, []);
      fatStart := 0;
      dataStart := 0;
      bytesPerCluster := 0;
      rootDirCluster := 0;
      drive := dr;
    }

    /** fat32_init with the boot sector `b` read from sector `boot`: the
        boot sector always lands in `fs.bpb`; without the "FAT32"
        signature the result is -1 and nothing else changes, otherwise the
        layout follows in 32-bit arithmetic and the result is 0. */
    method Init(boot: Word32, b: BootSector) returns (r: int)
      modifies this
      ensures bpb == b
      ensures !Fat32Signature(b.fsType) ==>
                r == -1 && fatStart == old(fatStart) && dataStart == old(dataStart)
                && bytesPerCluster == old(bytesPerCluster) && rootDirCluster == old(rootDirCluster)
      ensures Fat32Signature(b.fsType) ==>
                r == 0
                && fatStart == (boot + b.reservedSectors) % U32
                && dataStart == (fatStart + b.numFats * b.fatSize32) % U32
                && bytesPerCluster == b.bytesPerSector * b.sectorsPerCluster
                && rootDirCluster == b.rootCluster
    {
      bpb := b;
      if |b.fsType| < 5 || b.fsType[0] != 0x46 || b.fsType[1] != 0x41 || b.fsType[2] != 0x54
         || b.fsType[3] != 0x33 || b.fsType[4] != 0x32 {
        assert !Fat32Signature(b.fsType);
        return -1;
      }
      assert b.fsType[..5] == [0x46, 0x41, 0x54, 0x33, 0x32];
      fatStart := (boot + b.reservedSectors) % U32;
      dataStart := (fatStart + b.numFats * b.fatSize32) % U32;
      ProductFits(b.bytesPerSector, b.sectorsPerCluster);
      bytesPerCluster := b.bytesPerSector * b.sectorsPerCluster;
      rootDirCluster := b.rootCluster;
      return 0;
    }

    /** set_fat_entry. */
    method SetFatEntry(c: Word32, v: Word32)
      requires Valid()
      modifies drive
      ensures drive.sectors == SetEntrySpec(Geo(), old(drive.sectors), c, v)
    {
      var g := Geo();
      var sec := EntrySector(g, c);
      var sector := SetImage(g, drive.sectors, c, v);
      ghost var d := drive.sectors;
      drive.sectors := drive.sectors[sec := sector];
      var i := 1;
      while i < bpb.numFats
        invariant 1 <= i
        invariant WriteCopies(g, drive.sectors, sec, sector, i) == SetEntrySpec(g, d, c, v)
        decreases bpb.numFats - i
      {
        drive.sectors := drive.sectors[CopySector(g, sec, i) := sector];
        i := i + 1;
      }
    }

    /** find_free_cluster: sector by sector through the first FAT, word by
        word through each sector, skipping clusters 0 and 1. */
    method FindFreeCluster() returns (c: Word32)
      requires Valid()
      ensures c == FreeCluster(Geo(), drive.sectors)
    {
      var g := Geo();
      ghost var d := drive.sectors;
      var s := 0;
      while s < bpb.fatSize32
        invariant s <= bpb.fatSize32
        invariant ScanFrom(g, d, s, 0) == ScanFrom(g, d, 0, 0)
      {
        var sector := ReadSector(drive.sectors, (fatStart + s) % U32);
        var i := 0;
        while i < bpb.bytesPerSector
          invariant i % 4 == 0 && i <= SECTOR_SIZE
          invariant ScanFrom(g, d, s, i) == ScanFrom(g, d, 0, 0)
        {
          var entry := Low28(sector, i);
          var cluster := s * (bpb.bytesPerSector / 4) + i / 4;
          if cluster >= 2 && entry == 0 {
            return cluster;
          }
          i := i + 4;
        }
        s := s + 1;
      }
      return 0;
    }

    /** create_chain: `size` bytes' worth of clusters linked on from
        `start` (or from the first one found, when `start` is 0); returns
        the tail, or 0 when the disk runs out of free clusters. */
    method CreateChain(start: Word32, size: Word32) returns (tail: Word32)
      requires Valid()
      modifies drive
      ensures (drive.sectors, tail) == ChainSpec(Geo(), old(drive.sectors), start, ClustersFor(bytesPerCluster, size))
    {
      var g := Geo();
      ghost var goal := ChainSpec(g, drive.sectors, start, ClustersFor(bytesPerCluster, size));
      var prev := start;
      var needed := ClustersFor(bytesPerCluster, size);
      var i := 0;
      while i < needed
        invariant i <= needed
        invariant ChainSpec(g, drive.sectors, prev, needed - i) == goal
      {
        var c := FindFreeCluster();
        if c == 0 {
          return 0;
        }
        if prev == 0 {
          prev := c;
          SetFatEntry(c, FAT32_EOC);
        } else {
          SetFatEntry(prev, c);
          SetFatEntry(c, FAT32_EOC);
          prev := c;
        }
        i := i + 1;
      }
      return prev;
    }

    /** fat32_read: nothing without read permission (mode bit 0) or
        without a handle; otherwise the loop of ReadFrom, with the bytes
        read returned and the handle's position and current cluster
        moved on. */
    method Read(f: FileHandle?, n: Word32) returns (data: seq<Byte>)
      requires Valid()
      modifies f
      ensures f == null || f.mode % 2 == 0 ==> data == []
      ensures f != null ==> f.startCluster == old(f.startCluster) && f.size == old(f.size)
                            && f.dirSector == old(f.dirSector) && f.dirOffset == old(f.dirOffset)
                            && f.modified == old(f.modified) && f.mode == old(f.mode)
      ensures f != null && f.mode % 2 == 0 ==> f.position == old(f.position) && f.currentCluster == old(f.currentCluster)
      ensures f != null && f.mode % 2 == 1 ==>
                ReadOut(data, f.position, f.currentCluster)
                == ReadFrom(Geo(), drive.sectors, f.size, old(f.position), old(f.currentCluster), n, [])
    {
      if f == null || f.mode % 2 == 0 {
        return [];
      }
      var g := Geo();
      var d := drive.sectors;
      var fsize := f.size;
      var pos: Word32, cur: Word32 := f.position, f.currentCluster;
      ghost var goal := ReadFrom(g, d, fsize, pos, cur, n, []);
      data := [];
      var size: nat := n;
      while size > 0
        invariant ReadFrom(g, d, fsize, pos, cur, size, data) == goal
        modifies {}
      {
        if pos >= fsize {
          break;
        }
        pos, size, data := ReadChunk(g, d, fsize, pos, cur, size, data);
        if pos % bytesPerCluster == 0 && size > 0 {
          var next := FatEntry(g, d, cur);
          if next >= FAT32_EOC || next < 2 {
            break;
          }
          cur := next;
        }
      }
      f.position, f.currentCluster := pos, cur;
    }

    /** The allocation step of fat32_write: the first free cluster is
        linked after the current one, marked as the end of the chain,
        cleared, and made current; false and nothing changed when no
        cluster is free. */
    method NextCluster(f: FileHandle) returns (ok: bool)
      requires Valid()
      modifies drive, f`currentCluster
      ensures ok == (FreeCluster(Geo(), old(drive.sectors)) != 0)
      ensures ok ==> drive.sectors == Extend(Geo(), old(drive.sectors), old(f.currentCluster))
                     && f.currentCluster == FreeCluster(Geo(), old(drive.sectors))
      ensures !ok ==> drive.sectors == old(drive.sectors) && f.currentCluster == old(f.currentCluster)
    {
      var nc := FindFreeCluster();
      if nc == 0 {
        return false;
      }
      SetFatEntry(f.currentCluster, nc);
      SetFatEntry(nc, FAT32_EOC);
      f.currentCluster := nc;
      drive.sectors := PutCluster(Geo(), drive.sectors, nc, Zeros(bytesPerCluster));
      return true;
    }

    /** One round of fat32_write's loop, on byte `i` onwards of `buf`:
        the chunk that fits in the current cluster goes into it by a
        read-modify-write, after a move to a fresh cluster at a cluster
        boundary at or past the end of the file; returns the chunk's
        length, or 0 when that move finds no free cluster. */
    method WriteChunk(f: FileHandle, buf: seq<Byte>, i: nat) returns (k: nat)
      requires Valid() && i < |buf|
      modifies drive, f`currentCluster, f`position, f`size
      ensures var stop := Grows(Geo(), old(f.size), old(f.position)) && FreeCluster(Geo(), old(drive.sectors)) == 0;
              (stop ==> k == 0 && drive.sectors == old(drive.sectors) && f.currentCluster == old(f.currentCluster)
                        && f.position == old(f.position) && f.size == old(f.size))
              && (!stop ==> 0 < k <= |buf| - i
                            && WriteFrom(Geo(), old(drive.sectors), old(f.size), old(f.position), old(f.currentCluster), buf[i..], i)
                               == WriteFrom(Geo(), drive.sectors, f.size, f.position, f.currentCluster, buf[i + k..], i + k))
    {
      var off := f.position % bytesPerCluster;
      var toWrite: nat := Min(|buf| - i, bytesPerCluster - off);
      if f.position >= f.size || off == 0 {
        if off == 0 && f.position >= f.size {
          var ok := NextCluster(f);
          if !ok {
            return 0;
          }
        }
      }
      var d1, size1, pos1, cur1 := drive.sectors, f.size, f.position, f.currentCluster;
      assert WriteFrom(Geo(), old(drive.sectors), old(f.size), old(f.position), old(f.currentCluster), buf[i..], i)
             == WriteInto(Geo(), d1, size1, pos1, cur1, buf[i..], i);
      assert toWrite == InCluster(Geo(), pos1, |buf[i..]|) && off == pos1 % Geo().bytesPerCluster;
      var g := Geo();
      ghost var before := WriteInto(g, d1, size1, pos1, cur1, buf[i..], i);
      var d2, size2, pos2 := PatchCluster(g, d1, size1, pos1, cur1, buf, i, toWrite);
      drive.sectors, f.position, f.size := d2, pos2, size2;
      assert Geo() == g && f.currentCluster == cur1;
      assert before == WriteFrom(g, drive.sectors, f.size, f.position, f.currentCluster, buf[i + toWrite..], i + toWrite);
      return toWrite;
    }

    /** fat32_write: nothing without write permission (mode bit 1) or
        without a handle; otherwise the handle is marked modified and the
        loop of WriteFrom runs, moving on the store, the size, the
        position and the current cluster. */
    method Write(f: FileHandle?, buf: seq<Byte>) returns (written: Word32)
      requires Valid() && |buf| < U32
      modifies drive, f
      ensures f == null || f.mode / 2 % 2 == 0 ==> written == 0 && drive.sectors == old(drive.sectors)
      ensures f != null ==> f.startCluster == old(f.startCluster) && f.dirSector == old(f.dirSector)
                            && f.dirOffset == old(f.dirOffset) && f.mode == old(f.mode)
      ensures f != null && f.mode / 2 % 2 == 0 ==>
                f.position == old(f.position) && f.currentCluster == old(f.currentCluster)
                && f.size == old(f.size) && f.modified == old(f.modified)
      ensures f != null && f.mode / 2 % 2 == 1 ==>
                f.modified
                && WriteOut(drive.sectors, f.size, f.position, f.currentCluster, written)
                   == WriteFrom(Geo(), old(drive.sectors), old(f.size), old(f.position), old(f.currentCluster), buf, 0)
    {
      if f == null || f.mode / 2 % 2 == 0 {
        return 0;
      }
      f.modified := true;
      var g := Geo();
      ghost var goal := WriteFrom(g, drive.sectors, f.size, f.position, f.currentCluster, buf, 0);
      var i := 0;
      while i < |buf|
        invariant i <= |buf|
        invariant WriteFrom(g, drive.sectors, f.size, f.position, f.currentCluster, buf[i..], i) == goal
        invariant f.startCluster == old(f.startCluster) && f.dirSector == old(f.dirSector)
        invariant f.dirOffset == old(f.dirOffset) && f.mode == old(f.mode) && f.modified
      {
        var k := WriteChunk(f, buf, i);
        if k == 0 {
          break;
        }
        i := i + k;
      }
      written := i;
    }
  }

  lemma ProductFits(a: Word16, b: Byte)
    ensures a * b < 0x100_0000
  {
    MulLe(b, 0xFF, a);
    MulLe(a, 0xFFFF, 0xFF);
  }
}
