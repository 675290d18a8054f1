/** Segment and gate descriptors of the i386 (Intel SDM Vol. 3A, section
    3.4.5 for segment descriptors, section 6.11 for IDT gate descriptors):
    the packed field encodings, the global descriptor table, the interrupt
    descriptor table and the entries the kernel installs at boot. Bit
    operations on unsigned values are written as division and remainder by
    powers of two, which is what they compute there. */
module GdtIdt {
  import opened Machine

  const GDT_ENTRIES: nat := 4096
  const IDT_ENTRIES: nat := 256
  /** Largest limit expressible in 20 bits with byte granularity. */
  const BYTE_LIMIT_MAX: nat := 0xFFFFF
  /** The granularity bit G in the 16-bit access-rights argument. */
  const AR_G: nat := 0x8000

  /** gdt_entry_t, field by field. */
  datatype SegmentDescriptor = SegmentDescriptor(
    limitLow: Word16, baseLow: Word16, baseMid: Byte,
    accessRight: Byte, limitHigh: Byte, baseHigh: Byte)

  /** idt_entry_t, field by field. */
  datatype GateDescriptor = GateDescriptor(
    offsetLow: Word16, selector: Word16, dwCount: Byte, accessRight: Byte, offsetHigh: Word16)

  const ZeroSegment := SegmentDescriptor(0, 0, 0, 0, 0, 0)
  const ZeroGate := GateDescriptor(0, 0, 0, 0, 0)

  /** `ar |= 0x8000` on a 16-bit value: sets bit 15. */
  function SetG(ar: Word16): (r: Word16)
    ensures r >= AR_G && r % AR_G == ar % AR_G
  {
    if ar >= AR_G then ar else ar + AR_G
  }

  /** The (limit, ar) pair actually stored: a limit above 20 bits is counted
      in 4 KiB pages and the G bit is set. */
  function ScaledLimit(limit: Word32, ar: Word16): (Word32, Word16)
  {
    if limit > BYTE_LIMIT_MAX then (limit / 0x1000, SetG(ar)) else (limit, ar)
  }

  /** The field split of gdt_set_gate (and of ldt_set_gate). */
  function EncodeSegment(base: Word32, limit: Word32, ar: Word16): SegmentDescriptor
  {
    var (l, a) := ScaledLimit(limit, ar);
    SegmentDescriptor(
      l % 0x1_0000,
      base % 0x1_0000,
      (base / 0x1_0000) % 0x100,
      a % 0x100,
      (l / 0x1_0000) % 0x10 + (a / 0x1000) * 0x10,
      (base / 0x100_0000) % 0x100)
  }

  /** The base the processor reads from a descriptor. */
  function DecodeBase(d: SegmentDescriptor): Word32
  {
    d.baseLow + d.baseMid * 0x1_0000 + d.baseHigh * 0x100_0000
  }

  /** The 20-bit limit field. */
  function RawLimit(d: SegmentDescriptor): nat
  {
    d.limitLow + (d.limitHigh % 0x10) * 0x1_0000
  }

  predicate Granular(d: SegmentDescriptor)
  {
    d.limitHigh >= 0x80
  }

  /** The last valid offset of the segment as the processor computes it
      (SDM section 3.4.5: with G set the limit is scaled by 4 KiB and the
      low 12 bits read as ones). */
  function EffectiveLimit(d: SegmentDescriptor): nat
  {
    if Granular(d) then RawLimit(d) * 0x1000 + 0xFFF else RawLimit(d)
  }

  /** The 16-bit access-rights value as stored: the access byte plus the
      flags nibble (G, D/B, L, AVL) in bits 12-15. */
  function DecodeRights(d: SegmentDescriptor): nat
  {
    d.accessRight + (d.limitHigh / 0x10) * 0x1000
  }

  /** The base round-trips through the descriptor. */
  lemma BaseRoundTrip(base: Word32, limit: Word32, ar: Word16)
    ensures DecodeBase(EncodeSegment(base, limit, ar)) == base
  {
  }

  /** The automatic granularity choice: G is set and the limit replaced by
      limit/0x1000 exactly when the limit exceeds 20 bits. */
  lemma GranularityChoice(limit: Word32, ar: Word16)
    ensures limit > BYTE_LIMIT_MAX ==> ScaledLimit(limit, ar) == (limit / 0x1000, SetG(ar))
    ensures limit <= BYTE_LIMIT_MAX ==> ScaledLimit(limit, ar) == (limit, ar)
    ensures ScaledLimit(limit, ar).0 <= BYTE_LIMIT_MAX
  {
  }

  /** Where the stored limit and rights land: limit_low holds bits 0-15 of
      the stored limit, the low nibble of limit_high bits 16-19, the high
      nibble of limit_high bits 12-15 of ar, and access_right the low byte
      of ar. */
  lemma SegmentFields(base: Word32, limit: Word32, ar: Word16)
    ensures var (l, a) := ScaledLimit(limit, ar);
      var d := EncodeSegment(base, limit, ar);
      && d.limitLow == l % 0x1_0000
      && d.limitHigh % 0x10 == (l / 0x1_0000) % 0x10
      && d.limitHigh / 0x10 == a / 0x1000
      && d.accessRight == a % 0x100
      && RawLimit(d) == l
      && DecodeRights(d) == a - (a / 0x100 % 0x10) * 0x100
  {
    var (l, a) := ScaledLimit(limit, ar);
    var d := EncodeSegment(base, limit, ar);
    assert l <= BYTE_LIMIT_MAX;
    NibblePair((l / 0x1_0000) % 0x10, a / 0x1000);
    LimitSplit(l);
    RightsSplit(a);
  }

  /** A byte built from a low and a high nibble gives them back. */
  lemma NibblePair(lo: nat, hi: nat)
    requires lo < 0x10 && hi < 0x10
    ensures (lo + hi * 0x10) % 0x10 == lo && (lo + hi * 0x10) / 0x10 == hi
  {
  }

  /** A 20-bit limit is its low 16 bits plus its top nibble. */
  lemma LimitSplit(l: nat)
    requires l <= BYTE_LIMIT_MAX
    ensures l == l % 0x1_0000 + (l / 0x1_0000 % 0x10) * 0x1_0000
  {
    assert l / 0x1_0000 < 0x10;
  }

  /** A 16-bit value as its low byte, bits 8-11 and bits 12-15. */
  lemma RightsSplit(a: Word16)
    ensures a == a % 0x100 + (a / 0x100 % 0x10) * 0x100 + (a / 0x1000) * 0x1000
  {
    var q := a / 0x100;
    assert a == a % 0x100 + q * 0x100;
    assert q == q % 0x10 + (q / 0x10) * 0x10;
    assert q / 0x10 == a / 0x1000;
  }

  /** With G chosen the processor's limit covers the requested one and
      overshoots it by less than a page; otherwise it is exact, provided the
      caller did not set G itself. */
  lemma EffectiveLimitBounds(base: Word32, limit: Word32, ar: Word16)
    ensures var d := EncodeSegment(base, limit, ar);
      && (limit > BYTE_LIMIT_MAX ==> Granular(d) && limit <= EffectiveLimit(d) < limit + 0x1000)
      && (limit <= BYTE_LIMIT_MAX && ar < AR_G ==> !Granular(d) && EffectiveLimit(d) == limit)
  {
    SegmentFields(base, limit, ar);
    var (l, a) := ScaledLimit(limit, ar);
    var d := EncodeSegment(base, limit, ar);
    assert Granular(d) <==> a >= AR_G;
  }

  /** The field split of idt_set_gate. */
  function EncodeGate(offset: Word32, sel: Word16, flags: Byte): GateDescriptor
  {
    GateDescriptor(offset % 0x1_0000, sel, 0, flags, (offset / 0x1_0000) % 0x1_0000)
  }

  function GateOffset(g: GateDescriptor): nat
  {
    g.offsetLow + g.offsetHigh * 0x1_0000
  }

  /** The handler offset round-trips; selector and flags are stored as
      given and the reserved byte is 0. */
  lemma GateRoundTrip(offset: Word32, sel: Word16, flags: Byte)
    ensures var g := EncodeGate(offset, sel, flags);
      GateOffset(g) == offset && g.selector == sel && g.dwCount == 0 && g.accessRight == flags
  {
  }

  /** The null descriptor installed by gdt_set_gate(0, 0, 0, 0) is all zero. */
  lemma NullSegment()
    ensures EncodeSegment(0, 0, 0) == ZeroSegment
  {
  }

  /** Access rights given to GDT entries 1-4 at boot (ring-0 code and data,
      then ring-1 code and data). */
  const BootRights: seq<Word16> := [0x409A, 0x4092, 0x40BA, 0x40B2]

  /** The four flat boot segments all start at 0, span 4 GiB with page
      granularity and carry their access byte unchanged. */
  lemma FlatBootSegments(i: nat)
    requires i < 4
    ensures var d := EncodeSegment(0, 0xFFFF_FFFF, BootRights[i]);
      && DecodeBase(d) == 0 && Granular(d) && EffectiveLimit(d) == 0xFFFF_FFFF
      && d.accessRight == BootRights[i] % 0x100
  {
    EffectiveLimitBounds(0, 0xFFFF_FFFF, BootRights[i]);
  }

  /** The global descriptor table: gdt_entries[4096]. */
  class Gdt {
    var entries: array<SegmentDescriptor>

    ghost predicate Valid() reads this { entries.Length == GDT_ENTRIES }

    /** The table as a zero-initialised static array. */
    constructor ()
      ensures Valid() && fresh(entries) && forall k :: 0 <= k < GDT_ENTRIES ==> entries[k] == ZeroSegment
    {
      entries := new SegmentDescriptor[GDT_ENTRIES](_ => ZeroSegment);
    }

    /** gdt_set_gate: entry num is replaced, no other entry changes. */
    method SetGate(num: nat, base: Word32, limit: Word32, ar: Word16)
      requires Valid() && num < GDT_ENTRIES
      modifies entries
      ensures entries[..] == old(entries[..])[num := EncodeSegment(base, limit, ar)]
    {
      var l, a := limit, ar;
      if l > BYTE_LIMIT_MAX {
        a := SetG(a);
        l := l / 0x1000;
      }
      entries[num] := SegmentDescriptor(
        l % 0x1_0000, base % 0x1_0000, (base / 0x1_0000) % 0x100,
        a % 0x100, (l / 0x1_0000) % 0x10 + (a / 0x1000) * 0x10, (base / 0x100_0000) % 0x100);
    }

    /** init_gdt: the null descriptor and the four flat boot segments. */
    method Init()
      requires Valid()
      modifies entries
      ensures entries[0] == ZeroSegment
      ensures forall i :: 0 <= i < 4 ==> entries[i + 1] == EncodeSegment(0, 0xFFFF_FFFF, BootRights[i])
      ensures entries[5..] == old(entries[5..])
    {
      SetGate(0, 0, 0, 0);
      NullSegment();
      SetGate(1, 0, 0xFFFF_FFFF, 0x409A);
      SetGate(2, 0, 0xFFFF_FFFF, 0x4092);
      SetGate(3, 0, 0xFFFF_FFFF, 0x40BA);
      SetGate(4, 0, 0xFFFF_FFFF, 0x40B2);
    }
  }

  /** Selector of the kernel code segment used by every installed gate. */
  const KERNEL_CS: Word16 := 0x08
  /** Vectors 0-31 are processor exceptions, 32-47 the remapped PIC lines. */
  const HW_VECTORS: nat := 48
  const SYSCALL_VECTOR: nat := 0x80
  /** Present, ring 0, 32-bit interrupt gate. */
  const INTR_GATE: Byte := 0x8E
  /** Present, ring 3, 32-bit interrupt gate: callable from user code. */
  const SYSCALL_GATE: Byte := 0xEE

  /** The interrupt descriptor table: idt_entries[256]. */
  class Idt {
    var entries: array<GateDescriptor>

    ghost predicate Valid() reads this { entries.Length == IDT_ENTRIES }

    /** The table as a zero-initialised static array. */
    constructor ()
      ensures Valid() && fresh(entries) && forall k :: 0 <= k < IDT_ENTRIES ==> entries[k] == ZeroGate
    {
      entries := new GateDescriptor[IDT_ENTRIES](_ => ZeroGate);
    }

    /** idt_set_gate: entry num is replaced, no other entry changes. */
    method SetGate(num: Byte, offset: Word32, sel: Word16, flags: Byte)
      requires Valid()
      modifies entries
      ensures entries[..] == old(entries[..])[num := EncodeGate(offset, sel, flags)]
    {
      entries[num] := GateDescriptor(offset % 0x1_0000, sel, 0, flags, (offset / 0x1_0000) % 0x1_0000);
    }

    /** init_idt after the PIC set-up: clear the table, install the 48
        stubs of `intrTable`, then the system-call gate at 0x80. */
    method Init(intrTable: seq<Word32>, syscallHandler: Word32)
      requires Valid() && |intrTable| == HW_VECTORS
      modifies entries
      ensures forall i :: 0 <= i < HW_VECTORS ==> entries[i] == EncodeGate(intrTable[i], KERNEL_CS, INTR_GATE)
      ensures entries[SYSCALL_VECTOR] == EncodeGate(syscallHandler, KERNEL_CS, SYSCALL_GATE)
      ensures forall i :: HW_VECTORS <= i < IDT_ENTRIES && i != SYSCALL_VECTOR ==> entries[i] == ZeroGate
    {
      var k := 0;
      while k < IDT_ENTRIES
        invariant k <= IDT_ENTRIES
        invariant forall j :: 0 <= j < k ==> entries[j] == ZeroGate
      {
        entries[k] := ZeroGate;
        k := k + 1;
      }
      var i := 0;
      while i < HW_VECTORS
        invariant i <= HW_VECTORS
        invariant forall j :: 0 <= j < i ==> entries[j] == EncodeGate(intrTable[j], KERNEL_CS, INTR_GATE)
        invariant forall j :: i <= j < IDT_ENTRIES ==> entries[j] == ZeroGate
      {
        SetGate(i, intrTable[i], KERNEL_CS, INTR_GATE);
        i := i + 1;
      }
      SetGate(SYSCALL_VECTOR, syscallHandler, KERNEL_CS, SYSCALL_GATE);
    }
  }
}
