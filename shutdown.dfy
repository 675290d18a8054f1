/** ACPI power management of lib/shutdown.c: the set-once recording of the
    FADT, DSDT and SSDT, the search for the \_S5_ object in the DSDT or
    SSDT and the extraction of its SLP_TYP values, the MADT record walk,
    and the reset-register guard. Tables are byte sequences found by
    address in a map that stands for physical memory; port writes are
    recorded as a trace. */
module Shutdown {
  import opened Machine

  // ---------------------------------------------------------------------
  // Table layout (include/acpi.h, i386 alignment)
  // ---------------------------------------------------------------------

  /** sizeof(ACPIHeader). */
  const HEADER_LEN: nat := 36
  /** sizeof(ACPIHeaderApic): the header, the local APIC address and flags. */
  const MADT_HEADER_LEN: nat := 44
  /** The FADT fields the model reads end with pm1bCntBlk at 68..72. */
  const FADT_MIN: nat := 72
  const FADT_DSDT: nat := 40
  const FADT_SMI_CMD: nat := 48
  const FADT_ACPI_ENABLE: nat := 52
  const FADT_ACPI_DISABLE: nat := 53
  const FADT_PM1A_CNT: nat := 64
  const FADT_PM1B_CNT: nat := 68
  /** The reset register (a generic address structure) and the value after it. */
  const FADT_RESET_REG: nat := 116
  const FADT_RESET_VALUE: nat := 128
  const SLP_EN: Word16 := 0x2000
  /** How many times the power-off and reset writes are repeated. */
  const ATTEMPTS: nat := 5

  /** A little-endian 16-bit field. */
  function Le16(t: seq<Byte>, i: nat): Word16
    requires i + 2 <= |t|
  {
    t[i] as int + 0x100 * t[i + 1] as int
  }

  /** A little-endian 32-bit field. */
  function Le32(t: seq<Byte>, i: nat): Word32
    requires i + 4 <= |t|
  {
    Le16(t, i) + 0x1_0000 * Le16(t, i + 2)
  }

  /** A little-endian 64-bit field. */
  function Le64(t: seq<Byte>, i: nat): nat
    requires i + 8 <= |t|
  {
    Le32(t, i) + U32 * Le32(t, i + 4)
  }

  /** The header's length field. */
  function Length(t: seq<Byte>): Word32
    requires 8 <= |t|
  {
    Le32(t, 4)
  }

  /** The memory at a table: the bytes its length field covers and the
      three after it, which is as far as the \_S5_ parser reads. */
  predicate Mapped(t: seq<Byte>)
  {
    8 <= |t| && Length(t) + 3 <= |t|
  }

  /** pa2va: the offset 0xFFFF800000000000 added to a physical address, cut
      to the 32-bit pointer of the i386 target. */
  function Pa2va(pa: nat): nat
  {
    (pa + 0xFFFF_8000_0000_0000) % U32
  }

  /** On the 32-bit target the offset has no low bits, so pa2va is the
      identity on 32-bit addresses. */
  lemma Pa2vaIdentity(pa: nat)
    requires pa < U32
    ensures Pa2va(pa) == pa
  {
    assert pa + 0xFFFF_8000_0000_0000 == pa + 0xFFFF_8000 * U32;
  }

  // ---------------------------------------------------------------------
  // The \_S5_ search and SLP_TYP extraction in doPowerOff
  // ---------------------------------------------------------------------

  /** "_S5_". */
  const S5_NAME: seq<Byte> := [0x5F, 0x53, 0x35, 0x5F]
  /** AML NameOp and the root prefix '\'. */
  const NAME_OP: Byte := 0x08
  const ROOT_PREFIX: Byte := 0x5C
  /** AML BytePrefix. */
  const BYTE_PREFIX: Byte := 0x0A

  /** The bytes at `i` are "_S5_" after the first byte of the table body,
      preceded by NameOp, or by NameOp and '\'. */
  predicate S5At(t: seq<Byte>, i: nat)
    requires i + 4 <= |t|
  {
    t[i..i + 4] == S5_NAME && i > HEADER_LEN
    && (t[i - 1] == NAME_OP || (t[i - 1] == ROOT_PREFIX && t[i - 2] == NAME_OP))
  }

  /** The for-loop of doPowerOff over one table: the first offset from the
      end of the header, below the length minus 4, where S5At holds. */
  method FindS5(t: seq<Byte>) returns (found: Option<nat>)
    requires Mapped(t)
    ensures found.Some? ==>
              HEADER_LEN < found.value && found.value + 4 < Length(t) && S5At(t, found.value)
              && forall j :: HEADER_LEN <= j < found.value ==> !S5At(t, j)
    ensures found.None? ==> forall j :: HEADER_LEN <= j && j + 4 < Length(t) ==> !S5At(t, j)
  {
    var data := HEADER_LEN;
    while data + 4 < Length(t)
      invariant HEADER_LEN <= data
      invariant forall j :: HEADER_LEN <= j < data && j + 4 < Length(t) ==> !S5At(t, j)
      decreases Length(t) - data
    {
      if t[data..data + 4] == S5_NAME {
        if data > HEADER_LEN {
          if t[data - 1] == NAME_OP || (t[data - 1] == ROOT_PREFIX && t[data - 2] == NAME_OP) {
            return Some(data);
          }
        }
      }
      data := data + 1;
    }
    return None;
  }

  /** `(*data) << 10` stored in a u16: the top bits of the byte fall off. */
  function SlpTyp(b: Byte): Word16
  {
    (b * 0x400) % U16
  }

  /** The SLP_TYPa and SLP_TYPb values, already shifted into place. */
  datatype SleepTypes = SleepTypes(a: Word16, b: Word16)

  /** The package parse after a match at `found`: skip "_S5_" and the
      PackageOp, skip the PkgLength bytes (the top two bits of the first
      give the extra ones) and NumElements, then read two values, each
      after an optional BytePrefix. Either skip landing at or past the
      table end is a failure; the two value reads are not checked. */
  function SleepTypesAt(t: seq<Byte>, found: nat): Option<SleepTypes>
    requires Mapped(t) && found + 4 < Length(t)
  {
    var end := Length(t);
    var p := found + 5;
    if p >= end then None
    else
      var q := p + t[p] / 0x40 + 2;
      if q >= end then None
      else
        var a := if t[q] == BYTE_PREFIX then q + 1 else q;
        var r := a + 1;
        var b := if t[r] == BYTE_PREFIX then r + 1 else r;
        Some(SleepTypes(SlpTyp(t[a]), SlpTyp(t[b])))
  }

  /** An \_S5_ package as section 7.4.2 of the ACPI Specification lays it
      out: NameOp (optionally '\'), "_S5_", PackageOp, a one-byte
      PkgLength (section 20.2.4), NumElements, and two BytePrefix values.
      The parser finds back both values, shifted into SLP_TYP position. */
  lemma SleepTypesOfPackage(t: seq<Byte>, found: nat, a: Byte, b: Byte)
    requires Mapped(t) && found + 11 <= Length(t)
    requires t[found + 5] < 0x40
    requires t[found + 7] == BYTE_PREFIX && t[found + 8] == a
    requires t[found + 9] == BYTE_PREFIX && t[found + 10] == b
    ensures SleepTypesAt(t, found) == Some(SleepTypes(SlpTyp(a), SlpTyp(b)))
  {
    assert t[found + 5] / 0x40 == 0;
  }

  /** Section 20.2.4 of the ACPI Specification: PkgLength encodings of two
      to four bytes are skipped whole, so the values are found after them. */
  lemma SleepTypesAfterLongLength(t: seq<Byte>, found: nat, extra: nat, a: Byte, b: Byte)
    requires 1 <= extra <= 3
    requires Mapped(t) && found + 11 + extra <= Length(t)
    requires t[found + 5] / 0x40 == extra
    requires t[found + 7 + extra] == BYTE_PREFIX && t[found + 8 + extra] == a
    requires t[found + 9 + extra] == BYTE_PREFIX && t[found + 10 + extra] == b
    ensures SleepTypesAt(t, found) == Some(SleepTypes(SlpTyp(a), SlpTyp(b)))
  {
  }

  /** SLP_TYP is the 3-bit field at bits 10..12 of PM1_CNT; the byte's low
      bits land there and bit 13, SLP_EN, is set by the write. A value
      below 8 is therefore exactly shifted and never touches SLP_EN. */
  lemma SlpTypPlacement(b: Byte)
    ensures SlpTyp(b) == (b % 0x40) * 0x400 && SlpTyp(b) % 0x400 == 0
    ensures b < 8 ==> SlpTyp(b) == b * 0x400 && SlpTyp(b) < SLP_EN
  {
    var h, l := b / 0x40, b % 0x40;
    assert b * 0x400 == h * U16 + l * 0x400;
    assert 0 <= l * 0x400 < U16;
    assert SlpTyp(b) == l * 0x400;
  }

  /** `v | SLP_EN` on 16 bits. */
  function WithSlpEn(v: Word16): (r: Word16)
    ensures r >= SLP_EN && (r / SLP_EN) % 2 == 1
    ensures r % SLP_EN == v % SLP_EN && r / (2 * SLP_EN) == v / (2 * SLP_EN)
  {
    if (v / SLP_EN) % 2 == 1 then v else v + SLP_EN
  }

  /** One round of the power-off writes: PM1a, then PM1b if it exists. */
  function SleepRound(pm1a: Word32, pm1b: Word32, s: SleepTypes): seq<PortOut>
  {
    [Outw(pm1a % U16, WithSlpEn(s.a))] + (if pm1b != 0 then [Outw(pm1b % U16, WithSlpEn(s.b))] else [])
  }

  /** `n` rounds of writes. */
  function Rounds(round: seq<PortOut>, n: nat): (r: seq<PortOut>)
    ensures |r| == n * |round|
  {
    if n == 0 then [] else Rounds(round, n - 1) + round
  }

  /** The writes are the round repeated: write i of round j is the
      round's write i. */
  lemma {:induction false} RoundsRepeat(round: seq<PortOut>, n: nat, j: nat, i: nat)
    requires j < n && i < |round|
    ensures j * |round| + i < |Rounds(round, n)| && Rounds(round, n)[j * |round| + i] == round[i]
  {
    var m := |round|;
    var before := Rounds(round, n - 1);
    assert Rounds(round, n) == before + round;
    assert |before| + m == n * m by {
      assert (n - 1) * m + m == n * m;
    }
    if j < n - 1 {
      RoundsRepeat(round, n - 1, j, i);
    } else {
      assert j * m == |before|;
    }
  }

  // ---------------------------------------------------------------------
  // The MADT record walk of parseApic
  // ---------------------------------------------------------------------

  /** What parseApic reports of one record. */
  datatype ApicEntry =
    | LocalApic(processorId: Byte, apicId: Byte, processorFlags: Word32)
    | IoApic(ioApicId: Byte, address: Word32, gsiBase: Word32)
    | IntOverride(bus: Byte, source: Byte, gsi: Word32, flags: Word16)
    | Unreported(kind: Byte)

  /** The memory of a MADT: its length field covers at least the MADT
      header and the largest record structure fits after any offset
      below the table end. */
  predicate MadtMapped(t: seq<Byte>)
  {
    8 <= |t| && Length(t) + 12 <= |t|
  }

  /** The record at `p`, read through the structure its type selects
      (section 5.2.12 of the ACPI Specification). */
  function ApicRecordAt(t: seq<Byte>, p: nat): ApicEntry
    requires p + 12 <= |t|
  {
    match t[p]
    case 0 => LocalApic(t[p + 2], t[p + 3], Le32(t, p + 4))
    case 1 => IoApic(t[p + 2], Le32(t, p + 4), Le32(t, p + 8))
    case 2 => IntOverride(t[p + 2], t[p + 3], Le32(t, p + 4), Le16(t, p + 8))
    case _ => Unreported(t[p])
  }

  /** The walk ends: every record reached before the end has a non-zero
      length (a zero length makes the source loop forever). */
  predicate Walkable(t: seq<Byte>, p: nat)
    requires MadtMapped(t)
    decreases Length(t) - p
  {
    p >= Length(t) || (t[p + 1] > 0 && Walkable(t, p + t[p + 1]))
  }

  /** The offsets of the records the walk visits from `p`. */
  function RecordOffsets(t: seq<Byte>, p: nat): seq<nat>
    requires MadtMapped(t) && Walkable(t, p)
    decreases Length(t) - p
  {
    if p >= Length(t) then [] else [p] + RecordOffsets(t, p + t[p + 1])
  }

  /** The entries the walk reports from `p`. */
  function ApicWalk(t: seq<Byte>, p: nat): seq<ApicEntry>
    requires MadtMapped(t) && Walkable(t, p)
    decreases Length(t) - p
  {
    if p >= Length(t) then [] else [ApicRecordAt(t, p)] + ApicWalk(t, p + t[p + 1])
  }

  /** One entry per visited record, the first visited at `p`. */
  lemma {:induction false} ApicWalkLength(t: seq<Byte>, p: nat)
    requires MadtMapped(t) && Walkable(t, p)
    ensures |ApicWalk(t, p)| == |RecordOffsets(t, p)|
    ensures p < Length(t) <==> |RecordOffsets(t, p)| > 0
    ensures p < Length(t) ==> RecordOffsets(t, p)[0] == p
    decreases Length(t) - p
  {
    if p < Length(t) {
      ApicWalkLength(t, p + t[p + 1]);
    }
  }

  /** The k-th visited offset lies between `p` and the table end, and the
      k-th entry is the record at that offset. */
  lemma {:induction false} ApicWalkAt(t: seq<Byte>, p: nat, k: nat)
    requires MadtMapped(t) && Walkable(t, p) && k < |RecordOffsets(t, p)|
    ensures var o := RecordOffsets(t, p);
            p <= o[k] < Length(t) && k < |ApicWalk(t, p)| && ApicWalk(t, p)[k] == ApicRecordAt(t, o[k])
    decreases Length(t) - p
  {
    ApicWalkLength(t, p);
    if k > 0 {
      ApicWalkAt(t, p + t[p + 1], k - 1);
    }
  }

  /** Each visited offset is the previous one plus that record's length. */
  lemma {:induction false} RecordOffsetsStep(t: seq<Byte>, p: nat, k: nat)
    requires MadtMapped(t) && Walkable(t, p) && k + 1 < |RecordOffsets(t, p)|
    ensures var o := RecordOffsets(t, p);
            o[k] < Length(t) && o[k + 1] == o[k] + t[o[k] + 1]
    decreases Length(t) - p
  {
    var q := p + t[p + 1];
    ApicWalkLength(t, q);
    if k > 0 {
      RecordOffsetsStep(t, q, k - 1);
    }
  }

  /** parseApic: nothing for a missing table or one shorter than its
      header; otherwise the local APIC address and the records from the
      end of the header to the table end, each reached by adding the
      previous record's length. */
  method ParseApic(apic: Option<seq<Byte>>) returns (ok: bool, localApic: Word32, entries: seq<ApicEntry>)
    requires apic.Some? ==> MadtMapped(apic.value) && Walkable(apic.value, MADT_HEADER_LEN)
    ensures ok <==> apic.Some? && Length(apic.value) >= MADT_HEADER_LEN
    ensures ok ==> localApic == Le32(apic.value, HEADER_LEN) && entries == ApicWalk(apic.value, MADT_HEADER_LEN)
    ensures !ok ==> entries == []
  {
    if apic.None? || Length(apic.value) < MADT_HEADER_LEN {
      return false, 0, [];
    }
    var t := apic.value;
    localApic := Le32(t, HEADER_LEN);
    var p := MADT_HEADER_LEN;
    entries := [];
    while p < Length(t)
      invariant Walkable(t, p)
      invariant entries + ApicWalk(t, p) == ApicWalk(t, MADT_HEADER_LEN)
      decreases Length(t) - p
    {
      entries := entries + [ApicRecordAt(t, p)];
      p := p + t[p + 1];
    }
    ok := true;
  }

  // ---------------------------------------------------------------------
  // The recorded tables
  // ---------------------------------------------------------------------

  /** acpiDsdt as acpiEnable sets it from a FADT: pa2va of the FADT's
      32-bit DSDT field, which for a zero field (firmware that fills only
      X_DSDT) is NULL, so no DSDT. */
  function DsdtOf(f: seq<Byte>): (r: Option<nat>)
    requires |f| >= FADT_MIN
    ensures r.None? <==> Le32(f, FADT_DSDT) == 0
    ensures r.Some? ==> r.value == Le32(f, FADT_DSDT)
  {
    Pa2vaIdentity(Le32(f, FADT_DSDT));
    var p := Pa2va(Le32(f, FADT_DSDT));
    if p == 0 then None else Some(p)
  }

  /** The globals acpiFadt, acpiDsdt and acpiSsdt as addresses into the
      table memory, and the trace of port writes the code makes. */
  class Acpi {
    const tables: map<nat, seq<Byte>>
    var fadt: Option<nat>
    var dsdt: Option<nat>
    var ssdt: Option<nat>
    var ports: seq<PortOut>

    /** An address that can be recorded as the FADT: its fields are in
        memory and the DSDT it names, unless that is NULL, is a mapped
        table. */
    predicate FadtOk(a: nat)
    {
      a in tables && |tables[a]| >= FADT_MIN
      && (Length(tables[a]) >= FADT_RESET_REG ==> |tables[a]| > FADT_RESET_VALUE)
      && (DsdtOf(tables[a]).Some? ==> TableOk(DsdtOf(tables[a]).value))
    }

    predicate TableOk(a: nat)
    {
      a in tables && Mapped(tables[a])
    }

    ghost predicate Valid()
      reads this
    {
      (fadt.Some? ==> FadtOk(fadt.value))
      && (dsdt.Some? ==> TableOk(dsdt.value))
      && (ssdt.Some? ==> TableOk(ssdt.value))
    }

    constructor (mem: map<nat, seq<Byte>>)
      ensures Valid() && tables == mem && fadt.None? && dsdt.None? && ssdt.None? && ports == []
    {
      tables := mem;
      fadt, dsdt, ssdt := None, None, None;
      ports := [];
    }

    /** The SMI write that asks the firmware to enable ACPI, made when the
        FADT has an SMI command port and an enable or disable value. */
    function SmiEnable(f: seq<Byte>): seq<PortOut>
      requires |f| >= FADT_MIN
    {
      if Le32(f, FADT_SMI_CMD) != 0 && (f[FADT_ACPI_ENABLE] != 0 || f[FADT_ACPI_DISABLE] != 0)
      then [Outb(Le32(f, FADT_SMI_CMD) % U16, f[FADT_ACPI_ENABLE])]
      else []
    }

    /** acpiEnable: an SSDT is recorded only when none is and one is given;
        once a FADT is recorded the call returns 0 and changes nothing
        else; with no FADT recorded and none given it returns -1;
        otherwise it records the FADT, the DSDT that the FADT names (none
        for a zero DSDT field), and makes the SMI enable write. */
    method AcpiEnable(fadtArg: Option<nat>, ssdtArg: Option<nat>) returns (r: int)
      requires Valid()
      requires fadtArg.Some? ==> FadtOk(fadtArg.value)
      requires ssdtArg.Some? ==> TableOk(ssdtArg.value)
      modifies this
      ensures Valid()
      ensures ssdt == if old(ssdt).None? && ssdtArg.Some? then ssdtArg else old(ssdt)
      ensures old(fadt).Some? ==> r == 0 && fadt == old(fadt) && dsdt == old(dsdt) && ports == old(ports)
      ensures old(fadt).None? && fadtArg.None? ==> r == -1 && fadt.None? && dsdt == old(dsdt) && ports == old(ports)
      ensures old(fadt).None? && fadtArg.Some? ==>
                var f := tables[fadtArg.value];
                r == 0 && fadt == fadtArg && dsdt == DsdtOf(f)
                && ports == old(ports) + SmiEnable(f)
    {
      if ssdt.None? && ssdtArg.Some? {
        ssdt := ssdtArg;
      }
      if fadt.Some? {
        return 0;
      }
      if fadtArg.None? {
        return -1;
      }
      fadt := fadtArg;
      var f := tables[fadtArg.value];
      dsdt := DsdtOf(f);
      ports := ports + SmiEnable(f);
      r := 0;
    }

    /** What doPowerOff finds: the SLP_TYP values of the first \_S5_ match
        in the DSDT, or, when the DSDT has none, in a distinct SSDT. */
    function PowerOffTypes(fa: Option<nat>, ds: Option<nat>, ss: Option<nat>): Option<SleepTypes>
      requires fa.Some? ==> FadtOk(fa.value)
      requires ds.Some? ==> TableOk(ds.value)
      requires ss.Some? ==> TableOk(ss.value)
    {
      if fa.None? || ds.None? then None
      else if FirstS5(tables[ds.value]).Some? then
        SleepTypesAt(tables[ds.value], FirstS5(tables[ds.value]).value)
      else if ss.Some? && ss != ds && FirstS5(tables[ss.value]).Some? then
        SleepTypesAt(tables[ss.value], FirstS5(tables[ss.value]).value)
      else None
    }

    /** doPowerOff's ACPI part: with the FADT and DSDT recorded and an
        \_S5_ package found and parsed, five rounds of writes of SLP_TYP
        with SLP_EN to PM1a_CNT, and to PM1b_CNT when it exists; in every
        other case no ACPI write. The emulator, APM and keyboard
        controller fallbacks that surround it, and the final halt, are
        not part of this method. */
    method DoPowerOff() returns (writes: seq<PortOut>)
      requires Valid()
      ensures var s := PowerOffTypes(fadt, dsdt, ssdt);
              writes == if s.None? || fadt.None? then [] else
                var f := tables[fadt.value];
                Rounds(SleepRound(Le32(f, FADT_PM1A_CNT), Le32(f, FADT_PM1B_CNT), s.value), ATTEMPTS)
    {
      if fadt.None? || dsdt.None? {
        return [];
      }
      var dt := dsdt.value;
      var found := FindS5(tables[dt]);
      FirstS5Is(tables[dt], found);
      if found.None? && ssdt.Some? && ssdt != dsdt {
        dt := ssdt.value;
        found := FindS5(tables[dt]);
        FirstS5Is(tables[dt], found);
      }
      if found.None? {
        return [];
      }
      var s := SleepTypesAt(tables[dt], found.value);
      if s.None? {
        return [];
      }
      var f := tables[fadt.value];
      var round := SleepRound(Le32(f, FADT_PM1A_CNT), Le32(f, FADT_PM1B_CNT), s.value);
      writes := [];
      for i := 0 to ATTEMPTS
        invariant writes == Rounds(round, i)
      {
        writes := writes + round;
      }
    }

    /** The reset register writes of tryAcpiReboot for the recorded FADT. */
    function ResetWrites(): (r: seq<ResetWrite>)
      reads this
      requires Valid()
    {
      if fadt.None? then []
      else
        var f := tables[fadt.value];
        if Length(f) < FADT_RESET_REG then []
        else
          var address := Le64(f, FADT_RESET_REG + 4);
          if address == 0 then []
          else Rounds1Opt(ResetWriteOf(f[FADT_RESET_REG], address, f[FADT_RESET_VALUE]), ATTEMPTS)
    }

    /** tryAcpiReboot: nothing without a FADT, with a FADT shorter than
        116 bytes, or with a zero reset address; otherwise five writes of
        the reset value to the I/O port or the memory address the reset
        register names (an unknown address space makes none). */
    method TryAcpiReboot() returns (writes: seq<ResetWrite>)
      requires Valid()
      ensures writes == ResetWrites()
      ensures |writes| == 0 || |writes| == ATTEMPTS
      ensures fadt.None? ==> writes == []
    {
      writes := [];
      if fadt.None? {
        return;
      }
      var f := tables[fadt.value];
      if Length(f) < FADT_RESET_REG {
        return;
      }
      var address := Le64(f, FADT_RESET_REG + 4);
      var value := f[FADT_RESET_VALUE];
      if address != 0 {
        for i := 0 to ATTEMPTS
          invariant writes == Rounds1Opt(ResetWriteOf(f[FADT_RESET_REG], address, value), i)
        {
          var w := ResetWriteOf(f[FADT_RESET_REG], address, value);
          if w.Some? {
            writes := writes + [w.value];
          }
        }
      }
    }
  }

  /** The first match of the search over a table. */
  function FirstS5(t: seq<Byte>): (r: Option<nat>)
    requires Mapped(t)
    ensures r.Some? ==> HEADER_LEN <= r.value && r.value + 4 < Length(t) && S5At(t, r.value)
  {
    FirstS5From(t, HEADER_LEN)
  }

  function FirstS5From(t: seq<Byte>, i: nat): (r: Option<nat>)
    requires Mapped(t)
    ensures r.Some? ==> i <= r.value && r.value + 4 < Length(t) && S5At(t, r.value)
    decreases Length(t) - i
  {
    if i + 4 >= Length(t) then None
    else if S5At(t, i) then Some(i)
    else FirstS5From(t, i + 1)
  }

  /** The search loop's result is the first match. */
  lemma FirstS5Is(t: seq<Byte>, found: Option<nat>)
    requires Mapped(t)
    requires found.Some? ==>
               HEADER_LEN < found.value && found.value + 4 < Length(t) && S5At(t, found.value)
               && forall j :: HEADER_LEN <= j < found.value ==> !S5At(t, j)
    requires found.None? ==> forall j :: HEADER_LEN <= j && j + 4 < Length(t) ==> !S5At(t, j)
    ensures FirstS5(t) == found
  {
    FirstS5FromIs(t, HEADER_LEN, found);
  }

  lemma {:induction false} FirstS5FromIs(t: seq<Byte>, i: nat, found: Option<nat>)
    requires Mapped(t) && HEADER_LEN <= i
    requires found.Some? ==>
               i <= found.value && found.value + 4 < Length(t) && S5At(t, found.value)
               && forall j :: i <= j < found.value ==> !S5At(t, j)
    requires found.None? ==> forall j :: i <= j && j + 4 < Length(t) ==> !S5At(t, j)
    ensures FirstS5From(t, i) == found
    decreases Length(t) - i
  {
    if i + 4 < Length(t) && !(found.Some? && found.value == i) {
      FirstS5FromIs(t, i + 1, found);
    }
  }

  /** A write of tryAcpiReboot: to an I/O port, or to memory. */
  datatype ResetWrite = PortWrite(port: Word16, value: Byte) | MemoryWrite(address: nat, value: Byte)

  /** The write for an address space: system I/O (1) writes the port, system
      memory (0) and PCI configuration space (3) write through pa2va; other
      spaces write nothing. */
  function ResetWriteOf(space: Byte, address: nat, value: Byte): Option<ResetWrite>
  {
    if space == 1 then Some(PortWrite(address % U16, value))
    else if space == 0 || space == 3 then Some(MemoryWrite(Pa2va(address), value))
    else None
  }

  function Rounds1(w: ResetWrite, n: nat): (r: seq<ResetWrite>)
    ensures |r| == n && forall k :: 0 <= k < n ==> r[k] == w
  {
    if n == 0 then [] else Rounds1(w, n - 1) + [w]
  }

  function Rounds1Opt(w: Option<ResetWrite>, n: nat): seq<ResetWrite>
  {
    if w.None? then [] else Rounds1(w.value, n)
  }
}
