/** The AC'97 driver of drivers/audio/ac97.c: PCI configuration-space
    probing for the first multimedia/audio function with two I/O BARs,
    codec reset and set-up through the mixer (NAM) registers, and PCM
    playback through a 32-entry buffer descriptor list (BDL) programmed
    into the bus-master (NABM) registers. Port writes appear as a trace;
    configuration space is a function from the 32-bit configuration
    address to the dword the data port returns for it. */
module Ac97 {
  import opened Machine

  const PCI_CLASS_MULTIMEDIA: Byte := 0x04
  const PCI_SUBCLASS_AUDIO: Byte := 0x01

  const NAM_RESET: nat := 0x00
  const NAM_MASTER_VOL: nat := 0x02
  const NAM_PCM_OUT_VOL: nat := 0x18
  const NAM_FRONT_DAC_RATE: nat := 0x2C
  const NABM_GLOB_CNT: nat := 0x2C
  const PO_BDBAR: nat := 0x10
  const PO_CIV: nat := 0x14
  const PO_LVI: nat := 0x15
  const PO_SR: nat := 0x16
  const PO_CR: nat := 0x1B
  const PO_CR_RPBM: Byte := 0x01
  const PO_CR_RESET: Byte := 0x02
  const PO_SR_MASK_ALL: Byte := 0x1F

  const AC97_BDL_ENTRIES: nat := 32
  const BLK_SZ: nat := 0x1000
  /** The sample rate ac97_hw_init programs. */
  const INIT_RATE: Word32 := 48000

  // ---------------------------------------------------------------------
  // PCI configuration access
  // ---------------------------------------------------------------------

  /** pci_cfg_addr: enable bit 31, bus in bits 16-23, device from bit 11,
      function from bit 8 and the dword-aligned register offset, combined
      with OR (so a device number of 32 or more spills into the bus bits). */
  function PciCfgAddr(bus: bv8, dev: bv8, fn: bv8, off: bv8): bv32
  {
    0x8000_0000 | ((bus as bv32) << 16) | ((dev as bv32) << 11) | ((fn as bv32) << 8) | ((off & 0xFC) as bv32)
  }

  /** For the device and function numbers the probe uses, every field can
      be read back from the address, bits 24-30 are clear and the offset
      keeps only its dword-aligned part. */
  lemma PciCfgAddrFields(bus: bv8, dev: bv8, fn: bv8, off: bv8)
    requires dev < 32 && fn < 8
    ensures var a := PciCfgAddr(bus, dev, fn, off);
            a >> 24 == 0x80 && ((a >> 16) & 0xFF) as bv8 == bus && ((a >> 11) & 0x1F) as bv8 == dev
            && ((a >> 8) & 0x7) as bv8 == fn && (a & 0xFF) as bv8 == off & 0xFC
  {
  }

  /** Hence two probe positions never share a configuration address. */
  lemma PciCfgAddrInjective(bus: bv8, dev: bv8, fn: bv8, off: bv8, bus': bv8, dev': bv8, fn': bv8, off': bv8)
    requires dev < 32 && fn < 8 && dev' < 32 && fn' < 8
    requires PciCfgAddr(bus, dev, fn, off) == PciCfgAddr(bus', dev', fn', off')
    ensures bus == bus' && dev == dev' && fn == fn' && off & 0xFC == off' & 0xFC
  {
    PciCfgAddrFields(bus, dev, fn, off);
    PciCfgAddrFields(bus', dev', fn', off');
  }

  /** Outside that range the fields overlap: device 32 of bus 0 is
      addressed like device 0 of bus 1. */
  lemma PciCfgAddrOverlap()
    ensures PciCfgAddr(0, 32, 0, 0) == PciCfgAddr(1, 0, 0, 0)
  {
  }

  /** pci_read32: the dword configuration space holds at the address. */
  function Read32(cfg: bv32 -> Word32, bus: nat, dev: nat, fn: nat, off: bv8): Word32
    requires bus < 0x100 && dev < 0x100 && fn < 0x100
  {
    cfg(PciCfgAddr(bus as bv8, dev as bv8, fn as bv8, off))
  }

  function Pow2(n: nat): (p: nat)
    ensures p >= 1
  {
    if n == 0 then 1 else 2 * Pow2(n - 1)
  }

  /** A 32-bit logical right shift as the i386 `shr` instruction performs
      it: the count is taken modulo 32. */
  function ShrX86(v: Word32, count: nat): nat
  {
    v / Pow2(count % 32)
  }

  /** pci_read16 as written: the dword is shifted right by (off & 2) * 16,
      which is 32 for an offset with bit 1 set (undefined in C; `shr`
      then shifts by nothing). */
  function Read16AsWritten(v: Word32, off: Byte): Word16
  {
    ShrX86(v, ((off / 2) % 2) * 2 * 16) % U16
  }

  /** pci_read16 as evidently intended: the low half of the dword for an
      offset with bit 1 clear, the high half otherwise. */
  function Read16(v: Word32, off: Byte): Word16
  {
    if (off / 2) % 2 == 1 then v / U16 else v % U16
  }

  /** The two halves read back reassemble the dword. */
  lemma Read16Halves(v: Word32, off: Byte)
    requires off % 4 == 0
    ensures Read16(v, off) + Read16(v, off + 2) * U16 == v
  {
  }

  /** For an offset with bit 1 clear (the vendor read at 0x00) the source
      agrees with the intended read. */
  lemma Read16Agrees(v: Word32, off: Byte)
    requires (off / 2) % 2 == 0
    ensures Read16AsWritten(v, off) == Read16(v, off)
  {
  }

  /** At offset 2 the source yields the low half again instead of the high
      half. */
  lemma Read16HighHalfAsWritten()
    ensures Read16AsWritten(0x1234_5678, 2) == 0x5678 && Read16(0x1234_5678, 2) == 0x1234
  {
    assert ((2 / 2) % 2) * 2 * 16 % 32 == 0;
    assert ShrX86(0x1234_5678, 32) == 0x1234_5678;
  }

  /** The class code: the top byte of the dword at 0x08. */
  function ClassOf(v: Word32): Byte
  {
    v / 0x100_0000
  }

  /** The subclass: the byte below it. */
  function SubclassOf(v: Word32): Byte
  {
    (v / 0x1_0000) % 0x100
  }

  /** A BAR that maps I/O space has bit 0 set. */
  predicate IsIoBar(bar: Word32)
  {
    bar % 2 == 1
  }

  /** The port base of an I/O BAR: its low two bits cleared, cut to
      uint16_t. */
  function BarBase(bar: Word32): (b: Word16)
    ensures b % 4 == 0 && b + bar % 4 == bar % U16
  {
    (bar - bar % 4) % U16
  }

  /** A function the probe accepts: present (vendor not 0xFFFF), of class
      multimedia and subclass audio, with BAR0 and BAR1 both I/O BARs. */
  predicate IsAudio(cfg: bv32 -> Word32, bus: nat, dev: nat, fn: nat)
    requires bus < 0x100 && dev < 0x100 && fn < 0x100
  {
    var cls := Read32(cfg, bus, dev, fn, 0x08);
    Read16(Read32(cfg, bus, dev, fn, 0x00), 0x00) != 0xFFFF
    && ClassOf(cls) == PCI_CLASS_MULTIMEDIA && SubclassOf(cls) == PCI_SUBCLASS_AUDIO
    && IsIoBar(Read32(cfg, bus, dev, fn, 0x10)) && IsIoBar(Read32(cfg, bus, dev, fn, 0x14))
  }

  /** A bus/device/function triple (the probe's uint8_t counters, which
      stay below 0x100). */
  datatype Location = Location(bus: nat, dev: nat, fn: nat)

  /** The triples the probe visits: buses 0 to 254, devices 0 to 31,
      functions 0 to 7. */
  predicate InProbeRange(bus: nat, dev: nat, fn: nat)
  {
    bus < 0xFF && dev < 32 && fn < 8
  }

  /** (bus, dev, fn) is visited before (bus', dev', fn'). */
  predicate Precedes(bus: nat, dev: nat, fn: nat, bus': nat, dev': nat, fn': nat)
  {
    bus < bus' || (bus == bus' && (dev < dev' || (dev == dev' && fn < fn')))
  }

  /** The first triple at or after (bus, dev, fn), in the probe's order,
      that `accept` takes. */
  function FirstFrom(accept: (nat, nat, nat) -> bool, bus: nat, dev: nat, fn: nat): Option<Location>
    requires bus <= 0xFF && dev <= 32 && fn <= 8
    decreases 0xFF - bus, 32 - dev, 8 - fn
  {
    if bus == 0xFF then None
    else if dev == 32 then FirstFrom(accept, bus + 1, 0, 0)
    else if fn == 8 then FirstFrom(accept, bus, dev + 1, 0)
    else if accept(bus, dev, fn) then Some(Location(bus, dev, fn))
    else FirstFrom(accept, bus, dev, fn + 1)
  }

  /** The probe's test as a function of the triple. */
  function AudioTest(cfg: bv32 -> Word32): (nat, nat, nat) -> bool
  {
    (bus: nat, dev: nat, fn: nat) => bus < 0x100 && dev < 0x100 && fn < 0x100 && IsAudio(cfg, bus, dev, fn)
  }

  /** The function ac97_pci_probe settles on. */
  function FirstAudio(cfg: bv32 -> Word32): Option<Location>
  {
    FirstFrom(AudioTest(cfg), 0, 0, 0)
  }

  /** What FirstFrom finds is a visited triple that `accept` takes, at or
      after the start. */
  lemma {:induction false} FirstFromAccepted(accept: (nat, nat, nat) -> bool, bus: nat, dev: nat, fn: nat)
    requires bus <= 0xFF && dev <= 32 && fn <= 8
    ensures var r := FirstFrom(accept, bus, dev, fn);
            r.Some? ==> InProbeRange(r.value.bus, r.value.dev, r.value.fn) && accept(r.value.bus, r.value.dev, r.value.fn)
                        && !Precedes(r.value.bus, r.value.dev, r.value.fn, bus, dev, fn)
    decreases 0xFF - bus, 32 - dev, 8 - fn
  {
    if bus == 0xFF {
    } else if dev == 32 {
      FirstFromAccepted(accept, bus + 1, 0, 0);
    } else if fn == 8 {
      FirstFromAccepted(accept, bus, dev + 1, 0);
    } else if !accept(bus, dev, fn) {
      FirstFromAccepted(accept, bus, dev, fn + 1);
    }
  }

  /** Every visited triple at or after the start that `accept` takes is
      found or comes after the one found: FirstFrom reports none only when
      there is none, and nothing it skips is taken. */
  lemma {:induction false} FirstFromMinimal(accept: (nat, nat, nat) -> bool, bus: nat, dev: nat, fn: nat, b: nat, d: nat, f: nat)
    requires bus <= 0xFF && dev <= 32 && fn <= 8
    requires InProbeRange(b, d, f) && accept(b, d, f) && !Precedes(b, d, f, bus, dev, fn)
    ensures var r := FirstFrom(accept, bus, dev, fn);
            r.Some? && !Precedes(b, d, f, r.value.bus, r.value.dev, r.value.fn)
    decreases 0xFF - bus, 32 - dev, 8 - fn
  {
    if bus == 0xFF {
    } else if dev == 32 {
      FirstFromMinimal(accept, bus + 1, 0, 0, b, d, f);
    } else if fn == 8 {
      FirstFromMinimal(accept, bus, dev + 1, 0, b, d, f);
    } else if !accept(bus, dev, fn) {
      FirstFromMinimal(accept, bus, dev, fn + 1, b, d, f);
    }
  }

  /** The probe settles on an accepted function, and any accepted function
      is that one or visited after it (so none is found only when none is
      accepted). */
  lemma FirstAudioIsFirst(cfg: bv32 -> Word32, b: nat, d: nat, f: nat)
    ensures var r := FirstAudio(cfg);
            (r.Some? ==> InProbeRange(r.value.bus, r.value.dev, r.value.fn) && IsAudio(cfg, r.value.bus, r.value.dev, r.value.fn))
            && (InProbeRange(b, d, f) && IsAudio(cfg, b, d, f) ==>
                  r.Some? && !Precedes(b, d, f, r.value.bus, r.value.dev, r.value.fn))
  {
    FirstFromAccepted(AudioTest(cfg), 0, 0, 0);
    if InProbeRange(b, d, f) && IsAudio(cfg, b, d, f) {
      assert AudioTest(cfg)(b, d, f);
      FirstFromMinimal(AudioTest(cfg), 0, 0, 0, b, d, f);
    }
  }

  // ---------------------------------------------------------------------
  // Register values
  // ---------------------------------------------------------------------

  /** A register `off` bytes above an I/O base, as the uint16_t port. */
  function Reg(base: Word16, off: nat): Word16
  {
    (base + off) % U16
  }

  /** `gc | 0x02` on a uint32_t. */
  function SetBit1(gc: Word32): Word32
  {
    if (gc / 2) % 2 == 1 then gc else gc + 2
  }

  /** `gc & ~0x02` on a uint32_t. */
  function ClearBit1(gc: Word32): Word32
  {
    if (gc / 2) % 2 == 1 then gc - 2 else gc
  }

  /** The cold-reset pulse raises bit 1 and then drops it, leaving every
      other bit of the global control register as read. */
  lemma ResetPulse(gc: Word32)
    ensures (SetBit1(gc) / 2) % 2 == 1 && (ClearBit1(gc) / 2) % 2 == 0
    ensures SetBit1(gc) == ClearBit1(gc) + 2
    ensures gc == SetBit1(gc) || gc == ClearBit1(gc)
  {
  }

  /** `cr & ~PO_CR_RPBM` on a uint8_t: the run bit cleared. */
  function ClearRun(cr: Byte): (r: Byte)
    ensures r % 2 == 0 && r / 2 == cr / 2
  {
    cr - cr % 2
  }

  // ---------------------------------------------------------------------
  // The buffer descriptor list
  // ---------------------------------------------------------------------

  /** ac97_bdl_entry_t: buffer address, length, reserved byte and flags
      (bit 0 is IOC, interrupt on completion). */
  datatype BdlEntry = BdlEntry(bufPhys: Word32, bufLen: Word16, reserved: Byte, flags: Byte)

  const EMPTY_ENTRY := BdlEntry(0, 0, 0, 0)

  /** The size of the next block: at most 4 KiB, made even by dropping an
      odd last byte. */
  function BlockSize(remain: Word32): (sz: Word32)
    ensures sz <= remain && sz <= BLK_SZ && sz % 2 == 0
  {
    var s := if remain > BLK_SZ then BLK_SZ else remain;
    if s % 2 == 1 then s - 1 else s
  }

  /** An even byte count loses nothing to the rounding. */
  lemma BlockSizeEven(remain: Word32)
    requires remain % 2 == 0
    ensures BlockSize(remain) == Min(remain, BLK_SZ)
  {
  }

  /** `(uint16_t)(sz & 0xFFFF)`. */
  function Low16(x: Word32): (r: Word16)
    ensures x < U16 ==> r == x
  {
    x % U16
  }

  /** Where the descriptor loop stands: the next address and the bytes
      still to describe. */
  datatype Cursor = Cursor(addr: Word32, remain: Word32)

  /** The entry the loop writes into slot n at cursor c: IOC when the
      block reaches the end of the data or the slot is the last one. */
  function EntryAt(c: Cursor, n: nat): BdlEntry
  {
    var sz := BlockSize(c.remain);
    BdlEntry(c.addr, Low16(sz), 0, if n == AC97_BDL_ENTRIES - 1 || sz == c.remain then 1 else 0)
  }

  /** One turn of the descriptor loop: `addr += sz` on a uint32_t and
      `remain -= sz`. */
  function Step(c: Cursor): Cursor
  {
    var sz := BlockSize(c.remain);
    Cursor((c.addr + sz) % U32, c.remain - sz)
  }

  /** The entries the descriptor loop writes from slot n on, starting at
      cursor c. */
  function Plan(c: Cursor, n: nat): (p: seq<BdlEntry>)
    requires n <= AC97_BDL_ENTRIES
    ensures |p| <= AC97_BDL_ENTRIES - n
    decreases AC97_BDL_ENTRIES - n
  {
    if c.remain == 0 || n >= AC97_BDL_ENTRIES then []
    else [EntryAt(c, n)] + Plan(Step(c), n + 1)
  }

  /** The cursor after j turns. */
  function StateFrom(c: Cursor, j: nat): Cursor
    decreases j
  {
    if j == 0 then c else StateFrom(Step(c), j - 1)
  }

  lemma {:induction false} StateFromSucc(c: Cursor, j: nat)
    ensures StateFrom(c, j + 1) == Step(StateFrom(c, j))
    decreases j
  {
    if j > 0 {
      StateFromSucc(Step(c), j - 1);
    }
  }

  /** Entry j of the plan is the one written at the cursor after j turns,
      which still had bytes to describe. */
  lemma {:induction false} PlanIndex(c: Cursor, n: nat, j: nat)
    requires n <= AC97_BDL_ENTRIES && j < |Plan(c, n)|
    ensures StateFrom(c, j).remain != 0 && Plan(c, n)[j] == EntryAt(StateFrom(c, j), n + j)
    decreases j
  {
    var rest := Plan(Step(c), n + 1);
    assert c.remain != 0 && Plan(c, n) == [EntryAt(c, n)] + rest;
    if j == 0 {
      assert StateFrom(c, 0) == c;
    } else {
      assert Plan(c, n)[j] == rest[j - 1];
      assert StateFrom(c, j) == StateFrom(Step(c), j - 1);
      PlanIndex(Step(c), n + 1, j - 1);
    }
  }

  /** The plan has m entries when the loop runs m turns before it runs out
      of bytes or of slots. */
  lemma {:induction false} PlanLength(c: Cursor, n: nat, m: nat)
    requires n + m <= AC97_BDL_ENTRIES
    requires forall j :: 0 <= j < m ==> StateFrom(c, j).remain != 0
    requires StateFrom(c, m).remain == 0 || n + m == AC97_BDL_ENTRIES
    ensures |Plan(c, n)| == m
    decreases m
  {
    assert StateFrom(c, 0) == c;
    if m > 0 {
      forall j | 0 <= j < m - 1
        ensures StateFrom(Step(c), j).remain != 0
      {
        assert StateFrom(c, j + 1) == StateFrom(Step(c), j);
      }
      assert StateFrom(c, m) == StateFrom(Step(c), m - 1);
      PlanLength(Step(c), n + 1, m - 1);
      assert Plan(c, n) == [EntryAt(c, n)] + Plan(Step(c), n + 1);
    }
  }

  /** What the descriptor loop has written when it stops after m turns is
      the plan. */
  lemma PlanFromLoop(c: Cursor, m: nat)
    requires m <= AC97_BDL_ENTRIES
    requires forall j :: 0 <= j < m ==> StateFrom(c, j).remain != 0
    requires StateFrom(c, m).remain == 0 || m == AC97_BDL_ENTRIES
    ensures |Plan(c, 0)| == m
    ensures forall j :: 0 <= j < m ==> Plan(c, 0)[j] == EntryAt(StateFrom(c, j), j)
  {
    PlanLength(c, 0, m);
    forall j | 0 <= j < m
      ensures Plan(c, 0)[j] == EntryAt(StateFrom(c, j), j)
    {
      PlanIndex(c, 0, j);
    }
  }

  /** The bytes the entries cover. */
  function Covered(p: seq<BdlEntry>): nat
  {
    if p == [] then 0 else p[0].bufLen + Covered(p[1..])
  }

  /** An entry as the controller takes it: an even length of at most
      4 KiB and a zero reserved byte. */
  predicate EntryOk(e: BdlEntry)
  {
    e.bufLen <= BLK_SZ && e.bufLen % 2 == 0 && e.reserved == 0
  }

  /** At most one entry per remaining slot, none exactly when there is no
      data or no slot left, each even, at most 4 KiB and with a zero
      reserved byte. */
  lemma {:induction false} PlanShape(c: Cursor, n: nat)
    requires n <= AC97_BDL_ENTRIES
    ensures var p := Plan(c, n);
            (p == [] <==> c.remain == 0 || n == AC97_BDL_ENTRIES)
            && forall k :: 0 <= k < |p| ==> EntryOk(p[k])
    decreases AC97_BDL_ENTRIES - n
  {
    if c.remain != 0 && n < AC97_BDL_ENTRIES {
      var p := Plan(c, n);
      var rest := Plan(Step(c), n + 1);
      PlanShape(Step(c), n + 1);
      assert p == [EntryAt(c, n)] + rest;
      forall k | 0 <= k < |p|
        ensures EntryOk(p[k])
      {
        if k > 0 {
          assert p[k] == rest[k - 1];
        } else {
          EntryShape(c, n);
        }
      }
    }
  }

  /** One entry describes at most 4 KiB, an even count, with a zero
      reserved byte. */
  lemma EntryShape(c: Cursor, n: nat)
    ensures EntryOk(EntryAt(c, n))
  {
    var sz := BlockSize(c.remain);
    assert Low16(sz) == sz;
  }

  /** The blocks are consecutive: the first starts at the cursor's address
      and each one starts where the previous one ends (modulo 2^32). */
  lemma {:induction false} PlanContiguous(c: Cursor, n: nat)
    requires n <= AC97_BDL_ENTRIES
    ensures var p := Plan(c, n);
            (p != [] ==> p[0].bufPhys == c.addr)
            && forall k :: 0 <= k < |p| - 1 ==> p[k + 1].bufPhys == (p[k].bufPhys + p[k].bufLen) % U32
    decreases AC97_BDL_ENTRIES - n
  {
    if c.remain != 0 && n < AC97_BDL_ENTRIES {
      var p := Plan(c, n);
      var rest := Plan(Step(c), n + 1);
      PlanContiguous(Step(c), n + 1);
      assert p == [EntryAt(c, n)] + rest;
      forall k | 0 <= k < |p| - 1
        ensures p[k + 1].bufPhys == (p[k].bufPhys + p[k].bufLen) % U32
      {
        if k == 0 {
          assert p[1] == rest[0];
          EntryStep(c, n);
        } else {
          assert p[k] == rest[k - 1] && p[k + 1] == rest[k];
        }
      }
    }
  }

  /** The next turn starts where the entry written at cursor c ends. */
  lemma EntryStep(c: Cursor, n: nat)
    ensures Step(c).addr == (EntryAt(c, n).bufPhys + EntryAt(c, n).bufLen) % U32
  {
    var sz := BlockSize(c.remain);
    assert sz < U16;
    assert EntryAt(c, n).bufPhys == c.addr && EntryAt(c, n).bufLen == sz;
    assert Step(c).addr == (c.addr + sz) % U32;
  }

  /** IOC is set on the last entry built and on no other. */
  lemma {:induction false} PlanIocOnLast(c: Cursor, n: nat)
    requires n <= AC97_BDL_ENTRIES
    ensures var p := Plan(c, n);
            forall k :: 0 <= k < |p| ==> p[k].flags == if k == |p| - 1 then 1 else 0
    decreases AC97_BDL_ENTRIES - n
  {
    if c.remain != 0 && n < AC97_BDL_ENTRIES {
      var p := Plan(c, n);
      var rest := Plan(Step(c), n + 1);
      PlanIocOnLast(Step(c), n + 1);
      PlanShape(Step(c), n + 1);
      assert p == [EntryAt(c, n)] + rest;
      forall k | 0 < k < |p|
        ensures p[k].flags == if k == |p| - 1 then 1 else 0
      {
        assert p[k] == rest[k - 1];
      }
    }
  }

  /** For an even byte count (every frame count gives one) no byte is
      dropped: the entries cover the data or the 32 blocks of 4 KiB,
      whichever is less. */
  lemma {:induction false} PlanCovers(c: Cursor, n: nat)
    requires n <= AC97_BDL_ENTRIES && c.remain % 2 == 0
    ensures Covered(Plan(c, n)) == Min(c.remain, (AC97_BDL_ENTRIES - n) * BLK_SZ)
    decreases AC97_BDL_ENTRIES - n
  {
    if c.remain != 0 && n < AC97_BDL_ENTRIES {
      var sz := BlockSize(c.remain);
      var p := Plan(c, n);
      var rest := Plan(Step(c), n + 1);
      PlanCovers(Step(c), n + 1);
      assert p == [EntryAt(c, n)] + rest;
      assert p[1..] == rest;
      BlockSizeEven(c.remain);
      assert p[0].bufLen == sz == Min(c.remain, BLK_SZ);
      var k := AC97_BDL_ENTRIES - n;
      assert (k - 1) * BLK_SZ + BLK_SZ == k * BLK_SZ;
      assert Covered(p) == sz + Min(c.remain - sz, (k - 1) * BLK_SZ);
    }
  }

  /** The byte count of `frames` stereo 16-bit frames as uint32_t. */
  function BytesTotal(frames: Word32): (t: Word32)
    ensures t % 4 == 0
    ensures frames < 0x4000_0000 ==> t == frames * 4
  {
    (frames * 4) % U32
  }

  /** No descriptor is built only when frames * 4 wraps to 0, i.e. for a
      non-zero multiple of 2^30 frames. */
  lemma NoDescriptorOnlyOnWrap(buffer: Word32, frames: Word32)
    requires frames != 0
    ensures Plan(Cursor(buffer, BytesTotal(frames)), 0) == [] <==> frames % 0x4000_0000 == 0
  {
    PlanShape(Cursor(buffer, BytesTotal(frames)), 0);
    BytesTotalZero(frames);
  }

  lemma BytesTotalZero(frames: Word32)
    ensures BytesTotal(frames) == 0 <==> frames % 0x4000_0000 == 0
  {
    var q, m := frames / 0x4000_0000, frames % 0x4000_0000;
    assert frames == q * 0x4000_0000 + m;
    assert frames * 4 == q * U32 + m * 4;
    assert m * 4 < U32;
    assert BytesTotal(frames) == m * 4;
  }

  /** For a frame count whose byte count fits, the list covers all of it
      up to 128 KiB. */
  lemma PlayCovers(buffer: Word32, frames: Word32)
    requires frames < 0x4000_0000
    ensures Covered(Plan(Cursor(buffer, BytesTotal(frames)), 0)) == Min(frames * 4, AC97_BDL_ENTRIES * BLK_SZ)
  {
    var t := BytesTotal(frames);
    assert t == 2 * (frames * 2);
    PlanCovers(Cursor(buffer, t), 0);
  }

  /** The write of ac97_set_sample_rate: the rate, cut to uint16_t, into
      the front DAC rate register. */
  function RateWrite(nam: Word16, rate: Word32): PortOut
  {
    Outw(Reg(nam, NAM_FRONT_DAC_RATE), rate % U16)
  }

  /** The writes of ac97_po_stop_reset (`cr` is the control byte read
      first): run bit cleared, reset bit, control cleared, status
      cleared. */
  function StopResetWrites(nabm: Word16, cr: Byte): seq<PortOut>
  {
    [Outb(Reg(nabm, PO_CR), ClearRun(cr)),
     Outb(Reg(nabm, PO_CR), PO_CR_RESET),
     Outb(Reg(nabm, PO_CR), 0),
     Outb(Reg(nabm, PO_SR), PO_SR_MASK_ALL)]
  }

  /** The writes that start PCM-out for `ndesc` built entries: the list
      address, CIV 0, LVI on the last entry, status cleared, run. */
  function StartWrites(nabm: Word16, bdlAddr: Word32, ndesc: nat): seq<PortOut>
    requires 1 <= ndesc <= AC97_BDL_ENTRIES
  {
    [Outl(Reg(nabm, PO_BDBAR), bdlAddr),
     Outb(Reg(nabm, PO_CIV), 0),
     Outb(Reg(nabm, PO_LVI), ndesc - 1),
     Outb(Reg(nabm, PO_SR), PO_SR_MASK_ALL),
     Outb(Reg(nabm, PO_CR), PO_CR_RPBM)]
  }

  // ---------------------------------------------------------------------
  // The driver state
  // ---------------------------------------------------------------------

  /** The statics of drivers/audio/ac97.c, the port writes made so far and
      the address `ac97_bdl` has in memory. */
  class Controller {
    var namBase: Word16
    var nabmBase: Word16
    var found: bool
    var ports: seq<PortOut>
    const bdl: array<BdlEntry>
    const bdlAddr: Word32

    predicate Valid()
      reads this
    {
      bdl.Length == AC97_BDL_ENTRIES
    }

    /** The statics as the program loads them. */
    constructor (address: Word32)
      ensures Valid() && fresh(bdl) && bdlAddr == address
      ensures namBase == 0 && nabmBase == 0 && !found && ports == []
      ensures forall k :: 0 <= k < bdl.Length ==> bdl[k] == EMPTY_ENTRY
    {
      namBase, nabmBase, found := 0, 0, false;
      ports := [];
      bdl := new BdlEntry[AC97_BDL_ENTRIES](_ => EMPTY_ENTRY);
      bdlAddr := address;
    }

    /** ac97_pci_probe: scan the buses in order and take the bases of the
        first accepted function; -1 when there is none. */
    method Probe(cfg: bv32 -> Word32) returns (r: int)
      modifies this`namBase, this`nabmBase
      ensures r == 0 || r == -1
      ensures r == -1 <==> FirstAudio(cfg).None?
      ensures r == -1 ==> namBase == old(namBase) && nabmBase == old(nabmBase)
      ensures r == 0 ==>
                var l := FirstAudio(cfg).value;
                InProbeRange(l.bus, l.dev, l.fn) && IsAudio(cfg, l.bus, l.dev, l.fn)
                && namBase == BarBase(Read32(cfg, l.bus, l.dev, l.fn, 0x10))
                && nabmBase == BarBase(Read32(cfg, l.bus, l.dev, l.fn, 0x14))
    {
      var bus: nat := 0;
      while bus < 0xFF
        invariant bus <= 0xFF
        invariant FirstAudio(cfg) == FirstFrom(AudioTest(cfg), bus, 0, 0)
        invariant namBase == old(namBase) && nabmBase == old(nabmBase)
      {
        var dev: nat := 0;
        while dev < 32
          invariant dev <= 32
          invariant FirstAudio(cfg) == FirstFrom(AudioTest(cfg), bus, dev, 0)
          invariant namBase == old(namBase) && nabmBase == old(nabmBase)
        {
          var fn: nat := 0;
          while fn < 8
            invariant fn <= 8
            invariant FirstAudio(cfg) == FirstFrom(AudioTest(cfg), bus, dev, fn)
            invariant namBase == old(namBase) && nabmBase == old(nabmBase)
          {
            var vendor := Read16(Read32(cfg, bus, dev, fn, 0x00), 0x00);
            if vendor != 0xFFFF {
              var cls := ClassOf(Read32(cfg, bus, dev, fn, 0x08));
              var subclass := SubclassOf(Read32(cfg, bus, dev, fn, 0x08));
              if cls == PCI_CLASS_MULTIMEDIA && subclass == PCI_SUBCLASS_AUDIO {
                var bar0 := Read32(cfg, bus, dev, fn, 0x10);
                var bar1 := Read32(cfg, bus, dev, fn, 0x14);
                if IsIoBar(bar0) && IsIoBar(bar1) {
                  namBase := BarBase(bar0);
                  nabmBase := BarBase(bar1);
                  return 0;
                }
              }
            }
            fn := fn + 1;
          }
          dev := dev + 1;
        }
        bus := bus + 1;
      }
      return -1;
    }

    /** ac97_codec_reset: software reset through NAM, then a cold-reset
        pulse on the global control register (`gc` is the value read from
        it). */
    method CodecReset(gc: Word32)
      modifies this`ports
      ensures ports == old(ports) + [Outw(Reg(namBase, NAM_RESET), 0),
                                     Outl(Reg(nabmBase, NABM_GLOB_CNT), SetBit1(gc)),
                                     Outl(Reg(nabmBase, NABM_GLOB_CNT), ClearBit1(gc))]
    {
      ports := ports + [Outw(Reg(namBase, NAM_RESET), 0)];
      ports := ports + [Outl(Reg(nabmBase, NABM_GLOB_CNT), SetBit1(gc))];
      ports := ports + [Outl(Reg(nabmBase, NABM_GLOB_CNT), ClearBit1(gc))];
    }

    /** ac97_set_sample_rate: the rate, cut to uint16_t, into the front DAC
        rate register. */
    method SetSampleRate(rate: Word32)
      modifies this`ports
      ensures ports == old(ports) + [RateWrite(namBase, rate)]
    {
      ports := ports + [Outw(Reg(namBase, NAM_FRONT_DAC_RATE), rate % U16)];
    }

    /** ac97_unmute: master and PCM-out volume to 0 (loudest). */
    method Unmute()
      modifies this`ports
      ensures ports == old(ports) + [Outw(Reg(namBase, NAM_MASTER_VOL), 0), Outw(Reg(namBase, NAM_PCM_OUT_VOL), 0)]
    {
      ports := ports + [Outw(Reg(namBase, NAM_MASTER_VOL), 0)];
      ports := ports + [Outw(Reg(namBase, NAM_PCM_OUT_VOL), 0)];
    }

    /** ac97_hw_init: -1 when the probe finds nothing (nothing else
        happens); otherwise reset, unmute, 48 kHz and mark found. */
    method HwInit(cfg: bv32 -> Word32, gc: Word32) returns (r: int)
      modifies this`namBase, this`nabmBase, this`found, this`ports
      ensures r == -1 <==> FirstAudio(cfg).None?
      ensures r == -1 ==> namBase == old(namBase) && nabmBase == old(nabmBase) && found == old(found) && ports == old(ports)
      ensures r != -1 ==>
                var l := FirstAudio(cfg).value;
                r == 0 && found && InProbeRange(l.bus, l.dev, l.fn)
                && namBase == BarBase(Read32(cfg, l.bus, l.dev, l.fn, 0x10))
                && nabmBase == BarBase(Read32(cfg, l.bus, l.dev, l.fn, 0x14))
                && ports == old(ports) + [Outw(Reg(namBase, NAM_RESET), 0),
                                          Outl(Reg(nabmBase, NABM_GLOB_CNT), SetBit1(gc)),
                                          Outl(Reg(nabmBase, NABM_GLOB_CNT), ClearBit1(gc)),
                                          Outw(Reg(namBase, NAM_MASTER_VOL), 0),
                                          Outw(Reg(namBase, NAM_PCM_OUT_VOL), 0),
                                          Outw(Reg(namBase, NAM_FRONT_DAC_RATE), INIT_RATE)]
    {
      r := Probe(cfg);
      if r != 0 {
        return -1;
      }
      CodecReset(gc);
      Unmute();
      SetSampleRate(INIT_RATE);
      found := true;
      return 0;
    }

    /** ac97_po_stop_reset: clear the run bit of the control register
        (`cr` is the value read from it), reset the channel and clear
        every status bit. */
    method StopReset(cr: Byte)
      modifies this`ports
      ensures ports == old(ports) + StopResetWrites(nabmBase, cr)
    {
      ports := ports + [Outb(Reg(nabmBase, PO_CR), ClearRun(cr))];
      ports := ports + [Outb(Reg(nabmBase, PO_CR), PO_CR_RESET)];
      ports := ports + [Outb(Reg(nabmBase, PO_CR), 0)];
      ports := ports + [Outb(Reg(nabmBase, PO_SR), PO_SR_MASK_ALL)];
    }

    /** One turn of the descriptor loop: the entry for the cursor goes
        into slot `ndesc` and the cursor moves past its block. */
    method WriteEntry(ndesc: nat, addr: Word32, remain: Word32) returns (addr': Word32, remain': Word32)
      requires Valid() && ndesc < AC97_BDL_ENTRIES && remain != 0
      modifies bdl
      ensures bdl[ndesc] == EntryAt(Cursor(addr, remain), ndesc)
      ensures forall j :: 0 <= j < bdl.Length && j != ndesc ==> bdl[j] == old(bdl[j])
      ensures Cursor(addr', remain') == Step(Cursor(addr, remain))
    {
      var sz := BlockSize(remain);
      bdl[ndesc] := BdlEntry(addr, Low16(sz), 0, if ndesc == AC97_BDL_ENTRIES - 1 || sz == remain then 1 else 0);
      addr' := (addr + sz) % U32;
      remain' := remain - sz;
    }

    /** The descriptor loop of ac97_hw_play_stereo16: fills the list from
        slot 0 with the entries of Plan and returns their number. */
    method BuildBdl(buffer: Word32, total: Word32) returns (ndesc: nat)
      requires Valid()
      modifies bdl
      ensures ndesc == |Plan(Cursor(buffer, total), 0)|
      ensures forall j :: 0 <= j < ndesc ==> bdl[j] == Plan(Cursor(buffer, total), 0)[j]
      ensures forall j :: ndesc <= j < bdl.Length ==> bdl[j] == old(bdl[j])
    {
      ndesc := FillBdl(buffer, total);
      PlanFromLoop(Cursor(buffer, total), ndesc);
    }

    /** The descriptor loop itself: it stops after m turns, at the first
        cursor with nothing left or at slot 32, having written the entry
        of each cursor it passed. */
    method FillBdl(buffer: Word32, total: Word32) returns (ndesc: nat)
      requires Valid()
      modifies bdl
      ensures ndesc <= AC97_BDL_ENTRIES
      ensures StateFrom(Cursor(buffer, total), ndesc).remain == 0 || ndesc == AC97_BDL_ENTRIES
      ensures forall j :: 0 <= j < ndesc ==> StateFrom(Cursor(buffer, total), j).remain != 0
      ensures forall j :: 0 <= j < ndesc ==>
                bdl[j] == EntryAt(StateFrom(Cursor(buffer, total), j), j)
      ensures forall j :: ndesc <= j < bdl.Length ==> bdl[j] == old(bdl[j])
    {
      var remain: Word32 := total;
      var addr: Word32 := buffer;
      ghost var c0 := Cursor(buffer, total);
      ndesc := 0;
      while remain != 0 && ndesc < AC97_BDL_ENTRIES
        invariant ndesc <= AC97_BDL_ENTRIES
        invariant Cursor(addr, remain) == StateFrom(c0, ndesc)
        invariant forall j :: 0 <= j < ndesc ==> StateFrom(c0, j).remain != 0
        invariant forall j :: 0 <= j < ndesc ==> bdl[j] == EntryAt(StateFrom(c0, j), j)
        invariant forall j :: ndesc <= j < bdl.Length ==> bdl[j] == old(bdl[j])
        decreases AC97_BDL_ENTRIES - ndesc
      {
        StateFromSucc(c0, ndesc);
        addr, remain := WriteEntry(ndesc, addr, remain);
        ndesc := ndesc + 1;
      }
    }

    /** ac97_hw_play_stereo16: -1 before a successful init, -2 for a null
        buffer or no frames, -3 when no descriptor was built (after the
        rate was set); otherwise the list is handed to the PCM-out channel
        with CIV 0 and LVI on the last entry, and the channel runs. */
    method PlayStereo16(rate: Word32, buffer: Word32, frames: Word32, cr: Byte) returns (r: int)
      requires Valid()
      modifies bdl, this`ports
      ensures r in {0, -1, -2, -3}
      ensures r == -1 <==> !found
      ensures r == -2 <==> found && (buffer == 0 || frames == 0)
      ensures r == -3 <==> found && buffer != 0 && frames != 0 && Plan(Cursor(buffer, BytesTotal(frames)), 0) == []
      ensures r == -1 || r == -2 ==> ports == old(ports) && bdl[..] == old(bdl[..])
      ensures r == -3 ==> ports == old(ports) + [RateWrite(namBase, rate)] && bdl[..] == old(bdl[..])
      ensures r == 0 ==>
                var p := Plan(Cursor(buffer, BytesTotal(frames)), 0);
                (forall j :: 0 <= j < |p| ==> bdl[j] == p[j])
                && (forall j :: |p| <= j < bdl.Length ==> bdl[j] == old(bdl[j]))
                && 1 <= |p| <= AC97_BDL_ENTRIES
                && ports == old(ports) + [RateWrite(namBase, rate)] + StopResetWrites(nabmBase, cr)
                                       + StartWrites(nabmBase, bdlAddr, |p|)
    {
      if !found {
        return -1;
      }
      if buffer == 0 || frames == 0 {
        return -2;
      }
      SetSampleRate(rate);
      var ndesc := BuildBdl(buffer, BytesTotal(frames));
      if ndesc == 0 {
        return -3;
      }
      StopReset(cr);
      StartChannel(ndesc);
      return 0;
    }

    /** The end of ac97_hw_play_stereo16 for `ndesc` built entries: the list
        address, CIV 0, LVI on the last entry, status cleared, channel run. */
    method StartChannel(ndesc: nat)
      requires 1 <= ndesc <= AC97_BDL_ENTRIES
      modifies this`ports
      ensures ports == old(ports) + StartWrites(nabmBase, bdlAddr, ndesc)
    {
      ports := ports + [Outl(Reg(nabmBase, PO_BDBAR), bdlAddr)];
      ports := ports + [Outb(Reg(nabmBase, PO_CIV), 0)];
      ports := ports + [Outb(Reg(nabmBase, PO_LVI), ndesc - 1)];
      ports := ports + [Outb(Reg(nabmBase, PO_SR), PO_SR_MASK_ALL)];
      ports := ports + [Outb(Reg(nabmBase, PO_CR), PO_CR_RPBM)];
    }
  }
}
