/** The programmable interval timer of drivers/pit.c: channel 0 in rate
    generator mode at a chosen frequency, a tick counter advanced by the
    IRQ0 handler, and the millisecond wait built on it. Port writes appear
    as a trace; each `hlt` wake-up of the wait is one timer interrupt. */
module Pit {
  import opened Machine

  /** The PIT input clock in Hz. */
  const PIT_BASE_HZ: nat := 1193182
  const PIT_CH0_DATA: Word16 := 0x40
  const PIT_MODE_CMD: Word16 := 0x43
  /** Channel 0, low then high byte, mode 2, binary. */
  const PIT_MODE_CH0_LH_MODE2: Byte := 0x34
  const MAX_DIVISOR: nat := 65535

  /** The reload value pit_init computes for `hz` (not 0): the base clock
      divided by hz, raised to 1 and capped at 65535. */
  function Divisor(hz: Word32): nat
    requires hz != 0
  {
    var d := PIT_BASE_HZ / hz;
    if d == 0 then 1 else if d > MAX_DIVISOR then MAX_DIVISOR else d
  }

  /** The divisor is always one the 16-bit counter can hold (and never 0),
      and it is the exact quotient whenever that is in range. */
  lemma DivisorRange(hz: Word32)
    requires hz != 0
    ensures 1 <= Divisor(hz) <= MAX_DIVISOR
    ensures 1 <= PIT_BASE_HZ / hz <= MAX_DIVISOR ==> Divisor(hz) == PIT_BASE_HZ / hz
    ensures hz > PIT_BASE_HZ ==> Divisor(hz) == 1
    ensures hz <= 18 ==> Divisor(hz) == MAX_DIVISOR
  {
    if hz > PIT_BASE_HZ {
      DivSmall(PIT_BASE_HZ, hz);
    }
    if hz <= 18 {
      assert hz * 66287 <= PIT_BASE_HZ;
      DivLowerBound(PIT_BASE_HZ, hz, 66287);
    }
  }

  lemma MulMono(b: nat, x: nat, y: nat)
    requires x <= y
    ensures b * x <= b * y
  {
    assert b * y - b * x == b * (y - x);
  }

  /** q fits b times into a, so a / b is at least q. */
  lemma DivLowerBound(a: nat, b: nat, q: nat)
    requires b > 0 && b * q <= a
    ensures q <= a / b
  {
    var r := a / b;
    assert a == b * r + a % b;
    MulMono(b, q, r + 1);
  }

  /** A smaller number goes into a larger one zero times. */
  lemma DivSmall(a: nat, b: nat)
    requires a < b
    ensures a / b == 0
  {
    var r := a / b;
    assert a == b * r + a % b;
    MulMono(b, 0, r);
  }

  /** Dividing by a positive number never makes a larger value. */
  lemma DivUpperBound(a: nat, b: nat)
    requires b > 0
    ensures a / b <= a
  {
    var r := a / b;
    assert a == b * r + a % b;
    MulMono(r, 1, b);
  }

  /** The frequency pit_init records: the base clock over the divisor. */
  function ActualHz(hz: Word32): nat
    requires hz != 0
  {
    PIT_BASE_HZ / Divisor(hz)
  }

  /** The recorded frequency lies between 18 Hz and the base clock, and
      is at least the requested one whenever the divisor was not capped
      (the quotient rounds the divisor down, so the rate rounds up). */
  lemma ActualHzBounds(hz: Word32)
    requires hz != 0
    ensures 18 <= ActualHz(hz) <= PIT_BASE_HZ
    ensures hz <= PIT_BASE_HZ && PIT_BASE_HZ / hz <= MAX_DIVISOR ==> ActualHz(hz) >= hz
  {
    DivisorRange(hz);
    var d := Divisor(hz);
    DivLowerBound(PIT_BASE_HZ, d, 18);
    DivUpperBound(PIT_BASE_HZ, d);
    if hz <= PIT_BASE_HZ && PIT_BASE_HZ / hz <= MAX_DIVISOR {
      DivLowerBound(PIT_BASE_HZ, hz, 1);
      assert d == PIT_BASE_HZ / hz;
      assert d * hz <= PIT_BASE_HZ by {
        assert PIT_BASE_HZ == hz * (PIT_BASE_HZ / hz) + PIT_BASE_HZ % hz;
      }
      DivLowerBound(PIT_BASE_HZ, d, hz);
    }
  }

  /** The two data-port writes that load a divisor: `divisor & 0xFF`, then
      `(divisor >> 8) & 0xFF`. */
  function DivisorBytes(divisor: nat): seq<Byte>
  {
    [divisor % 0x100, (divisor / 0x100) % 0x100]
  }

  /** A divisor the counter can hold reaches it whole. */
  lemma DivisorBytesRoundTrip(divisor: nat)
    requires divisor <= MAX_DIVISOR
    ensures DivisorBytes(divisor)[0] as int + (DivisorBytes(divisor)[1] as int) * 0x100 == divisor
  {
  }

  /** The wait target as drivers/pit.c computes it: the start is the tick
      count cut to uint32_t, the delay `(ms * hz) / 1000` in uint32_t
      arithmetic, the sum wraps, and a zero delay becomes one tick. */
  function WaitTargetAsWritten(ticks: nat, ms: Word32, hz: Word32): Word32
  {
    var start := ticks % U32;
    var target := (start + ((ms * hz) % U32) / 1000) % U32;
    if target == start then (start + 1) % U32 else target
  }

  /** The number of ticks a wait that starts at `ticks` and runs until the
      count reaches `target` lets pass. */
  function Waited(ticks: nat, target: nat): nat
  {
    if ticks < target then target - ticks else 0
  }

  /** The delay of a wait in ticks, as evidently intended: ms * hz / 1000,
      and at least one tick. */
  function DelayTicks(ms: Word32, hz: Word32): (d: nat)
    ensures d >= 1
  {
    Max((ms * hz) / 1000, 1)
  }

  /** The wait target as evidently intended: the delay counted from the
      full tick count. */
  function WaitTarget(ticks: nat, ms: Word32, hz: Word32): (t: nat)
    ensures t > ticks
  {
    ticks + DelayTicks(ms, hz)
  }

  /** A corrected wait always lasts the intended number of ticks, and for
      a delay of at least one tick that is ms * hz / 1000. */
  lemma WaitLasts(ticks: nat, ms: Word32, hz: Word32)
    ensures Waited(ticks, WaitTarget(ticks, ms, hz)) == DelayTicks(ms, hz)
    ensures ms * hz >= 1000 ==> Waited(ticks, WaitTarget(ticks, ms, hz)) == (ms * hz) / 1000
  {
  }

  /** While the tick count and the delay stay clear of 2^32 the source's
      target is the intended one. */
  lemma WaitTargetAgrees(ticks: nat, ms: Word32, hz: Word32)
    requires ms * hz < U32 && WaitTarget(ticks, ms, hz) < U32
    ensures WaitTargetAsWritten(ticks, ms, hz) == WaitTarget(ticks, ms, hz)
  {
    var p := ms * hz;
    var q := p / 1000;
    NoWrap(p);
    assert DelayTicks(ms, hz) == Max(q, 1);
    NoWrap(ticks);
    NoWrap(ticks + q);
    assert WaitTargetAsWritten(ticks, ms, hz) == if ticks + q == ticks then ticks + 1 else ticks + q;
  }

  /** Once the tick count has passed 2^32 (about 49.7 days at 1000 Hz) the
      source's wait returns at once: a one-second wait at 100 Hz with
      2^32 ticks counted lets no tick pass instead of 100. */
  lemma WaitSkippedAfterWrap()
    ensures Waited(U32, WaitTargetAsWritten(U32, 1000, 100)) == 0
    ensures Waited(U32, WaitTarget(U32, 1000, 100)) == 100
  {
    assert WaitTargetAsWritten(U32, 1000, 100) == 100;
    assert DelayTicks(1000, 100) == 100;
  }

  /** The product ms * hz is also taken in uint32_t before the division:
      from tick 0 a wait of 5,000,000 ms (about 83 minutes) at 1000 Hz
      lets 705,032 ticks pass instead of 5,000,000. */
  lemma WaitProductWrapsAsWritten()
    ensures Waited(0, WaitTargetAsWritten(0, 5_000_000, 1000)) == 705_032
    ensures Waited(0, WaitTarget(0, 5_000_000, 1000)) == 5_000_000
  {
    assert (5_000_000 * 1000) % U32 == 705_032_704;
    assert WaitTargetAsWritten(0, 5_000_000, 1000) == 705_032;
    assert DelayTicks(5_000_000, 1000) == 5_000_000;
  }

  /** The statics of drivers/pit.c, the port writes made so far, and
      whether the IRQ0 handler has been hooked. */
  class Timer {
    var ticks: nat
    var hz: Word32
    var inited: bool
    var irq0Hooked: bool
    var ports: seq<PortOut>

    /** The statics as the program loads them. */
    constructor ()
      ensures ticks == 0 && hz == 0 && !inited && !irq0Hooked && ports == []
    {
      ticks, hz := 0, 0;
      inited, irq0Hooked := false, false;
      ports := [];
    }

    /** pit_init: false for 0 Hz, changing nothing; otherwise the mode
        word and the divisor go out, the recorded frequency becomes the
        one the divisor gives, the count restarts at 0 and the handler is
        hooked. */
    method Init(want: Word32) returns (ok: bool)
      modifies this
      ensures ok <==> want != 0
      ensures !ok ==> ticks == old(ticks) && hz == old(hz) && inited == old(inited)
                      && irq0Hooked == old(irq0Hooked) && ports == old(ports)
      ensures ok ==> hz == ActualHz(want) && ticks == 0 && inited && irq0Hooked
                     && ports == old(ports) + [Outb(PIT_MODE_CMD, PIT_MODE_CH0_LH_MODE2),
                                               Outb(PIT_CH0_DATA, DivisorBytes(Divisor(want))[0]),
                                               Outb(PIT_CH0_DATA, DivisorBytes(Divisor(want))[1])]
    {
      if want == 0 {
        return false;
      }
      var divisor := Divisor(want);
      ports := ports + [Outb(PIT_MODE_CMD, PIT_MODE_CH0_LH_MODE2)];
      ports := ports + [Outb(PIT_CH0_DATA, DivisorBytes(divisor)[0])];
      ports := ports + [Outb(PIT_CH0_DATA, DivisorBytes(divisor)[1])];
      ActualHzBounds(want);
      hz := PIT_BASE_HZ / divisor;
      ticks := 0;
      irq0Hooked := true;
      inited := true;
      return true;
    }

    /** pit_get_frequency. */
    method Frequency() returns (f: Word32)
      ensures f == hz
    {
      f := hz;
    }

    /** pit_get_ticks. */
    method Ticks() returns (t: nat)
      ensures t == ticks
    {
      t := ticks;
    }

    /** pit_irq_handler: one more tick, nothing else. */
    method Irq()
      modifies this`ticks
      ensures ticks == old(ticks) + 1
    {
      ticks := ticks + 1;
    }

    /** timer_wait_ms with the corrected target. Without a working timer
        it busy-waits `ms * 100000` (uint32_t) iterations, which it
        returns; otherwise it sleeps through timer interrupts until the
        count reaches the target, which is then exactly the requested
        number of ticks later. */
    method WaitMs(ms: Word32) returns (spins: Word32)
      modifies this`ticks
      ensures !inited || hz == 0 ==> spins == (ms * 100000) % U32 && ticks == old(ticks)
      ensures inited && hz != 0 ==> spins == 0 && ticks == WaitTarget(old(ticks), ms, hz)
      ensures inited && hz != 0 ==> ticks - old(ticks) == DelayTicks(ms, hz)
    {
      if !inited || hz == 0 {
        return (ms * 100000) % U32;
      }
      var target := WaitTarget(ticks, ms, hz);
      while ticks < target
        invariant old(ticks) <= ticks <= target
        decreases target - ticks
      {
        Irq();
      }
      return 0;
    }
  }
}
