/** Interrupt entry in C: the table of 256 registered handlers, the
    hardware-interrupt path that acknowledges the two 8259 PICs and then
    calls the registered handler, and the exception path that ends the
    current task. Port writes, handler calls and task exits are recorded as
    an ordered trace of events. */
module Isr {
  import opened Machine

  const VECTORS: nat := 256
  const PIC_MASTER: Word16 := 0x20
  const PIC_SLAVE: Word16 := 0xA0
  const PIC_EOI: Byte := 0x20
  /** Vectors from here on are raised by the slave PIC. */
  const SLAVE_FIRST_VECTOR: nat := 0x28

  /** What the outside world sees: a byte written to an I/O port, a call of
      a registered handler (by its address) for an interrupt number, or
      the end of the current task with an exit value. */
  datatype Event = Out(port: Word16, value: Byte) | Invoke(handler: Word32, intNo: nat) | TaskExit(code: int)

  /** The events irq_handler produces: the slave EOI for slave vectors,
      the master EOI always, then the handler call when one is registered
      (address 0 is NULL). */
  function IrqEvents(handler: Word32, intNo: nat): (t: seq<Event>)
    ensures Out(PIC_SLAVE, PIC_EOI) in t <==> intNo >= SLAVE_FIRST_VECTOR
    ensures Out(PIC_MASTER, PIC_EOI) in t
    ensures Invoke(handler, intNo) in t <==> handler != 0
    ensures forall i, j :: 0 <= i < j < |t| ==> !(t[i].Invoke? && t[j].Out?)
    ensures forall i :: 0 <= i < |t| && t[i].Invoke? ==> t[i] == Invoke(handler, intNo)
  {
    (if intNo >= SLAVE_FIRST_VECTOR then [Out(PIC_SLAVE, PIC_EOI)] else [])
    + [Out(PIC_MASTER, PIC_EOI)]
    + (if handler != 0 then [Invoke(handler, intNo)] else [])
  }

  class Interrupts {
    var handlers: array<Word32>
    var trace: seq<Event>

    ghost predicate Valid()
      reads this
    {
      handlers.Length == VECTORS
    }

    /** The static table starts out all NULL. */
    constructor ()
      ensures Valid() && fresh(handlers) && trace == []
      ensures forall n :: 0 <= n < VECTORS ==> handlers[n] == 0
    {
      handlers := new Word32[VECTORS](_ => 0);
      trace := [];
    }

    /** register_interrupt_handler: slot n, and only slot n, now holds h. */
    method Register(n: Byte, h: Word32)
      requires Valid()
      modifies handlers
      ensures handlers[..] == old(handlers[..])[n := h]
    {
      handlers[n] := h;
    }

    /** irq_handler: both acknowledgements go out before the handler runs. */
    method IrqHandler(intNo: Byte)
      requires Valid()
      modifies this
      ensures Valid() && handlers == old(handlers)
      ensures trace == old(trace) + IrqEvents(handlers[intNo], intNo)
    {
      if intNo >= SLAVE_FIRST_VECTOR {
        trace := trace + [Out(PIC_SLAVE, PIC_EOI)];
      }
      trace := trace + [Out(PIC_MASTER, PIC_EOI)];
      if handlers[intNo] != 0 {
        var handler := handlers[intNo];
        trace := trace + [Invoke(handler, intNo)];
      }
    }

    /** isr_handler: whatever the exception, the current task is ended with
        -1 (the message printed before that is not part of this model). */
    method IsrHandler(intNo: nat)
      modifies this
      ensures handlers == old(handlers)
      ensures trace == old(trace) + [TaskExit(-1)]
    {
      trace := trace + [TaskExit(-1)];
    }
  }

  /** After registering h at n, an interrupt on n calls h, and an
      interrupt on any other vector calls what was there before. */
  lemma RegisterThenDispatch(before: seq<Word32>, n: Byte, h: Word32, m: Byte)
    requires |before| == VECTORS
    ensures var after := before[n := h];
      IrqEvents(after[m], m) == IrqEvents(if m == n then h else before[m], m)
  {
  }
}
