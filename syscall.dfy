/** The system-call entry point: the trap handler hands over the saved
    registers, the call number in eax selects a kernel service, pointer
    arguments are moved into the caller's data segment by adding ds_base,
    and the service's answer is stored back into the trapped frame so that
    the user program sees it in eax. The services themselves are modelled
    in their own modules; here their answer is an input. */
module Syscall {
  import opened Machine

  /** The kernel services reachable through int 0x80. */
  datatype Service =
    | GetPid | Write | Read | Open | Close | Lseek | Unlink
    | CreateProcess | Wait | Exit | Sbrk | NoService

  /** One call as it leaves the dispatcher: the service and its arguments,
      in the order of the C prototype. */
  datatype Call = Call(service: Service, args: seq<int>)

  /** The service a call number selects; anything other than 0..10 selects
      none. */
  function ServiceOf(eax: int): Service
  {
    match eax
    case 0 => GetPid
    case 1 => Write
    case 2 => Read
    case 3 => Open
    case 4 => Close
    case 5 => Lseek
    case 6 => Unlink
    case 7 => CreateProcess
    case 8 => Wait
    case 9 => Exit
    case 10 => Sbrk
    case _ => NoService
  }

  /** How many of ebx, ecx, edx a service takes. */
  function Arity(s: Service): nat
  {
    match s
    case GetPid => 0
    case NoService => 0
    case Write => 3
    case Read => 3
    case Lseek => 3
    case CreateProcess => 3
    case Open => 2
    case _ => 1
  }

  /** Which of the argument registers (0 = ebx, 1 = ecx, 2 = edx) carry a
      user pointer that must be moved into the caller's segment. */
  predicate IsPointerArg(s: Service, i: nat)
  {
    match s
    case Write => i == 1
    case Read => i == 1
    case Open => i == 0
    case Unlink => i == 0
    case CreateProcess => i < 3
    case _ => false
  }

  /** A user pointer seen from the kernel: the 32-bit sum of the offset and
      the segment base. */
  function Translate(p: int, dsBase: int): Word32
  {
    ToWord32(p + dsBase)
  }

  /** An int register passed for a parameter of another type: sys_lseek's
      `uint8_t whence` keeps the low byte and sys_open's `uint32_t flags`
      reads the same bits unsigned; every other parameter is an int. */
  function Param(s: Service, i: nat, v: int): int
  {
    if s == Lseek && i == 2 then v % U8
    else if s == Open && i == 1 then ToWord32(v)
    else v
  }

  /** The switch of syscall_manager: which service it calls and with which
      arguments. Pointer arguments, and only those, are translated by
      ds_base; every other register is converted to its parameter's type. */
  function Dispatch(eax: int, ebx: int, ecx: int, edx: int, dsBase: int): (c: Call)
    ensures c.service == ServiceOf(eax)
    ensures |c.args| == Arity(c.service)
    ensures forall i :: 0 <= i < |c.args| ==>
      c.args[i] == (if IsPointerArg(c.service, i) then Translate([ebx, ecx, edx][i], dsBase)
                    else Param(c.service, i, [ebx, ecx, edx][i]))
  {
    match eax
    case 0 => Call(GetPid, [])
    case 1 => Call(Write, [ebx, Translate(ecx, dsBase), edx])
    case 2 => Call(Read, [ebx, Translate(ecx, dsBase), edx])
    case 3 => Call(Open, [Translate(ebx, dsBase), ToWord32(ecx)])
    case 4 => Call(Close, [ebx])
    case 5 => Call(Lseek, [ebx, ecx, edx % U8])
    case 6 => Call(Unlink, [Translate(ebx, dsBase)])
    case 7 => Call(CreateProcess, [Translate(ebx, dsBase), Translate(ecx, dsBase), Translate(edx, dsBase)])
    case 8 => Call(Wait, [ebx])
    case 9 => Call(Exit, [ebx])
    case 10 => Call(Sbrk, [ebx])
    case _ => Call(NoService, [])
  }

  /** The value syscall_manager stores for the user: the service's answer,
      except that task_exit's answer is not used and an unknown call number
      leaves the initial 0. */
  function Returned(c: Call, answer: Int32): Int32
  {
    if c.service == NoService || c.service == Exit then 0 else answer
  }

  /** The saved registers as the handler sees them on its stack: edi, esi,
      ebp, esp, ebx, edx, ecx, eax and then, eight words past eax, the slot
      that is popped into eax on return. */
  const EDI: nat := 0
  const EBX: nat := 4
  const EDX: nat := 5
  const ECX: nat := 6
  const EAX: nat := 7
  const RESULT_SLOT: nat := 15

  /** syscall_manager: dispatch on frame[EAX] and store the answer in the
      result slot; no other word of the frame changes. `dsBase` is the
      current task's ds_base, read once before the switch; `answer` is
      what the selected service returns. */
  method SyscallManager(frame: array<int>, dsBase: int, answer: Int32) returns (c: Call)
    requires frame.Length > RESULT_SLOT
    modifies frame
    ensures c == Dispatch(old(frame[EAX]), old(frame[EBX]), old(frame[ECX]), old(frame[EDX]), dsBase)
    ensures frame[..] == old(frame[..])[RESULT_SLOT := Returned(c, answer)]
  {
    c := Dispatch(frame[EAX], frame[EBX], frame[ECX], frame[EDX], dsBase);
    var ret := Returned(c, answer);
    frame[RESULT_SLOT] := ret;
  }

  /** Calls that take no pointer do not depend on the segment base at all. */
  lemma UntranslatedIgnoresBase(eax: int, ebx: int, ecx: int, edx: int, ds1: int, ds2: int)
    requires eax in {0, 4, 5, 8, 9, 10} || !(0 <= eax <= 10)
    ensures Dispatch(eax, ebx, ecx, edx, ds1) == Dispatch(eax, ebx, ecx, edx, ds2)
  {
  }

  /** A whence register above 0xFF is cut to its low byte: 0x101 seeks
      from the current position. */
  lemma WhenceLowByte(ebx: int, ecx: int, dsBase: int)
    ensures Dispatch(5, ebx, ecx, 0x101, dsBase).args == [ebx, ecx, 1]
  {
  }

  /** An unknown call number calls nothing and hands 0 back. */
  lemma UnknownCallReturnsZero(eax: int, ebx: int, ecx: int, edx: int, dsBase: int, answer: Int32)
    requires !(0 <= eax <= 10)
    ensures var c := Dispatch(eax, ebx, ecx, edx, dsBase);
      c == Call(NoService, []) && Returned(c, answer) == 0
  {
  }
}
