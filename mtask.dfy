/** The task record the kernel keeps per process (task_t): the parts of it
    that the modelled code reads or writes. The scheduler that allocates,
    switches and ends tasks is not part of this model; where the code asks
    it for something, the answer is an input. */
module Tasks {
  import opened Machine
  import GdtIdt

  const TASK_RUNNING: nat := 0
  const TASK_READY: nat := 1
  const TASK_SLEEPING: nat := 2
  const TASK_ZOMBIE: nat := 3
  const TASK_STOPPED: nat := 4

  /** Per-task file descriptor slots. */
  const MAX_FILE_OPEN_PER_TASK: nat := 32
  /** Per-task local descriptor table entries: code, then data. */
  const LDT_ENTRIES: nat := 2

  /** The TSS fields the kernel sets when it creates a task. */
  datatype Tss = Tss(esp: int, eip: int, eflags: int,
                     cs: int, ds: int, es: int, ss: int, fs: int, gs: int)

  class Task {
    var pid: Word32
    var state: nat
    var fdTable: array<int>
    var ldt: array<GdtIdt.SegmentDescriptor>
    var dsBase: int
    var isUser: bool
    /** The program break and the end of the area reserved for it, both
        32-bit pointers into the task's data segment. */
    var brkStart: Word32
    var brkEnd: Word32
    var tss: Tss

    ghost predicate Valid()
      reads this
    {
      fdTable.Length == MAX_FILE_OPEN_PER_TASK && ldt.Length == LDT_ENTRIES
    }

    /** A fresh record: every descriptor slot free (-1), a kernel task. */
    constructor (pid: Word32)
      ensures Valid() && fresh(fdTable) && fresh(ldt)
      ensures this.pid == pid && !isUser
      ensures forall k :: 0 <= k < MAX_FILE_OPEN_PER_TASK ==> fdTable[k] == -1
    {
      this.pid := pid;
      state := TASK_READY;
      fdTable := new int[MAX_FILE_OPEN_PER_TASK](_ => -1);
      ldt := new GdtIdt.SegmentDescriptor[LDT_ENTRIES](_ => GdtIdt.ZeroSegment);
      dsBase := 0;
      isUser := false;
      brkStart := 0;
      brkEnd := 0;
      tss := Tss(0, 0, 0, 0, 0, 0, 0, 0, 0);
    }
  }
}
