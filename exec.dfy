/** Loading and growing user programs: the per-task LDT gates, the program
    break (sbrk) with its data-segment growth, the initial memory layout of
    a freshly started application, and the guard of process creation. The
    current task (task_now()) is passed in explicitly. */
module Exec {
  import opened Machine
  import opened GdtIdt
  import Tasks
  import Memory

  const KiB: nat := 1024
  const MiB: nat := 1024 * 1024
  /** Extra room added whenever sbrk has to extend the data segment. */
  const BRK_SLACK: nat := 32 * KiB
  /** 0x409A | 0x60: ring-3 code segment, 32-bit. */
  const USER_CODE_AR: Word16 := 0x40FA
  /** 0x4092 | 0x60: ring-3 data segment, 32-bit. */
  const USER_DATA_AR: Word16 := 0x40F2

  /** ldt_set_gate: the same split as gdt_set_gate, written into the
      task's own LDT; only entry num changes. */
  method LdtSetGate(task: Tasks.Task, num: nat, base: Word32, limit: Word32, ar: Word16)
    requires task.Valid() && num < Tasks.LDT_ENTRIES
    modifies task.ldt
    ensures task.ldt[..] == old(task.ldt[..])[num := EncodeSegment(base, limit, ar)]
  {
    var l, a := limit, ar;
    if l > BYTE_LIMIT_MAX {
      a := SetG(a);
      l := l / 0x1000;
    }
    task.ldt[num] := SegmentDescriptor(
      l % 0x1_0000, base % 0x1_0000, (base / 0x1_0000) % 0x100,
      a % 0x100, (l / 0x1_0000) % 0x10 + (a / 0x1000) * 0x10, (base / 0x100_0000) % 0x100);
  }

  /** The segment size expand_user_segment reads back from a descriptor:
      the 20-bit limit, times 0x1000 when G is set, plus one. */
  function ExpandDecodeSize(d: SegmentDescriptor): Word32
  {
    ((if Granular(d) then RawLimit(d) * 0x1000 else RawLimit(d)) + 1) % U32
  }

  /** The decoder takes apart what ldt_set_gate put together: the base
      comes back exactly, and for a byte-granular descriptor the size is
      limit + 1. For a page-granular one it is limit rounded down to a page
      boundary, plus one. */
  lemma ExpandDecodeInverts(base: Word32, limit: Word32, ar: Word16)
    ensures var d := EncodeSegment(base, limit, ar);
      && DecodeBase(d) == base
      && (limit <= BYTE_LIMIT_MAX && ar < AR_G ==> ExpandDecodeSize(d) == limit + 1)
      && (limit > BYTE_LIMIT_MAX ==> ExpandDecodeSize(d) == (limit / 0x1000) * 0x1000 + 1)
  {
    var d := EncodeSegment(base, limit, ar);
    BaseRoundTrip(base, limit, ar);
    SegmentFields(base, limit, ar);
    EffectiveLimitBounds(base, limit, ar);
    if limit > BYTE_LIMIT_MAX {
      var l := limit / 0x1000;
      assert RawLimit(d) == l && Granular(d);
      assert l * 0x1000 <= limit;
      NoWrap(l * 0x1000 + 1);
    } else if ar < AR_G {
      assert RawLimit(d) == limit && !Granular(d);
      NoWrap(limit + 1);
    }
  }

  /** The kmalloc request expand_user_segment makes (32-bit arithmetic). */
  function ExpandRequest(d: SegmentDescriptor, increment: Int32): Word32
  {
    (ExpandDecodeSize(d) + increment + 5) % U32
  }

  /** expand_user_segment: for a user task, allocate a block for the grown
      segment, and then, only for a non-positive increment, copy the old
      segment over, free it, and point LDT entry 1 and ds_base at the new
      block. For a positive increment it returns right after the
      allocation, so the block is leaked and the segment stays as it was. */
  method ExpandUserSegment(task: Tasks.Task, heap: Memory.Heap, increment: Int32)
    requires task.Valid() && heap.Valid()
    modifies task, task.ldt, heap, heap.man, heap.man.free
    ensures task.Valid() && heap.Valid() && heap.man == old(heap.man)
    ensures task.ldt == old(task.ldt) && task.isUser == old(task.isUser)
    ensures task.brkStart == old(task.brkStart) && task.brkEnd == old(task.brkEnd)
    ensures !old(task.isUser) ==>
      && task.ldt[..] == old(task.ldt[..]) && task.dsBase == old(task.dsBase)
      && heap.mem == old(heap.mem) && heap.man.Extents() == old(heap.man.Extents())
    ensures old(task.isUser) ==>
      var d := old(task.ldt[1]);
      var o := Memory.KMallocSpec(old(heap.mem), old(heap.man.Extents()), ExpandRequest(d, increment));
      if increment > 0 then
        && task.ldt[..] == old(task.ldt[..]) && task.dsBase == old(task.dsBase)
        && heap.mem == o.mem && heap.man.Extents() == o.exts
      else
        var size := ExpandDecodeSize(d);
        var m := Memory.CopyForward(o.mem, o.ptr, DecodeBase(d), size);
        && heap.mem == m
        && heap.man.Extents() == Memory.KFreeSpec(m, o.exts, DecodeBase(d))
        && task.ldt[..] == old(task.ldt[..])[1 := EncodeSegment(o.ptr % U32, (size + increment - 1) % U32, USER_DATA_AR)]
        && task.dsBase == o.ptr
  {
    if !task.isUser {
      return;
    }
    var d := task.ldt[1];
    var base := DecodeBase(d);
    var size := ExpandDecodeSize(d);
    ghost var o := Memory.KMallocSpec(heap.mem, heap.man.Extents(), ExpandRequest(d, increment));
    var newBase := heap.KMalloc((size + increment + 5) % U32);
    assert newBase == o.ptr && heap.mem == o.mem && heap.man.Extents() == o.exts;
    if increment > 0 {
      return;
    }
    MoveSegment(task, heap, base, size, newBase, increment);
  }

  /** The second half of expand_user_segment: copy the old segment to the
      new block, free the old block, and repoint LDT entry 1 and ds_base. */
  method MoveSegment(task: Tasks.Task, heap: Memory.Heap, base: nat, size: nat, newBase: nat, increment: Int32)
    requires task.Valid() && heap.Valid()
    modifies task, task.ldt, heap, heap.man, heap.man.free
    ensures task.Valid() && heap.Valid() && heap.man == old(heap.man)
    ensures task.ldt == old(task.ldt) && task.isUser == old(task.isUser)
    ensures task.brkStart == old(task.brkStart) && task.brkEnd == old(task.brkEnd)
    ensures var m := Memory.CopyForward(old(heap.mem), newBase, base, size);
      && heap.mem == m
      && heap.man.Extents() == Memory.KFreeSpec(m, old(heap.man.Extents()), base)
      && task.ldt[..] == old(task.ldt[..])[1 := EncodeSegment(newBase % U32, (size + increment - 1) % U32, USER_DATA_AR)]
      && task.dsBase == newBase
  {
    heap.mem := Memory.CopyForward(heap.mem, newBase, base, size);
    heap.KFree(base);
    LdtSetGate(task, 1, newBase % U32, (size + increment - 1) % U32, USER_DATA_AR);
    task.dsBase := newBase;
  }

  /** The break never passes the end of the area reserved for it. */
  ghost predicate BreakOrdered(task: Tasks.Task)
    reads task
  {
    task.brkStart <= task.brkEnd
  }

  /** The break and break end sys_sbrk leaves for a user task. Both are
      pointers, so the arithmetic is on 32 bits: the new break is
      brk_start + incr, and brk_end moves on by incr + 32 KiB exactly when
      the new break lies above it. */
  function SbrkSpec(start: Word32, end: Word32, incr: Int32): (Word32, Word32)
  {
    var next := (start + incr) % U32;
    (next, if next > end then (end + incr + BRK_SLACK) % U32 else end)
  }

  /** While nothing wraps, the break moves by exactly incr, stays at or
      below the break end, and when the end had to move it leaves at least
      the 32 KiB of slack above the new break. */
  lemma SbrkKeepsOrder(start: Word32, end: Word32, incr: Int32)
    requires start <= end && 0 <= start + incr < U32
    ensures SbrkSpec(start, end, incr).0 == start + incr
    ensures end + incr + BRK_SLACK < U32 ==> var r := SbrkSpec(start, end, incr);
      && r.0 <= r.1
      && (r.1 != end ==> r.1 == end + incr + BRK_SLACK && r.1 - r.0 >= BRK_SLACK)
  {
    NoWrap(start + incr);
    if start + incr > end && end + incr + BRK_SLACK < U32 {
      NoWrap(end + incr + BRK_SLACK);
    }
  }

  /** Without a wrap the new break can only pass the end for a positive
      incr, and then the expansion asked for is positive too. */
  lemma SbrkGrowsOnlyUp(start: Word32, end: Word32, incr: Int32)
    requires start <= end && 0 <= start + incr && incr + BRK_SLACK < 0x8000_0000
    requires (start + incr) % U32 > end
    ensures ToInt32(ToWord32(incr + BRK_SLACK)) == incr + BRK_SLACK > 0
  {
    if start + incr < U32 {
      NoWrap(start + incr);
    }
  }

  /** A shrink by more than the break wraps it: from a break at 4 MiB with
      its end 1 MiB above, sbrk(-5 MiB) leaves the break at 0xFFF00000 and,
      since that lies above the end, moves the end back to 0x7FFF, below
      the break. */
  lemma SbrkBelowZeroWraps()
    ensures SbrkSpec(4 * MiB, 5 * MiB - 1, -5 * MiB) == (0xFFF0_0000, 0x7FFF)
  {
    assert (4 * MiB - 5 * MiB) % U32 == 0xFFF0_0000;
    assert (5 * MiB - 1 - 5 * MiB + BRK_SLACK) % U32 == 0x7FFF;
  }

  /** sys_sbrk: for a user task, extend the segment by incr + 32 KiB when
      the new break would pass brk_end (the heap, LDT entry 1 and ds_base
      then change as expand_user_segment says), then return the old break
      and leave the break and its end as SbrkSpec says; for any other task
      return NULL and change nothing. */
  method SysSbrk(task: Tasks.Task, heap: Memory.Heap, incr: Int32) returns (ret: int)
    requires task.Valid() && heap.Valid()
    modifies task, task.ldt, heap, heap.man, heap.man.free
    ensures task.Valid() && heap.Valid() && heap.man == old(heap.man) && task.ldt == old(task.ldt)
    ensures task.isUser == old(task.isUser)
    ensures old(task.isUser) ==>
      ret == old(task.brkStart) && (task.brkStart, task.brkEnd) == SbrkSpec(old(task.brkStart), old(task.brkEnd), incr)
    ensures old(task.isUser) ==>
      var grow := ToInt32(ToWord32(incr + BRK_SLACK));
      var d := old(task.ldt[1]);
      var o := Memory.KMallocSpec(old(heap.mem), old(heap.man.Extents()), ExpandRequest(d, grow));
      if (old(task.brkStart) + incr) % U32 <= old(task.brkEnd) then
        && task.ldt[..] == old(task.ldt[..]) && task.dsBase == old(task.dsBase)
        && heap.mem == old(heap.mem) && heap.man.Extents() == old(heap.man.Extents())
      else if grow > 0 then
        && task.ldt[..] == old(task.ldt[..]) && task.dsBase == old(task.dsBase)
        && heap.mem == o.mem && heap.man.Extents() == o.exts
      else
        var size := ExpandDecodeSize(d);
        var m := Memory.CopyForward(o.mem, o.ptr, DecodeBase(d), size);
        && heap.mem == m
        && heap.man.Extents() == Memory.KFreeSpec(m, o.exts, DecodeBase(d))
        && task.ldt[..] == old(task.ldt[..])[1 := EncodeSegment(o.ptr % U32, (size + grow - 1) % U32, USER_DATA_AR)]
        && task.dsBase == o.ptr
    ensures !old(task.isUser) ==>
      && ret == 0 && task.brkStart == old(task.brkStart) && task.brkEnd == old(task.brkEnd)
      && task.dsBase == old(task.dsBase) && task.ldt[..] == old(task.ldt[..])
      && heap.mem == old(heap.mem) && heap.man.Extents() == old(heap.man.Extents())
    ensures old(BreakOrdered(task)) && 0 <= old(task.brkStart) + incr && incr + BRK_SLACK < 0x8000_0000 ==>
      task.ldt[..] == old(task.ldt[..]) && task.dsBase == old(task.dsBase)
  {
    if task.isUser {
      var start, end := task.brkStart, task.brkEnd;
      ghost var spec := SbrkSpec(start, end, incr);
      var next := (start + incr) % U32;
      if next > end {
        var grow := ToInt32(ToWord32(incr + BRK_SLACK));
        if start <= end && 0 <= start + incr && incr + BRK_SLACK < 0x8000_0000 {
          SbrkGrowsOnlyUp(start, end, incr);
        }
        var newEnd := (end + incr + BRK_SLACK) % U32;
        assert (next, newEnd) == spec;
        ExpandUserSegment(task, heap, grow);
        task.brkEnd := newEnd;
      } else {
        assert (next, end) == spec;
      }
      ret := start;
      task.brkStart := next;
      return;
    }
    ret := 0;
  }

  /** Stores the bytes of `b` at a, a+1, ... */
  function StoreBytes(m: Memory.Memory, a: nat, b: seq<Byte>): (r: Memory.Memory)
    ensures forall j :: a <= j < a + |b| ==> Memory.Load(r, j) == b[j - a]
    ensures forall j: nat :: (j < a || a + |b| <= j) ==> Memory.Load(r, j) == Memory.Load(m, j)
    decreases |b|
  {
    if |b| == 0 then m else StoreBytes(m[a := b[0]], a + 1, b[1..])
  }

  /** The fixed layout of a user data segment for an image of `image`
      bytes: 4 MiB above the image the break area starts, running to 5 MiB
      above it; the initial stack top sits just below the break. */
  function BreakStart(image: nat): nat { image + 4 * MiB }
  function BreakEnd(image: nat): nat { image + 5 * MiB - 1 }
  function DataLimit(image: nat): nat { image + 5 * MiB - 1 }

  /** The command-line part of app_entry: reserve |cmdline|+5 bytes with
      sbrk, copy the command line with its NUL to the old break, and store
      that offset in the word just below the stack top. */
  method PlaceCommandLine(task: Tasks.Task, heap: Memory.Heap, ds: nat, image: nat, cmdline: seq<Byte>)
    requires task.Valid() && heap.Valid() && task.isUser
    requires task.brkStart == BreakStart(image) && task.brkEnd == BreakEnd(image)
    requires DataLimit(image) < 0x8000_0000 && |cmdline| + 5 < 0x8000_0000
    modifies task, task.ldt, heap, heap.man, heap.man.free
    ensures task.Valid() && heap.Valid() && task.isUser && task.ldt == old(task.ldt)
    ensures task.brkStart == BreakStart(image) + |cmdline| + 5
    ensures |cmdline| + 5 <= MiB - 1 ==> task.brkEnd == BreakEnd(image)
    ensures CommandLineAt(heap.mem, ds + BreakStart(image), BreakStart(image), cmdline)
  {
    assert BreakOrdered(task);
    SbrkKeepsOrder(task.brkStart, task.brkEnd, |cmdline| + 5);
    var prevBrk := SysSbrk(task, heap, |cmdline| + 5);
    assert prevBrk == BreakStart(image);
    WriteCommandLine(heap, ds + prevBrk, prevBrk, cmdline);
  }

  /** Copy the command line with its NUL to a and store a's offset from
      the segment base (the old break, w) in the word just below it. */
  method WriteCommandLine(heap: Memory.Heap, a: nat, w: Word32, cmdline: seq<Byte>)
    requires heap.Valid() && a >= 4
    modifies heap
    ensures heap.Valid() && heap.man == old(heap.man)
    ensures CommandLineAt(heap.mem, a, w, cmdline)
  {
    ghost var m0 := heap.mem;
    heap.mem := StoreBytes(heap.mem, a, cmdline + [0]);
    heap.mem := Memory.StoreWord(heap.mem, a - 4, w);
    CommandLinePlaced(m0, a, w, cmdline);
  }

  /** Memory holds the command line with its NUL at a, and the word w just
      below a. */
  ghost predicate CommandLineAt(m: Memory.Memory, a: nat, w: Word32, cmdline: seq<Byte>)
    requires a >= 4
  {
    && Memory.LoadWord(m, a - 4) == w
    && (forall j :: 0 <= j < |cmdline| ==> Memory.Load(m, a + j) == cmdline[j])
    && Memory.Load(m, a + |cmdline|) == 0
  }

  /** The command line with its NUL stored at a, then a word stored just
      below a: the word reads back, and so do the command line and its NUL. */
  lemma CommandLinePlaced(m0: Memory.Memory, a: nat, w: Word32, cmdline: seq<Byte>)
    requires a >= 4
    ensures CommandLineAt(Memory.StoreWord(StoreBytes(m0, a, cmdline + [0]), a - 4, w), a, w, cmdline)
  {
    var m1 := StoreBytes(m0, a, cmdline + [0]);
    Memory.StoreLoadWord(m1, a - 4, w);
    var m := Memory.StoreWord(m1, a - 4, w);
    forall j | 0 <= j <= |cmdline|
      ensures Memory.Load(m, a + j) == (cmdline + [0])[j]
    {
      assert Memory.Load(m, a + j) == Memory.Load(m1, a + j);
    }
    forall j | 0 <= j < |cmdline|
      ensures Memory.Load(m, a + j) == cmdline[j]
    {
      assert (cmdline + [0])[j] == cmdline[j];
    }
    assert (cmdline + [0])[|cmdline|] == 0;
  }

  /** The start of app_entry's set-up: allocate the data segment, copy the
      code image into it, and mark the task a user task with its break
      area. */
  method LoadData(task: Tasks.Task, heap: Memory.Heap, code: Word32, image: nat) returns (ds: nat)
    requires task.Valid() && heap.Valid() && DataLimit(image) < 0x8000_0000
    modifies task, heap, heap.man, heap.man.free
    ensures task.Valid() && heap.Valid() && task.isUser && task.ldt == old(task.ldt)
    ensures heap.man == old(heap.man) && heap.man.free == old(heap.man.free)
    ensures task.brkStart == BreakStart(image) && task.brkEnd == BreakEnd(image)
    ensures var o := Memory.KMallocSpec(old(heap.mem), old(heap.man.Extents()), image + 5 * MiB - 5);
      ds == o.ptr && heap.mem == Memory.CopyForward(o.mem, ds, code, image)
  {
    ds := heap.KMalloc(image + 5 * MiB - 5);
    heap.mem := Memory.CopyForward(heap.mem, ds, code, image);
    task.isUser := true;
    task.brkStart := BreakStart(image);
    task.brkEnd := BreakEnd(image);
  }

  /** The set-up part of app_entry once the image is loaded: allocate the
      data segment, copy the code image into it, mark the task a user task
      with its break area, reserve the command line with sbrk and copy it
      there, push its offset on the stack, and install the two LDT gates.
      The loaded image (its address and size) is an input. Returns the
      stack pointer the application starts with. */
  method AppEntry(task: Tasks.Task, heap: Memory.Heap, code: Word32, image: nat, cmdline: seq<Byte>)
    returns (ds: nat, newEsp: int)
    requires task.Valid() && heap.Valid()
    requires 0 < image && DataLimit(image) < 0x8000_0000 && |cmdline| + 5 < 0x8000_0000
    modifies task, task.ldt, heap, heap.man, heap.man.free
    ensures task.Valid() && heap.Valid() && task.isUser && task.dsBase == ds
    ensures task.brkStart == BreakStart(image) + |cmdline| + 5
    ensures |cmdline| + 5 <= MiB - 1 ==> task.brkEnd == BreakEnd(image)
    ensures newEsp == BreakStart(image) - 8
    ensures CommandLineAt(heap.mem, ds + BreakStart(image), BreakStart(image), cmdline)
    ensures task.ldt[0] == EncodeSegment(code, image - 1, USER_CODE_AR)
    ensures task.ldt[1] == EncodeSegment(ds % U32, DataLimit(image), USER_DATA_AR)
  {
    ds := LoadData(task, heap, code, image);
    PlaceCommandLine(task, heap, ds, image, cmdline);
    newEsp := BreakStart(image) - 8;
    task.dsBase := ds;
    ghost var m2 := heap.mem;
    LdtSetGate(task, 0, code, image - 1, USER_CODE_AR);
    LdtSetGate(task, 1, ds % U32, DataLimit(image), USER_DATA_AR);
    assert heap.mem == m2;
  }

  /** Where sys_create_process leaves the new task: its stack pointer is
      lowered by 12 and the three argument words of app_entry lie just above
      it, in order, as a C call expects. */
  datatype Launch = Launch(esp: int, argSlots: seq<(int, Word32)>)

  /** sys_create_process: refuse (-1) when the program file cannot be
      opened; otherwise set up the new task's initial stack frame and
      report its pid. The open result, the new task's stack pointer and
      its pid are inputs (they come from the file system and the
      scheduler). */
  function CreateProcess(openFd: int, esp: int, pid: int, name: Word32, cmdline: Word32, workDir: Word32)
    : (r: (int, Option<Launch>))
    ensures openFd == -1 <==> r == (-1, None)
    ensures openFd != -1 ==> r.0 == pid && r.1.Some? && r.1.value.esp == esp - 12
    ensures openFd != -1 ==> var l := r.1.value;
      |l.argSlots| == 3 && (forall i :: 0 <= i < 3 ==> l.argSlots[i].0 == l.esp + 4 * (i + 1))
      && l.argSlots[0].1 == name && l.argSlots[1].1 == cmdline && l.argSlots[2].1 == workDir
  {
    if openFd == -1 then (-1, None)
    else
      var e := esp - 12;
      (pid, Some(Launch(e, [(e + 4, name), (e + 8, cmdline), (e + 12, workDir)])))
  }
}
