/** The open-file layer over the FAT16 driver: a global table of 512 open
    files, each task's table of 32 descriptors pointing into it, and the
    open, read, write, seek and close calls. An open file keeps the whole
    file in a memory buffer; reads and writes move its position, writes
    grow it, and the buffer goes back to disk after every write. The FAT16
    calls (create, open, read, write) are not part of this model: their
    results are inputs. */
module Files {
  import opened Machine
  import Tasks

  const MAX_FILE_NUM: nat := 512
  /** Descriptors 0, 1 and 2 are standard input, output and error. */
  const FIRST_FILE_FD: nat := 3

  const O_RDONLY: int := 0
  const O_WRONLY: int := 1
  const O_RDWR: int := 2
  const O_CREAT: int := 4

  const SEEK_SET: int := 1
  const SEEK_CUR: int := 2
  const SEEK_END: int := 3

  datatype FileType = Usable | Regular | Unknown

  /** An entry of file_table. The buffer is held as the `size` bytes of
      file content it carries; the FAT16 handle is reduced to the size it
      recorded when the file was opened (`infoSize`), which is what seek
      measures against. */
  datatype OpenFile = OpenFile(kind: FileType, pos: int, size: int, openCnt: int,
                               flags: Int32, data: seq<Byte>, infoSize: int)

  /** A zero-initialised entry of the static table. */
  const Blank: OpenFile := OpenFile(Usable, 0, 0, 0, 0, [], 0)

  /** The position stays inside the buffer, and the buffer never shrinks
      below the size recorded at open. */
  ghost predicate SlotOk(f: OpenFile)
  {
    0 <= f.pos <= f.size == |f.data| && f.infoSize <= f.size
  }

  /** The flags sys_open stores: the caller's flags OR ~O_CREAT, which
      sets every bit but O_CREAT's and leaves that one as given. The
      enum-typed flags field holds the uint32_t result converted to int,
      which is -1 or -5. */
  function StoredFlags(flags: Word32): (r: Int32)
    ensures r == -1 || r == -5
    ensures r == -1 <==> (flags as bv32) & (O_CREAT as bv32) != 0
  {
    var b := (flags as bv32) | !(O_CREAT as bv32);
    assert b == 0xFFFF_FFFF || b == 0xFFFF_FFFB;
    assert b == 0xFFFF_FFFF <==> (flags as bv32) & (O_CREAT as bv32) != 0;
    ToInt32(b as int)
  }

  /** Because of the OR with ~O_CREAT, no opened file is read-only or
      write-only as far as the guards of sys_write and sys_read can tell. */
  lemma StoredFlagsNeverRestrict(flags: Word32)
    ensures StoredFlags(flags) != O_RDONLY && StoredFlags(flags) != O_WRONLY
  {
  }

  /** Index of the first free entry of the table, or |s| when there is none. */
  function FirstUsable(s: seq<OpenFile>): (r: nat)
    ensures r <= |s|
    ensures forall j :: 0 <= j < r ==> s[j].kind != Usable
    ensures r < |s| ==> s[r].kind == Usable
  {
    if |s| == 0 then 0
    else if s[0].kind == Usable then 0
    else 1 + FirstUsable(s[1..])
  }

  /** The index install_to_global answers: the first free entry, or -1 when
      the table is full or the handle copy cannot be allocated. */
  function InstallGlobalSpec(s: seq<OpenFile>, allocOk: bool): int
  {
    var i := FirstUsable(s);
    if i == |s| || !allocOk then -1 else i
  }

  /** Index of the first free descriptor at or after `from`, or |t|. */
  function FirstFreeFd(t: seq<int>, from: nat): (r: nat)
    requires from <= |t|
    ensures from <= r <= |t|
    ensures forall j :: from <= j < r ==> t[j] != -1
    ensures r < |t| ==> t[r] == -1
    decreases |t| - from
  {
    if from == |t| then from
    else if t[from] == -1 then from
    else FirstFreeFd(t, from + 1)
  }

  /** `data` with `bytes` written from `pos` on, growing it where the write
      runs past its end. */
  function Overwrite(data: seq<Byte>, pos: nat, bytes: seq<Byte>): (r: seq<Byte>)
    requires pos <= |data|
    ensures |r| == Max(|data|, pos + |bytes|)
    ensures forall k :: 0 <= k < |r| ==>
      r[k] == (if pos <= k < pos + |bytes| then bytes[k - pos] else data[k])
  {
    data[..pos] + bytes + (if pos + |bytes| < |data| then data[pos + |bytes|..] else [])
  }

  /** The entry after a write of `bytes` at its position. */
  function WriteSpec(f: OpenFile, bytes: seq<Byte>): (g: OpenFile)
    requires SlotOk(f)
    ensures SlotOk(g)
  {
    f.(pos := f.pos + |bytes|, size := Max(f.size, f.pos + |bytes|),
       data := Overwrite(f.data, f.pos, bytes))
  }

  /** The bytes a read of `count` copies out of an entry. */
  function ReadSpec(f: OpenFile, count: int): (b: seq<Byte>)
    requires SlotOk(f)
    ensures |b| == if count <= 0 then 0 else Min(count, f.size - f.pos)
    ensures forall k :: 0 <= k < |b| ==> b[k] == f.data[f.pos + k]
  {
    if count <= 0 then [] else f.data[f.pos..f.pos + Min(count, f.size - f.pos)]
  }

  /** The new position of a seek, before the range check; whence is one of
      SET, CUR, END, and END counts from the size recorded at open. */
  function SeekTarget(f: OpenFile, offset: int, whence: int): int
  {
    if whence == SEEK_SET then offset
    else if whence == SEEK_CUR then f.pos + offset
    else f.infoSize + offset
  }

  /** One step of the write loop, as sys_write takes it: grow by one byte
      when the position is at the end, then store. */
  function WriteByte(f: OpenFile, x: Byte): OpenFile
    requires SlotOk(f)
  {
    if f.pos >= f.size then f.(size := f.size + 1, data := f.data + [x], pos := f.pos + 1)
    else f.(data := f.data[f.pos := x], pos := f.pos + 1)
  }

  /** Writing one more byte extends a write by that byte. */
  lemma WriteSpecStep(f: OpenFile, bytes: seq<Byte>, x: Byte)
    requires SlotOk(f)
    ensures WriteSpec(f, bytes + [x]) == WriteByte(WriteSpec(f, bytes), x)
  {
    var g := WriteSpec(f, bytes);
    var a := WriteSpec(f, bytes + [x]).data;
    var b := WriteByte(g, x).data;
    assert |a| == |b|;
    forall k | 0 <= k < |a|
      ensures a[k] == b[k]
    {
      if k < f.pos + |bytes| {
        if f.pos <= k {
          assert (bytes + [x])[k - f.pos] == bytes[k - f.pos];
        }
      }
    }
    assert a == b;
  }

  /** A write followed by a seek back to where it started and a read of
      the same length gives back exactly what was written. */
  lemma ReadBackWritten(f: OpenFile, bytes: seq<Byte>)
    requires SlotOk(f)
    ensures var g := WriteSpec(f, bytes).(pos := f.pos);
      SlotOk(g) && ReadSpec(g, |bytes|) == bytes
  {
    var g := WriteSpec(f, bytes).(pos := f.pos);
    var r := ReadSpec(g, |bytes|);
    assert |r| == |bytes|;
    forall k | 0 <= k < |bytes|
      ensures r[k] == bytes[k]
    {
      assert r[k] == g.data[f.pos + k];
    }
  }

  /** The write leaves every byte outside the written range as it was. */
  lemma WriteKeepsRest(f: OpenFile, bytes: seq<Byte>, k: nat)
    requires SlotOk(f) && k < f.size && !(f.pos <= k < f.pos + |bytes|)
    ensures WriteSpec(f, bytes).data[k] == f.data[k]
  {
  }

  /** sys_open as written uses install_to_global's answer as an index
      without testing it: this is the entry it goes on to update. */
  function OpenedSlotAsWritten(s: seq<OpenFile>, allocOk: bool): int
  {
    InstallGlobalSpec(s, allocOk)
  }

  /** With all 512 entries in use, sys_open as written updates
      file_table[-1], outside the table. */
  lemma OpenFullTableWritesOutside(s: seq<OpenFile>)
    requires |s| == MAX_FILE_NUM
    requires forall j :: 0 <= j < |s| ==> s[j].kind == Regular
    ensures OpenedSlotAsWritten(s, true) == -1
  {
    assert FirstUsable(s) == |s|;
  }

  /** The file_table index a descriptor names, if any: the descriptor lies
      inside the task's 32 slots and its slot holds an index of the table.
      A closed slot holds -1 and names nothing. This is the test sys_write,
      sys_read, sys_close and sys_lseek evidently need before they index
      the two tables; the code as written has none. */
  function Lookup(fdTable: seq<int>, fd: int): (r: Option<nat>)
    ensures r.Some? <==> 0 <= fd < |fdTable| && 0 <= fdTable[fd] < MAX_FILE_NUM
    ensures r.Some? ==> r.value == fdTable[fd]
  {
    if 0 <= fd < |fdTable| && 0 <= fdTable[fd] < MAX_FILE_NUM then Some(fdTable[fd]) else None
  }

  /** A descriptor install_to_local hands out names the entry it was given,
      and a closed descriptor names nothing; no other descriptor is
      affected by either. */
  lemma LookupInstallClose(t: seq<int>, fd: nat, g: nat, other: int)
    requires fd < |t| && g < MAX_FILE_NUM && other != fd
    ensures Lookup(t[fd := g], fd) == Some(g)
    ensures Lookup(t[fd := -1], fd) == None
    ensures Lookup(t[fd := g], other) == Lookup(t, other) == Lookup(t[fd := -1], other)
  {
  }

  /** The file_table index sys_write, sys_read and sys_lseek use, as
      written: the descriptor's slot, read without a test. */
  function EntryAsWritten(fdTable: seq<int>, fd: nat): int
    requires fd < |fdTable|
  {
    fdTable[fd]
  }

  /** The index sys_close uses, as written: the slot read into a uint32_t. */
  function CloseEntryAsWritten(fdTable: seq<int>, fd: nat): Word32
    requires fd < |fdTable|
  {
    ToWord32(fdTable[fd])
  }

  /** Once a descriptor is closed, its slot holds -1: a later sys_write,
      sys_read or sys_lseek on it uses file_table[-1], and a second
      sys_close frees the buffers of file_table[0xFFFFFFFF], both outside
      the 512 entries, where the corrected calls refuse it. */
  lemma ClosedDescriptorIndexesOutside(t: seq<int>, fd: nat)
    requires FIRST_FILE_FD <= fd < |t|
    ensures EntryAsWritten(t[fd := -1], fd) == -1
    ensures CloseEntryAsWritten(t[fd := -1], fd) == 0xFFFF_FFFF >= MAX_FILE_NUM
    ensures Lookup(t[fd := -1], fd).None?
  {
  }

  /** The standard-input branch of sys_read: keys are taken from the queue
      while the uint32_t count read is below `count` converted to uint32_t,
      and the count read is cast back to int (-1 when it is 0). */
  method ReadKeys(count: Int32, keys: seq<Byte>) returns (r: int, got: seq<Byte>)
    requires ToWord32(count) <= |keys|
    ensures got == keys[..ToWord32(count)]
    ensures r == if count == 0 then -1 else count
  {
    var want := ToWord32(count);
    var n: Word32 := 0;
    got := [];
    while n < want
      invariant 0 <= n <= want
      invariant got == keys[..n]
    {
      got := got + [keys[n]];
      assert keys[..n + 1] == keys[..n] + [keys[n]];
      n := n + 1;
    }
    r := if n == 0 then -1 else ToInt32(n);
  }

  class FileTable {
    var files: array<OpenFile>

    ghost predicate Valid()
      reads this, files
    {
      files.Length == MAX_FILE_NUM && forall i :: 0 <= i < files.Length ==> SlotOk(files[i])
    }

    /** The static table: every entry free. */
    constructor ()
      ensures Valid() && fresh(files)
      ensures forall i :: 0 <= i < MAX_FILE_NUM ==> files[i] == Blank
    {
      files := new OpenFile[MAX_FILE_NUM](_ => Blank);
    }

    /** install_to_global: claim the first free entry as a regular file at
        position 0 with the given handle. Only that entry changes. */
    method InstallToGlobal(infoSize: nat, allocOk: bool) returns (r: int)
      requires Valid()
      modifies files
      ensures files.Length == MAX_FILE_NUM
      ensures r == InstallGlobalSpec(old(files[..]), allocOk)
      ensures r == -1 ==> files[..] == old(files[..])
      ensures r != -1 ==> 0 <= r < MAX_FILE_NUM
      ensures r != -1 ==>
        files[..] == old(files[..])[r := old(files[r]).(kind := Regular, pos := 0, infoSize := infoSize)]
    {
      var i := 0;
      while i < MAX_FILE_NUM
        invariant 0 <= i <= MAX_FILE_NUM
        invariant forall j :: 0 <= j < i ==> files[j].kind != Usable
      {
        if files[i].kind == Usable {
          break;
        }
        i := i + 1;
      }
      assert i == FirstUsable(files[..]);
      if i == MAX_FILE_NUM {
        return -1;
      }
      if !allocOk {
        return -1;
      }
      files[i] := files[i].(kind := Regular, pos := 0, infoSize := infoSize);
      return i;
    }

    /** install_to_local: put `globalFd` into the current task's first free
        descriptor from 3 on, and answer that descriptor, or -1. */
    method InstallToLocal(task: Tasks.Task, globalFd: int) returns (fd: int)
      requires task.Valid()
      modifies task.fdTable
      ensures var i := FirstFreeFd(old(task.fdTable[..]), FIRST_FILE_FD);
        if i == Tasks.MAX_FILE_OPEN_PER_TASK then fd == -1 && task.fdTable[..] == old(task.fdTable[..])
        else fd == i && task.fdTable[..] == old(task.fdTable[..])[i := globalFd]
    {
      var i := FIRST_FILE_FD;
      while i < Tasks.MAX_FILE_OPEN_PER_TASK
        invariant FIRST_FILE_FD <= i <= Tasks.MAX_FILE_OPEN_PER_TASK
        invariant forall j :: FIRST_FILE_FD <= j < i ==> task.fdTable[j] != -1
      {
        if task.fdTable[i] == -1 {
          break;
        }
        i := i + 1;
      }
      assert i == FirstFreeFd(task.fdTable[..], FIRST_FILE_FD);
      if i == Tasks.MAX_FILE_OPEN_PER_TASK {
        return -1;
      }
      task.fdTable[i] := globalFd;
      return i;
    }

    /** sys_open. `found` is the size FAT16 reports for the created or
        opened file (None when that fails), `disk` the content FAT16 reads
        into the buffer (None when that fails), `allocOk` whether the handle
        copy could be allocated. A -1 from install_to_global is answered
        with -1 here (as written, the code goes on to update entry -1). */
    method SysOpen(task: Tasks.Task, flags: Word32, found: Option<nat>, disk: Option<seq<Byte>>, allocOk: bool)
      returns (r: int)
      requires Valid() && task.Valid()
      requires found.Some? && disk.Some? ==> |disk.value| == found.value
      modifies files, task.fdTable
      ensures Valid()
      ensures found.None? ==> r == -1 && files[..] == old(files[..]) && task.fdTable[..] == old(task.fdTable[..])
      ensures found.Some? ==> var g := InstallGlobalSpec(old(files[..]), allocOk);
        if g == -1 then r == -1 && files[..] == old(files[..]) && task.fdTable[..] == old(task.fdTable[..])
        else
          && files[g].kind == Regular && files[g].pos == 0 && files[g].size == found.value
          && files[g].flags == StoredFlags(flags) && files[g].openCnt == old(files[g].openCnt) + 1
          && (forall j :: 0 <= j < MAX_FILE_NUM && j != g ==> files[j] == old(files[j]))
          && if found.value != 0 && disk.None? then
               r == -1 && task.fdTable[..] == old(task.fdTable[..])
             else
               && files[g].data == (if found.value == 0 then [] else disk.value)
               && var i := FirstFreeFd(old(task.fdTable[..]), FIRST_FILE_FD);
                  if i == Tasks.MAX_FILE_OPEN_PER_TASK then r == -1 && task.fdTable[..] == old(task.fdTable[..])
                  else r == i && task.fdTable[..] == old(task.fdTable[..])[i := g]
    {
      if found.None? {
        return -1;
      }
      var size := found.value;
      ghost var before := files[..];
      var g := InstallToGlobal(size, allocOk);
      if g == -1 {
        return -1;
      }
      var e := files[g];
      files[g] := e.(openCnt := e.openCnt + 1, size := size, flags := StoredFlags(flags),
                     data := seq(size, _ => 0));
      if size != 0 {
        if disk.None? {
          return -1;
        }
        files[g] := files[g].(data := disk.value);
      }
      r := InstallToLocal(task, g);
    }

    /** sys_write. fd 0 and below are refused; fd 1 and 2 go to the console
        (`console` is what monitor_write is given); any other descriptor
        writes len bytes of `msg` at the file's position through the file
        table. `diskStatus` is FAT16's answer when the buffer is written
        back. */
    method SysWrite(task: Tasks.Task, fd: int, msg: seq<Byte>, len: int, diskStatus: int)
      returns (r: int, console: seq<Byte>)
      requires Valid() && task.Valid()
      requires len <= |msg|
      requires fd == 1 || fd == 2 ==> 0 <= len
      modifies files
      ensures Valid()
      ensures fd <= 0 ==> r == -1 && console == [] && files[..] == old(files[..])
      ensures fd == 1 || fd == 2 ==> r == len && console == CString(msg[..len]) && files[..] == old(files[..])
      ensures fd > 2 && Lookup(task.fdTable[..], fd).None? ==> r == -1 && console == [] && files[..] == old(files[..])
      ensures fd > 2 && Lookup(task.fdTable[..], fd).Some? ==> var g := task.fdTable[fd];
        console == [] &&
        if old(files[g]).flags == O_RDONLY then r == -1 && files[..] == old(files[..])
        else
          && files[..] == old(files[..])[g := WriteSpec(old(files[g]), if len > 0 then msg[..len] else [])]
          && r == (if diskStatus == -1 then -1 else len)
    {
      console := [];
      if fd <= 0 {
        r := -1;
        return;
      }
      if fd == 1 || fd == 2 {
        console := CString(msg[..len]);
        r := len;
        return;
      }
      var lk := Lookup(task.fdTable[..], fd);
      if lk.None? {
        r := -1;
        return;
      }
      var g := lk.value;
      var f := files[g];
      if f.flags == O_RDONLY {
        r := -1;
        return;
      }
      var i := 0;
      while i < len
        invariant 0 <= i <= Max(len, 0)
        invariant SlotOk(f) && f == WriteSpec(old(files[g]), msg[..i])
        invariant files[..] == old(files[..])
      {
        WriteSpecStep(old(files[g]), msg[..i], msg[i]);
        assert msg[..i + 1] == msg[..i] + [msg[i]];
        f := WriteByte(f, msg[i]);
        i := i + 1;
      }
      if len <= 0 {
        assert msg[..i] == [];
      } else {
        assert i == len;
      }
      assert f == WriteSpec(old(files[g]), if len > 0 then msg[..len] else []);
      files[g] := f;
      assert files[..] == old(files[..])[g := f];
      if diskStatus == -1 {
        r := -1;
        return;
      }
      r := len;
    }

    /** sys_read. A negative fd, 1 and 2 are refused; fd 0 takes keys from
        the keyboard queue (`keys` is what arrives there) until the unsigned
        count read reaches `count` converted to uint32_t, so a negative
        count asks for 2^32 + count keys and the result, cast back to int,
        is count itself; any other descriptor copies up to `count` bytes
        from the file's position. `got` is what lands in the caller's
        buffer. */
    method SysRead(task: Tasks.Task, fd: int, count: Int32, keys: seq<Byte>) returns (r: int, got: seq<Byte>)
      requires Valid() && task.Valid()
      requires fd == 0 ==> ToWord32(count) <= |keys|
      modifies files
      ensures Valid()
      ensures fd < 0 || fd == 1 || fd == 2 ==> r == -1 && got == [] && files[..] == old(files[..])
      ensures fd == 0 ==> got == keys[..ToWord32(count)] && r == (if count == 0 then -1 else count)
                          && files[..] == old(files[..])
      ensures fd > 2 && Lookup(task.fdTable[..], fd).None? ==> r == -1 && got == [] && files[..] == old(files[..])
      ensures fd > 2 && Lookup(task.fdTable[..], fd).Some? ==> var g := task.fdTable[fd]; var f := old(files[g]);
        if f.flags == O_WRONLY then r == -1 && got == [] && files[..] == old(files[..])
        else
          && got == ReadSpec(f, count) && r == |got|
          && files[..] == old(files[..])[g := f.(pos := f.pos + |got|)]
    {
      got := [];
      if fd < 0 || fd == 1 || fd == 2 {
        r := -1;
        return;
      }
      if fd == 0 {
        r, got := ReadKeys(count, keys);
        return;
      }
      var lk := Lookup(task.fdTable[..], fd);
      if lk.None? {
        r := -1;
        return;
      }
      var g := lk.value;
      var f := files[g];
      if f.flags == O_WRONLY {
        r := -1;
        return;
      }
      ghost var f0 := f;
      r := 0;
      var i := 0;
      while i < count
        invariant 0 <= i <= Max(count, 0) && r == i == |got|
        invariant f == f0.(pos := f0.pos + i) && f.pos <= f.size
        invariant got == f0.data[f0.pos..f0.pos + i]
      {
        if f.pos >= f.size {
          break;
        }
        got := got + [f.data[f.pos]];
        f := f.(pos := f.pos + 1);
        r := r + 1;
        i := i + 1;
      }
      assert got == ReadSpec(f0, count);
      files[g] := f;
    }

    /** sys_close: for a descriptor above 2 that names an entry, free it and
        its table entry and answer 0; otherwise answer -1 (the code as
        written also goes on for a descriptor that names no entry). */
    method SysClose(task: Tasks.Task, fd: int) returns (r: int)
      requires Valid() && task.Valid()
      modifies files, task.fdTable
      ensures Valid()
      ensures fd <= 2 || Lookup(old(task.fdTable[..]), fd).None? ==>
        r == -1 && files[..] == old(files[..]) && task.fdTable[..] == old(task.fdTable[..])
      ensures fd > 2 && Lookup(old(task.fdTable[..]), fd).Some? ==> var g := old(task.fdTable[fd]);
        && r == 0 && task.fdTable[..] == old(task.fdTable[..])[fd := -1]
        && files[..] == old(files[..])[g := old(files[g]).(kind := Usable)]
    {
      if fd > 2 {
        var lk := Lookup(task.fdTable[..], fd);
        if lk.None? {
          return -1;
        }
        var g := lk.value;
        task.fdTable[fd] := -1;
        files[g] := files[g].(kind := Usable);
        return 0;
      }
      return -1;
    }

    /** sys_lseek: refuse descriptors below 3 and an unknown whence; move
        the position only when the target lies in [0, size - 1], counting
        size as recorded at open, and answer the new position. */
    method SysLseek(task: Tasks.Task, fd: int, offset: int, whence: Byte) returns (r: int)
      requires Valid() && task.Valid()
      modifies files
      ensures Valid()
      ensures fd < 3 || !(1 <= whence <= 3) || Lookup(task.fdTable[..], fd).None? ==>
        r == -1 && files[..] == old(files[..])
      ensures fd >= 3 && 1 <= whence <= 3 && Lookup(task.fdTable[..], fd).Some? ==>
        var g := task.fdTable[fd]; var t := SeekTarget(old(files[g]), offset, whence);
        if 0 <= t <= old(files[g]).infoSize - 1 then
          r == t && files[..] == old(files[..])[g := old(files[g]).(pos := t)]
        else r == -1 && files[..] == old(files[..])
    {
      if fd < 3 {
        return -1;
      }
      if whence < 1 || whence > 3 {
        return -1;
      }
      var lk := Lookup(task.fdTable[..], fd);
      if lk.None? {
        return -1;
      }
      var g := lk.value;
      var f := files[g];
      var size := f.infoSize;
      var newPos := 0;
      if whence == SEEK_SET {
        newPos := offset;
      } else if whence == SEEK_CUR {
        newPos := f.pos + offset;
      } else {
        newPos := size + offset;
      }
      if newPos < 0 || newPos > size - 1 {
        return -1;
      }
      files[g] := f.(pos := newPos);
      return newPos;
    }
  }
}
