# MoniOS kernel core in Dafny

MoniOS is a small 32-bit x86 hobby kernel written in C, with a Python
script, `fs.py`, that turns a list of files into an assembler source
holding a read-only in-memory file system. This project models the
kernel's bookkeeping and its many small parsers, encoders and buffer
routines, and proves properties of that model:

- the first-fit free-extent heap (`kernel/memory.c`) and `kmalloc`/`kfree`/`krealloc`;
- the packing of GDT, LDT and IDT descriptors (`kernel/gdtidt.c`, `kernel/exec.c`), following section 3.4.5 (segment descriptors) and section 6.11 (IDT descriptors) of the Intel 64 and IA-32 Architectures Software Developer's Manual, Volume 3A;
- the program break, syscall dispatch and pointer translation, and interrupt dispatch (`kernel/exec.c`, `kernel/syscall.c`, `kernel/isr.c`);
- the global file table and the per-task descriptor tables (`fs/file.c`);
- the 80x25 text console and its ANSI CSI interpreter (`kernel/monitor.c`, `kernel/ansi.c`);
- the string and formatting library (`lib/string.c`, `lib/stdio.c`) and the `data()` time formatter (`lib/time.c`);
- kernel and shell line editing, tokenising and path handling (`kernel/main.c`, `apps/shell.c`, `lib/execute.c`);
- FAT32 arithmetic: entry location, masking, free-cluster search, chains, and read/write over an abstract sector store (`fs/fat32.c`), with 28-bit entries as the Microsoft FAT32 File System Specification v1.03 defines them in its section "FAT Data Structure";
- the network helpers (`drivers/net/net.c`):
  - the dotted-quad parser;
  - the Internet checksum (section 4.1 of RFC 1071);
  - the NE2000 receive-ring arithmetic;
  - the ICMP echo frame (section 3.1 of RFC 791 and the Echo message of RFC 792);
- ACPI table parsing for power-off and reboot (`lib/shutdown.c`):
  - `\_S5` extraction (section 7.4.2 of the ACPI Specification);
  - PkgLength skipping (section 20.2.4);
  - the MADT walk (section 5.2.12);
- the smaller drivers:
  - the keyboard scan-code decoder;
  - VGA mode 13h drawing;
  - the two SB16 players;
  - the AC'97 PCI probe and buffer-descriptor list (PCI configuration addresses as section 3.2.2.3.2 of the PCI Local Bus Specification 3.0 defines them);
  - the PIT divisor and tick wait;
  - the CMOS clock with its UTC+8 correction;
  - the READ (10) command block of the USB mass-storage read (SCSI Block Commands, SBC-3);
- the escaping and label generation of `fs.py`.

There is one Dafny module per source file. `Machine` (`machine.dfy`) holds the shared
fixed-width integer types, `Option`/`Result` and the C-string view.
`Tasks` (`mtask.dfy`) holds the task record of `include/drivers/mtask.h`.

Conventions of the model:

- Objects the C code updates in place are classes whose methods are proved against specification functions:
  - the extent table;
  - the descriptor tables;
  - the file tables;
  - the console;
  - the FAT32 volume;
  - the devices' statics.
- Pure logic is functions and lemmas.
- Writes to I/O ports are recorded as a trace of `Outb`/`Outw`/`Outl` events.
- The answers hardware, firmware and unseen code give are parameters of the model:
  - port reads;
  - the disk;
  - the BIOS call;
  - the scheduler;
  - `fat16_*`;
  - the keymap;
  - the OHCI bulk transfer.
- C integer widths are explicit in most places where the model computes with them: 32-bit wrap-around is written as `% U32`, and signed values use `Int32`. The exceptions are listed under "## Left out": the free-extent arithmetic of the heap, the ANSI parameter array and the tick counter.

Where the code departs from the system's design, the model follows the
code. Four examples:

- `memcpy` returns its source pointer.
- `sys_open` stores `flags | ~O_CREAT`.
- The cursor letters C and D move the cursor the opposite way from ECMA-48.
- `isr_handler` ends the current task with -1 for every CPU exception.
Each place where the code looks unintended has a row under "## Findings".
Each such row has two Dafny halves: the behaviour as written, and the
corrected behaviour the rest of the model uses.

Specification functions without a contract of their own (such as
Memory.FreeSpec and Memory.End) are described by the rows of the lemmas
and methods that state their properties; helper lemmas that only
regroup an expression (such as TimeFormat.Regroup) have no row.

## Model

| member | source | states |
|---|---|---|
| StringLib.MemCmpSpec | lib/string.c:18-27 | memcmp of equal-length byte strings is -1, 0 or 1, and 0 exactly when they are equal |
| StringLib.MemCmpSkip | lib/string.c:22-25 | memcmp is decided by the first differing byte, read as a signed char: 1 if it is larger in the first operand, -1 otherwise |
| StringLib.Memcmp | lib/string.c:18-27 | the loop returns the specification's answer over the first `size` bytes |
| StringLib.StrCmpSpec | lib/string.c:56-60 | strcmp is -1, 0 or 1 |
| StringLib.StrCmpZeroIff | lib/string.c:56-60 | strcmp returns 0 exactly when both C strings hold the same text |
| StringLib.StrCmpAntisymmetric | lib/string.c:56-60 | swapping the operands of strcmp flips the sign of its result |
| StringLib.Strcmp | lib/string.c:56-60 | the loop returns the specification's answer, which is 0 exactly when the strings are equal |
| StringLib.StrChrFindsFirst | lib/string.c:62-69 | strchr finds the first matching byte before the terminator, never the terminator itself, and finds nothing only when no byte of the string matches |
| StringLib.StrChrMissesHighBytes | lib/string.c:62-69 | a byte of 0x80 or more is never found, since the string's bytes are signed chars and the argument is unsigned |
| StringLib.StrChrStep | lib/string.c:64-67 | one step of the scan: the answer is either the current index or the answer for the rest of the string |
| StringLib.Strchr | lib/string.c:62-69 | the loop returns the specification's answer |
| StringLib.StrNCpySpec | lib/string.c:36-47 | strncpy yields exactly n bytes: the string and NUL padding when it is shorter than n, otherwise its first n bytes |
| StringLib.StrNCpyTerminates | lib/string.c:36-47 | the result of strncpy is terminated exactly when the source is shorter than n, and then it reads back as the source |
| StringLib.CStringOfPrefix | lib/string.c:49-54 | a NUL-free text followed by a NUL is read as exactly that text |
| StringLib.Memset | lib/string.c:3-8 | exactly the first `size` bytes become `value`, the rest are unchanged, and dst is returned |
| StringLib.Memcpy | lib/string.c:10-16 | the first `size` bytes of the destination become the old first `size` bytes of the source (a copy onto itself included), the rest are unchanged, and the SOURCE pointer is returned, as written |
| StringLib.Strlen | lib/string.c:49-54 | the result is the index of the first NUL, i.e. the length of the C string |
| StringLib.Strcpy | lib/string.c:29-34 | the string and its terminator are copied, nothing past them changes, and dst is returned |
| StringLib.Strncpy | lib/string.c:36-47 | exactly n bytes are written, equal to the strncpy specification; nothing past them changes |
| StringLib.PadZeros | lib/string.c:42 | the padding loop fills with zeros up to n and touches nothing beyond |
| Stdio.Take | lib/stdio.c:34 | cutting a text at n keeps its first min(n, length) bytes |
| Stdio.TakeConcat | lib/stdio.c:34 | cutting a joined text at n keeps the whole first part and cuts the second at what is left |
| Stdio.Digits | lib/stdio.c:94-104 | itoa's digits are at least one, each below the radix, with no leading zero, and are "0" exactly for 0 |
| Stdio.DigitsValue | lib/stdio.c:94-104 | the digits itoa writes read back as the number (their partner) |
| Stdio.PutPut | lib/stdio.c:98-103 | two adjacent stores are one store of the joined bytes |
| Stdio.Itoa | lib/stdio.c:94-104 | itoa stores the radix digits at the write pointer and leaves the pointer just past them |
| Stdio.SnDecimal | lib/stdio.c:38-59 | `%d` of snprintf as intended: a minus for negatives, then the digits of the magnitude |
| Stdio.SnDecimalValue | lib/stdio.c:38-59 | what `%d` prints after its sign reads back as the magnitude of the argument |
| Stdio.SnDecimalAsWrittenIntMin | lib/stdio.c:43-52 | as written, `%d` of INT_MIN prints "-(" (the negation overflows and the remainder is -8), not the intended "-2147483648" |
| Stdio.CDecimalDigitsAgree | lib/stdio.c:49-52 | for every non-negative int the do-while loop produces the intended digits |
| Stdio.SnDecimalAsWrittenAgrees | lib/stdio.c:38-59 | for every int but INT_MIN the written `%d` is the intended one |
| Stdio.TakeSplit | lib/stdio.c:34 | the cut of a piece followed by a rest is the cut piece and, when the piece fits, the cut rest |
| Stdio.SnStep | lib/stdio.c:34 | after one piece is copied, what is written plus the cut rest is still the cut of the whole text |
| Stdio.Emit | lib/stdio.c:54-57 | a copying loop of snprintf stores as many bytes of its piece as fit below the cap, and nothing else |
| Stdio.SnLiteralAt | lib/stdio.c:82-85 | a literal byte of the format renders as itself, before the rest |
| Stdio.SnConversionAt | lib/stdio.c:35-81 | a conversion renders as its piece, before the rest of the format with the remaining arguments |
| Stdio.SnTurn | lib/stdio.c:34-87 | one turn of snprintf's loop keeps "written bytes + cut remaining text = cut whole text" and changes nothing past the count |
| Stdio.SnCopy | lib/stdio.c:54-85 | copying one piece keeps the same bound as SnTurn |
| Stdio.Snprintf | lib/stdio.c:28-92 | snprintf writes the untruncated text cut at size-1 bytes, then a NUL, and returns the number of bytes written |
| Stdio.VsStore | lib/stdio.c:120-143 | a conversion of vsprintf stores its piece, and for `%s` also the terminator strcpy copies |
| Stdio.VsWrite | lib/stdio.c:106-147 | the buffer vsprintf leaves keeps its length |
| Stdio.ShapeCompose | lib/stdio.c:113-145 | a piece (perhaps with a NUL after it) followed by the rest gives the piece followed by the rest |
| Stdio.VsWriteShape | lib/stdio.c:106-147 | vsprintf leaves the produced bytes from the start on, then a NUL or the old byte, and the rest of the buffer as it was |
| Stdio.VsHexValue | lib/stdio.c:129-132 | the `%x` digits read back as the argument's unsigned bits |
| Stdio.VsDecimalValue | lib/stdio.c:133-140 | the `%d` text reads back as the argument: a minus and the magnitude for negatives |
| Stdio.VsprintfLengthOnZeroedBuffer | lib/stdio.c:146-164 | on a zeroed buffer, as vprintf passes one, vsprintf's result is the number of bytes produced |
| Stdio.PutBytes | lib/stdio.c:115 | a byte-by-byte store is the store of the whole piece |
| Stdio.VsConvert | lib/stdio.c:120-143 | one conversion stores its bytes and leaves the pointer past the piece (on the terminator after `%s`) |
| Stdio.PutNegative | lib/stdio.c:133-139 | `%d` of a negative argument stores '-' and then the decimal digits of its magnitude, and leaves the pointer past them |
| Stdio.VsWriteLiteral | lib/stdio.c:114-118 | one literal step of vsprintf: the byte is produced and stored |
| Stdio.VsWriteConversion | lib/stdio.c:119-144 | one conversion step of vsprintf: its piece is produced and stored, and the format and arguments left still fit |
| Stdio.VsLiteralAt | lib/stdio.c:114-118 | the literal step at any position of the format |
| Stdio.VsConversionAt | lib/stdio.c:119-144 | the conversion step at any position: the remaining format and arguments fit, and the output is the piece then the rest |
| Stdio.VsConversionWrite | lib/stdio.c:119-144 | writing the conversion and then the rest of the format is the write of the whole format from that position |
| Stdio.VsWriteTerminated | lib/stdio.c:146 | the buffer after vsprintf holds a C string when the bytes past the produced text held one |
| Stdio.VsStep | lib/stdio.c:113-145 | one turn of vsprintf's loop keeps the rest of the write equal to the write of the rest of the format |
| Stdio.VsLiteralStep | lib/stdio.c:114-118 | the literal turn keeps the same invariant |
| Stdio.VsConversionStep | lib/stdio.c:119-144 | the conversion turn keeps the same invariant |
| Stdio.Vsprintf | lib/stdio.c:106-156 | vsprintf leaves the specified buffer and returns the strlen of it; sprintf is this on its own arguments |
| Stdio.PutExtend | lib/stdio.c:10 | one more byte right after a stored piece extends the piece |
| Stdio.CopyString | lib/stdio.c:10-11 | strcat's copying loop stores the source string and its terminator |
| Stdio.NoNulConcat | lib/stdio.c:7-13 | two NUL-free texts joined have no NUL |
| Stdio.StrcatShape | lib/stdio.c:7-13 | strcat leaves the old text, the source text, a NUL and the rest as it was, so the string is the concatenation |
| Stdio.Strcat | lib/stdio.c:7-13 | strcat appends the source text after dest's text, terminates it, changes nothing beyond and returns dest |
| Stdio.Strrchr | lib/stdio.c:16-25 | strrchr finds the last matching byte before the terminator, and none only when no byte matches |
| Memory.FirstFit | kernel/memory.c:83-84 | the first-fit index: every earlier extent is too small and the one found (if any) is large enough |
| Memory.FirstAbove | kernel/memory.c:103-107 | the slot memman_free finds: every earlier extent starts at or below addr, the one found above it |
| Memory.FirstAboveIs | kernel/memory.c:103-107 | any index that splits the table that way is the one the scan finds |
| Memory.SumSizesConcat | kernel/memory.c:73-78 | the free total of joined tables is the sum of their totals |
| Memory.SumSizesSplice | kernel/memory.c:73-78 | replacing a window of the table changes the total by the difference of the window sums |
| Memory.SumSizesOne | kernel/memory.c:73-78 | the total of one extent is its size |
| Memory.SumSizesTwo | kernel/memory.c:73-78 | the total of two extents is the sum of their sizes |
| Memory.AllocTotal | kernel/memory.c:80-98 | a successful allocation of n lowers the free total by exactly n; a failed one returns 0 and leaves the table unchanged |
| Memory.FreeTotal | kernel/memory.c:100-146 | a successful release of n raises the free total by exactly n; a failed one (-1) leaves the table unchanged |
| Memory.SpliceTotal | kernel/memory.c:108-142 | replacing up to two extents by one changes the total by the size difference |
| Memory.WindowSum | kernel/memory.c:108-142 | the total of a window of at most two extents is their size sum |
| Memory.FreeFails | kernel/memory.c:136-145 | memman_free fails exactly when neither neighbour touches the range and the table holds MEMMAN_FREES extents |
| Memory.WellFormedRemove | kernel/memory.c:88-92 | dropping an extent keeps the table sorted with no two extents touching |
| Memory.WellFormedInsert | kernel/memory.c:138-141 | inserting a non-empty extent with a gap on both sides keeps the table well formed |
| Memory.WellFormedReplace | kernel/memory.c:86-131 | growing or shrinking one extent within its neighbours' gaps keeps the table well formed |
| Memory.AllocWellFormed | kernel/memory.c:80-98 | allocation keeps the table well formed |
| Memory.FreeWellFormed | kernel/memory.c:100-146 | releasing a non-empty range that overlaps no free extent keeps the table well formed |
| Memory.FreeWellFormedMergeBoth | kernel/memory.c:113-120 | merging the range with both neighbours keeps the table well formed |
| Memory.AllocFreeRoundTrip | kernel/memory.c:80-146 | on a well-formed table, releasing the block a successful allocation of n > 0 returned restores exactly the previous table |
| Memory.BeforeK | kernel/memory.c:104-106 | in a well-formed table every extent before index k ends before extent k begins |
| Memory.RoundTripDrained | kernel/memory.c:88-133 | releasing a fully drained extent restores it |
| Memory.RoundTripShrunk | kernel/memory.c:86-133 | releasing the front cut from an extent merges it back |
| Memory.FreeInsertsSorted | kernel/memory.c:136-142 | with no merge possible and room in the table, the range is inserted at its sorted position |
| Memory.MemMan.constructor | kernel/memory.c:68-71 | memman_init: an empty table |
| Memory.MemMan.Total | kernel/memory.c:73-78 | memman_total returns the sum of the live extents' sizes |
| Memory.MemMan.RemoveAt | kernel/memory.c:89-92 | the shift-left loop drops entry i and moves the later entries down |
| Memory.MemMan.InsertAt | kernel/memory.c:138-141 | the shift-right loop and store insert the extent at index i |
| Memory.MemMan.Alloc | kernel/memory.c:80-98 | memman_alloc (scan bounded by the live entries) returns the first-fit address and leaves the first-fit table |
| Memory.MemMan.MergeBoth | kernel/memory.c:113-120 | entry i-1 absorbs the range and entry i, and entry i goes |
| Memory.MemMan.Above | kernel/memory.c:103-107 | the scan of memman_free returns the first entry above addr |
| Memory.MemMan.Free | kernel/memory.c:100-146 | memman_free returns the specified status and leaves the specified table |
| Memory.AllocAsWritten | kernel/memory.c:80-98 | the scan as written, over live and stale entries, keeps the table's capacity |
| Memory.AllocAsWrittenDoubleAllocates | kernel/memory.c:83 | a reachable sequence of three allocations on which the scan as written hands out an address that is already in use, where first fit returns 0 |
| Memory.ZeroFill | kernel/memory.c:153 | memset of n zero bytes clears exactly that window of memory |
| Memory.StoreLoadWord | kernel/memory.c:156-168 | the size word kmalloc stores is the one kfree loads, and no other byte changes |
| Memory.WordBytes | kernel/memory.c:156 | a 32-bit word is the weighted sum of its four bytes |
| Memory.CopyForwardDisjoint | kernel/memory.c:186 | a copy between non-overlapping blocks moves the source bytes and leaves every other byte alone |
| Memory.KMallocBlock | kernel/memory.c:148-160 | a successful kmalloc returns a block 16 bytes into a first-fit extent of size+16, with the size in its header word, a zeroed body, and the free total lowered by size+16 |
| Memory.KMallocFailureClearsLowMemory | kernel/memory.c:152-159 | a failed kmalloc returns NULL and still zeroes size+16 bytes at address 0 |
| Memory.KMallocKFree | kernel/memory.c:148-174 | kfree of what kmalloc returned restores the free table it started from |
| Memory.KFreeNull | kernel/memory.c:162-174 | kfree(NULL) releases the 16 bytes at address 0 |
| Memory.KReallocCopies | kernel/memory.c:176-189 | when both blocks are real and apart, krealloc copies the first `size` bytes of the old block into the new one |
| Memory.Heap.constructor | kernel/memory.c:191-199 | init_memory: the empty table, then memtotal-0x400000 bytes (32-bit difference) released at 0x400000 |
| Memory.Heap.KMalloc | kernel/memory.c:148-160 | the heap's memory and table after kmalloc are the specified ones |
| Memory.Heap.KFree | kernel/memory.c:162-174 | the table after kfree is the specified one |
| Memory.Heap.KRealloc | kernel/memory.c:176-189 | the heap's memory and table after krealloc are the specified ones |
| GdtIdt.SetG | kernel/gdtidt.c:17 | `ar \|= 0x8000` sets bit 15 and keeps the lower 15 bits |
| GdtIdt.BaseRoundTrip | kernel/gdtidt.c:20-22 | the segment base survives its split into three descriptor fields |
| GdtIdt.GranularityChoice | kernel/gdtidt.c:16-19 | G is set and the limit divided by 0x1000 exactly when the limit exceeds 20 bits, so the stored limit always fits 20 bits |
| GdtIdt.SegmentFields | kernel/gdtidt.c:23-25 | limit_low holds bits 0-15 of the stored limit, limit_high its bits 16-19 and bits 12-15 of ar, access_right the low byte of ar; the limit and rights read back |
| GdtIdt.NibblePair | kernel/gdtidt.c:24 | a byte built from two nibbles gives them back |
| GdtIdt.LimitSplit | kernel/gdtidt.c:23-24 | a 20-bit limit is its low 16 bits plus its top nibble |
| GdtIdt.RightsSplit | kernel/gdtidt.c:24-25 | a 16-bit rights value is its low byte, bits 8-11 and bits 12-15 |
| GdtIdt.EffectiveLimitBounds | kernel/gdtidt.c:14-26 | with G chosen the processor's limit covers the requested one and overshoots it by less than a page; otherwise it is exact when the caller did not set G |
| GdtIdt.GateRoundTrip | kernel/gdtidt.c:49-56 | the handler offset survives its split; selector and flags are stored as given and the reserved byte is 0 |
| GdtIdt.NullSegment | kernel/gdtidt.c:35 | the null descriptor is all zero |
| GdtIdt.FlatBootSegments | kernel/gdtidt.c:36-41 | the four boot segments start at 0, span 4 GiB with page granularity and keep their access byte |
| GdtIdt.Gdt.constructor | kernel/gdtidt.c:9 | the static table starts zeroed |
| GdtIdt.Gdt.SetGate | kernel/gdtidt.c:14-26 | entry num becomes the encoded descriptor and no other entry changes |
| GdtIdt.Gdt.Init | kernel/gdtidt.c:28-45 | entry 0 is null, entries 1-4 the flat boot segments, the rest unchanged |
| GdtIdt.Idt.constructor | kernel/gdtidt.c:11 | the static interrupt table starts with all 256 entries zero |
| GdtIdt.Idt.SetGate | kernel/gdtidt.c:49-56 | entry num becomes the encoded gate and no other entry changes |
| GdtIdt.Idt.Init | kernel/gdtidt.c:76-83 | vectors 0-47 get the 48 stubs as kernel interrupt gates, vector 0x80 the system-call gate, every other entry is zero |
| Exec.LdtSetGate | kernel/exec.c:7-23 | the task's LDT entry num becomes the descriptor gdt_set_gate would build, and no other entry changes |
| Exec.ExpandDecodeInverts | kernel/exec.c:31-34 | the decoder of expand_user_segment undoes ldt_set_gate: the base comes back, and the size is limit+1 (page-rounded when G was chosen) |
| Exec.ExpandUserSegment | kernel/exec.c:25-44 | nothing happens for a kernel task; for a user task a block is allocated, and only for a non-positive increment is the segment copied, freed and repointed, so a positive increment leaks the block and keeps the segment |
| Exec.MoveSegment | kernel/exec.c:38-43 | the old segment is copied to the new block, the old block freed, LDT entry 1 rebuilt over the new block, and ds_base updated |
| Exec.SysSbrk | kernel/exec.c:46-59 | a user task gets the old break; the break becomes brk_start+incr and, when that passes brk_end, brk_end becomes brk_end+incr+32 KiB, both as 32-bit pointers (SbrkSpec); when it passes, the heap, LDT entry 1 and ds_base change as expand_user_segment does for incr+32 KiB (a kmalloc, and a move only when that sum wraps to a non-positive int), otherwise they stay; with an ordered break that does not wrap the segment is kept; any other task gets NULL and nothing changes |
| Exec.SbrkKeepsOrder | kernel/exec.c:46-59 | while nothing wraps, the break moves by exactly incr and stays at or below brk_end, and a moved brk_end lies incr+32 KiB above the old one and at least 32 KiB above the break |
| Exec.SbrkBelowZeroWraps | kernel/exec.c:46-59 | a shrink past address 0 wraps: from a break at 4 MiB with its end 1 MiB above, sbrk(-5 MiB) leaves the break at 0xFFF00000 and moves brk_end to 0x7FFF, below the break |
| Exec.StoreBytes | kernel/exec.c:82 | storing a byte string writes exactly that window of memory |
| Exec.PlaceCommandLine | kernel/exec.c:80-84 | the command line and its NUL sit at the old break (taken with sbrk), and the word below the stack top holds that offset |
| Exec.WriteCommandLine | kernel/exec.c:82-83 | strcpy and the stack store leave the command line and its NUL at the given address and the given word just below it |
| Exec.CommandLinePlaced | kernel/exec.c:82-83 | storing the string with its NUL and then a word four bytes below keeps all of them readable |
| Exec.LoadData | kernel/exec.c:72-77 | the data segment is one block of image+5 MiB-5 bytes from kmalloc, the image is copied to its start, the task becomes a user task, and the break area is set to image+4 MiB up to image+5 MiB-1 |
| Exec.AppEntry | kernel/exec.c:72-88 | after set-up the task is a user task with the break area after the image, the command line placed, the stack pointer 8 below the break start, and both LDT gates built over code and data |
| Exec.CreateProcess | kernel/exec.c:92-104 | -1 exactly when the program cannot be opened; otherwise the new task's stack holds the name, command line and directory in three slots above esp-12, and its pid is returned |
| Syscall.Dispatch | kernel/syscall.c:9-43 | call numbers 0-10 select their service with the right number of register arguments; pointer arguments, and only those, are offset by ds_base; the whence of sys_lseek is cut to its low byte and the flags of sys_open read as unsigned, as their `uint8_t` and `uint32_t` parameters convert them; every other register is passed as the int it holds |
| Syscall.WhenceLowByte | kernel/syscall.c:25-27 | a whence register of 0x101 reaches sys_lseek as 1, a seek from the current position |
| Syscall.SyscallManager | kernel/syscall.c:5-46 | the dispatched call is the specified one, and the service's answer lands in the saved-eax slot while every other word of the frame stays |
| Syscall.UntranslatedIgnoresBase | kernel/syscall.c:9-43 | a call that takes no pointer does not depend on ds_base |
| Syscall.UnknownCallReturnsZero | kernel/syscall.c:8-45 | an unknown call number calls nothing and returns 0 |
| Isr.IrqEvents | kernel/isr.c:16-26 | the slave EOI goes out exactly for vectors from 0x28, the master EOI always, and the registered handler is called exactly when one is set, after both EOIs |
| Isr.Interrupts.constructor | kernel/isr.c:5 | the static handler table starts all NULL |
| Isr.Interrupts.Register | kernel/isr.c:28-31 | slot n, and only slot n, holds the handler |
| Isr.Interrupts.IrqHandler | kernel/isr.c:16-26 | irq_handler appends the specified events and leaves the table unchanged |
| Isr.Interrupts.IsrHandler | kernel/isr.c:7-14 | any exception ends the current task with -1 |
| Isr.RegisterThenDispatch | kernel/isr.c:16-31 | after registering h at n an interrupt on n calls h, and one on any other vector calls what was there before |
| Files.StoredFlags | fs/file.c:51 | the stored flags are the caller's OR ~O_CREAT, which as the int the enum field holds is -1 or -5, and -1 exactly when O_CREAT was given |
| Files.StoredFlagsNeverRestrict | fs/file.c:51-113 | no opened file ever looks read-only or write-only to the guards of sys_write and sys_read |
| Files.FirstUsable | fs/file.c:13-15 | the first free table entry: all earlier ones are in use |
| Files.FirstFreeFd | fs/file.c:30-32 | the first free descriptor from 3 on: all earlier ones are taken |
| Files.Overwrite | fs/file.c:78-88 | a write overwrites the bytes from pos on, growing the content past its end, and keeps every other byte |
| Files.WriteSpec | fs/file.c:78-88 | the entry after a write is still consistent |
| Files.ReadSpec | fs/file.c:115-122 | a read copies min(count, size-pos) bytes from the position on |
| Files.WriteSpecStep | fs/file.c:78-88 | each turn of the write loop extends the write by one byte |
| Files.ReadBackWritten | fs/file.c:64-124 | after a write, putting the position back where the write started and reading the same length return exactly the written bytes |
| Files.WriteKeepsRest | fs/file.c:78-88 | bytes outside the written range are unchanged |
| Files.OpenFullTableWritesOutside | fs/file.c:16-52 | with all 512 entries in use, install_to_global gives -1 and sys_open as written goes on to update file_table[-1] |
| Files.FileTable.constructor | fs/file.c:8 | the static table starts with every entry free |
| Files.FileTable.InstallToGlobal | fs/file.c:10-24 | the first free entry becomes a regular file at position 0, or -1 when none is free or the handle cannot be allocated; only that entry changes |
| Files.FileTable.InstallToLocal | fs/file.c:26-36 | the first free descriptor from 3 on gets the table index and is returned, or -1 and nothing changes |
| Files.FileTable.SysOpen | fs/file.c:38-62 | -1 when FAT16 fails or no entry is free; otherwise the claimed entry records size, stored flags and one more open, the content is read in (or -1 when that read fails), and the descriptor from install_to_local is returned |
| Files.FileTable.SysWrite | fs/file.c:64-92 | fd <= 0 is refused; fd 1 and 2 print to the console and return len; a descriptor naming no open entry gives -1 and nothing changes; an open read-only file gives -1; otherwise len bytes are written at the position and len returned (-1 when the disk write fails) |
| Files.FileTable.SysRead | fs/file.c:94-124 | negative fds, 1 and 2 are refused; fd 0 takes count keys, count taken as unsigned (-1 for none); a descriptor naming no open entry gives -1; a write-only file gives -1; otherwise the specified bytes are copied and the position advances |
| Files.FileTable.SysClose | fs/file.c:126-140 | a descriptor above 2 that names an open entry is freed with that entry and 0 is returned; any other descriptor gives -1 and nothing changes |
| Files.FileTable.SysLseek | fs/file.c:142-165 | fds below 3, descriptors naming no open entry and an unknown whence are refused; otherwise the position moves exactly when the target lies in [0, size-1] of the size recorded at open |
| Files.Lookup | fs/file.c:75-147 | a descriptor names an entry exactly when it indexes the descriptor table and its value indexes the file table, and then it names that value |
| Files.LookupInstallClose | fs/file.c:26-136 | after installing g at fd the descriptor names g, after closing it names nothing, and no other descriptor changes either way |
| Files.ClosedDescriptorIndexesOutside | fs/file.c:111-133 | after close(fd) the entry is -1, so a later read or write as written indexes file_table[-1] and a second close file_table[0xFFFFFFFF], both outside the 512 entries |
| Files.ReadKeys | fs/file.c:98-108 | the key loop takes count keys with count compared as unsigned, and gives -1 when count is 0 and count otherwise |
| KernelMain.SelectorTable | kernel/main.c:23-90 | ring 0, 1 and 3 get their own code and data selectors (GDT entries 1-2, 3-4, 5-6; RPL 0 for ring 0, 3 otherwise), any other level is treated as ring 0, and each data selector is the entry after its code selector |
| KernelMain.CreateKernelTask | kernel/main.c:50-105 | no task slot: NULL and nothing changes; no stack: the slot goes back to the scheduler and NULL; otherwise the TSS gets the stack top, the entry, the ring's selectors and eflags 0x202 |
| KernelMain.EditLine | kernel/main.c:115-158 | the edited line never exceeds max_len-1 bytes and uses no more reads than there were |
| KernelMain.EditLinePrintable | kernel/main.c:146-152 | the edited line holds only printable bytes (32-126) |
| KernelMain.ReadCommandLine | kernel/main.c:115-158 | once the edit ends the buffer holds the edited text as a NUL-terminated string |
| KernelMain.LineReadsBack | kernel/main.c:127-157 | a printable text followed by a NUL reads back as that text |
| KernelMain.Skip | kernel/main.c:173 | the delimiter skip stops on a non-delimiter byte inside the string |
| KernelMain.LenFromEnds | kernel/main.c:188-200 | strlen from a token ends at the first NUL |
| KernelMain.FindInside | kernel/main.c:182-195 | what strchr finds lies inside the token's string and is not its NUL; none means no byte matches |
| KernelMain.Resume | kernel/main.c:183-201 | after a token the scan resumes inside the buffer before a NUL, whether the end byte was found or not |
| KernelMain.CutsCompose | kernel/main.c:184-197 | two rounds of cutting delimiters and quotes to NUL are one |
| KernelMain.ParseFromShape | kernel/main.c:160-208 | parse_command only turns delimiters and quotes into NULs, keeps fewer than 32 arguments, and each starts inside the buffer after the previous one |
| KernelMain.ParseTokenShape | kernel/main.c:177-204 | the same shape after a token |
| KernelMain.CutShape | kernel/main.c:183-198 | the same shape after a token ended by a cut |
| KernelMain.RunShape | kernel/main.c:186-201 | the same shape after a token that runs to the end |
| KernelMain.ShapeExtends | kernel/main.c:171-205 | the shape after one more token is the shape from before it |
| KernelMain.Slots | kernel/main.c:167-169 | argv holds exactly 32 slots |
| KernelMain.SkipDelims | kernel/main.c:173 | the loop computes the delimiter skip |
| KernelMain.FindFrom | kernel/main.c:182-195 | the call computes strchr from the token |
| KernelMain.LenAt | kernel/main.c:188-200 | the call computes strlen from the token |
| KernelMain.TokenEndsAt | kernel/main.c:183-198 | a token ended by the byte e is followed by parsing from e+1 with that byte cut |
| KernelMain.TokenRunsOut | kernel/main.c:186-201 | a token that runs out is followed by parsing from the string's end |
| KernelMain.TakeToken | kernel/main.c:177-204 | one loop body records the token start in argv and leaves the rest of the parse as specified |
| KernelMain.CutToken | kernel/main.c:182-201 | ending a token at the first c, or letting it run to the NUL, leaves the parse that follows equal to the specified one for the token |
| KernelMain.TokenCut | kernel/main.c:183-198 | for the buffer the cut leaves, parsing on from after the cut is the specified parse for the token |
| KernelMain.ClearArgs | kernel/main.c:167-169 | the 32 argv slots become NULL, nothing past them changes |
| KernelMain.ParseFromTokens | kernel/main.c:160-208 | from any token index, the parse keeps the bytes before it, records as many arguments of the remaining text as argv has room for, and each recorded start reads back, as a C string of the cut buffer, as its argument: the run up to the next delimiter, or after a quote the run up to the next quote |
| KernelMain.ParseCommandTokens | kernel/main.c:160-208 | argc is the number of arguments of the line, capped at 31, and argv[k] reads back as the k-th argument of the line |
| KernelMain.TokensDrop | kernel/main.c:173-176 | delimiters in front of the line do not change its arguments |
| KernelMain.ParseCommand | kernel/main.c:160-208 | the buffer, argc and argv after parse_command are exactly as specified from the first byte |
| Tasks.Task.constructor | include/drivers/mtask.h:28-45 | a fresh task record: every descriptor free (-1), a kernel task |
| Console.CellDecodes | kernel/monitor.c:101-147 | a video cell reads back as its character (low byte) and attribute (high byte) |
| Console.BlankRow | kernel/monitor.c:113 | a blank row is 80 cells |
| Console.Advance | kernel/monitor.c:125-149 | one character keeps the grid size and the attribute and moves the cursor at most one column or row past the grid |
| Console.PutSpec | kernel/monitor.c:118-159 | after monitor_put the cursor is back on the 80x25 grid and the attribute is unchanged |
| Console.PutAll | kernel/monitor.c:161-175 | characters put in turn keep the cursor on the grid |
| Console.PutAllSnoc | kernel/monitor.c:163-174 | putting one more character is one more monitor_put |
| Console.Cells | kernel/monitor.c:146-147 | the cells of a text are one per character |
| Console.PutRun | kernel/monitor.c:144-149 | printable text that fits in the rest of the row lands in consecutive cells from the cursor, which ends right after it |
| Console.PutPrintable | kernel/monitor.c:144-149 | a printable character short of the row's end fills the cursor's cell and advances the cursor |
| Console.CellsExtend | kernel/monitor.c:146-148 | one more printable cell extends the run |
| Console.PutThenBackspace | kernel/monitor.c:125-149 | a backspace right after a printable character in the same row moves back and leaves a blank where it was |
| Console.BackspaceAtRowStart | kernel/monitor.c:125 | a backspace at column 0 changes nothing |
| Console.TabStop | kernel/monitor.c:130-155 | a tab moves to the next multiple of 8 in the row, or to the next row from column 72 on, and writes nothing |
| Console.LineFeed | kernel/monitor.c:105-143 | LF goes to the start of the next row, scrolling on the last one; CR only returns to column 0 |
| Console.ScrollRows | kernel/monitor.c:105-116 | a scroll moves rows 2-25 up one row, blanks the last row and leaves the cursor on row 24 |
| Console.PosAfterMove | kernel/monitor.c:76-83 | for 1 <= x <= 80 and 1 <= y <= 25, get_cursor_pos after move_cursor_to(x, y) decodes back to (x, y) |
| Console.AnsiToVga | kernel/monitor.c:88 | the colour table maps 0-7 into the eight VGA colours |
| Console.AnsiToVgaInvolution | kernel/monitor.c:88 | the table swaps red/blue and yellow/cyan, so it is its own inverse |
| Console.Attribute | kernel/monitor.c:85-93 | set_color's attribute is `back << 4 \| (fore \| bright << 3)` over the mapped colours, below 128 |
| Console.AttributeRoundTrip | kernel/monitor.c:85-95 | every attribute set_color can build decodes to colours that rebuild it, and set_color's colours decode back to themselves |
| Console.AttributeDecodes | kernel/monitor.c:85-95 | decoding then re-encoding an attribute gives it back |
| Console.AttributeEncodes | kernel/monitor.c:85-95 | encoding then decoding colours gives them back |
| Console.ShrStep | kernel/monitor.c:207-208 | one more 4-bit shift splits off one more nibble |
| Console.HexText | kernel/monitor.c:195-222 | monitor_write_hex writes "0x" then the upper-case hex digits with no leading zero ("0x0" for 0), reading back as the number |
| Console.HexDigits | kernel/monitor.c:202-219 | the buffer is "0x" followed by the base-16 digits |
| Console.HexShape | kernel/monitor.c:202-219 | the digits read back as the number, with no leading zero |
| Console.DecimalSplit | kernel/monitor.c:188-193 | the decimal digits are those of n/10 (none for 0) then the last one |
| Console.DecimalStep | kernel/monitor.c:191-192 | putting the last digit after the quotient's digits puts all the digits |
| Console.Console.constructor | kernel/monitor.c:4-7 | at boot the cursor is at the top left and the attribute is white on black |
| Console.Console.MoveCursorTo | kernel/monitor.c:78-83 | the cursor moves to the 1-based coordinates; colour and cells stay |
| Console.Console.SetColor | kernel/monitor.c:85-93 | the attribute becomes set_color's; cursor and cells stay |
| Console.Console.SetCharAt | kernel/monitor.c:97-102 | exactly one cell, at the 1-based coordinates, changes |
| Console.Console.Scroll | kernel/monitor.c:105-116 | the console after scroll is the specified one |
| Console.Console.Put | kernel/monitor.c:118-159 | the console after monitor_put is the specified one |
| Console.Console.Clear | kernel/monitor.c:177-186 | all 2000 cells become blanks and the cursor goes home |
| Console.Console.WriteDec | kernel/monitor.c:188-193 | monitor_write_dec puts the decimal digits, most significant first |
| Ansi.NulPast | kernel/ansi.c:35-46 | a string that goes on after a non-NUL byte has its NUL further on, so the scan never leaves it |
| Ansi.ScanParams | kernel/ansi.c:35-44 | the digit loop stops inside the string on a non-digit (the command char) and keeps the parameters completed before it |
| Ansi.Count | kernel/ansi.c:58-102 | a missing or zero parameter counts as 1, any other is taken as given |
| Ansi.Recognize | kernel/ansi.c:20-46 | after ESC, "c" is the reset, anything but "[" is refused, and a control sequence has its command char inside the string with at least one parameter |
| Ansi.MoveTarget | kernel/ansi.c:56-116 | every cursor move lands on the 80x25 grid |
| Ansi.MoveDirections | kernel/ansi.c:56-116 | A/B move up/down by the count and stop at the edge, E/F do the same to column 1, C moves left and D right (the reverse of ECMA-48), G and H/f go to the clamped column and cell |
| Ansi.UpThenDown | kernel/ansi.c:56-69 | a move up followed by the same move down comes back, away from the edges |
| Ansi.BlankRange | kernel/ansi.c:123-181 | blanking a range of cells keeps the screen size |
| Ansi.BlankEmpty | kernel/ansi.c:123-181 | blanking an empty range changes nothing |
| Ansi.BlankExtend | kernel/ansi.c:123-181 | one more set_char_at extends the blanked range by one cell |
| Ansi.BlankJoin | kernel/ansi.c:123-181 | two adjacent blanked ranges are one |
| Ansi.EraseLineSpec | kernel/ansi.c:156-184 | ESC[nK keeps the cursor and the colour |
| Ansi.EraseDisplaySpec | kernel/ansi.c:117-155 | ESC[nJ keeps the colour and the cursor on the grid |
| Ansi.EraseLineStaysInRow | kernel/ansi.c:156-184 | the corrected ESC[nK touches no cell outside the cursor's row |
| Ansi.EraseBothHalves | kernel/ansi.c:117-186 | ESC[0J then ESC[1J blanks every cell, as a clear does |
| Ansi.SgrStep | kernel/ansi.c:207-239 | each SGR parameter keeps the colours in range |
| Ansi.SgrFold | kernel/ansi.c:206-241 | a run of SGR parameters keeps the colours in range |
| Ansi.PenAttr | kernel/ansi.c:240 | the attribute set_color makes from the colours is below 128 |
| Ansi.Decode | kernel/ansi.c:51-54 | the attribute read back as ANSI codes (through the inverse of set_color's table) is in range |
| Ansi.Sgr | kernel/ansi.c:205-242 | the attribute after an 'm' sequence is below 128 |
| Ansi.SgrKeeps | kernel/ansi.c:207-239 | a parameter the switch has no case for leaves the colours alone, and a foreground code keeps the background |
| Ansi.SwapTwice | kernel/ansi.c:211-214 | ESC[7;7m restores the colours |
| Ansi.CsiSpec | kernel/ansi.c:55-243 | every command keeps the terminal state valid (J falls through into K and s, n into m) |
| Ansi.ParseAnsiSpec | kernel/ansi.c:18-245 | parse_ansi keeps the state valid and returns -1 or an offset of at least 1 that stays inside the string |
| Ansi.ReportReadsBack | kernel/ansi.c:192-204 | ESC[6n queues "ESC[x;yR" whose numbers read back as the 1-based column and row |
| Ansi.ReportParts | kernel/ansi.c:201 | the report is ESC, '[', the column digits, ';', the row digits and 'R' |
| Ansi.SaveThenRestore | kernel/ansi.c:185-191 | ESC[s, then any command, then ESC[u returns the cursor to where it was |
| Ansi.OffsetIsCommand | kernel/ansi.c:244 | the offset of a control sequence points at its command char |
| Ansi.Resume | kernel/monitor.c:166-170 | monitor_write resumes just past the sequence, or at the NUL when the sequence ran into it |
| Ansi.WriteSpec | kernel/monitor.c:161-175 | monitor_write keeps the terminal state valid |
| Ansi.WriteEnds | kernel/monitor.c:163 | writing stops at the NUL |
| Ansi.WriteSkips | kernel/monitor.c:164-171 | a supported sequence is consumed and skipped |
| Ansi.WritePuts | kernel/monitor.c:173 | any other byte is put |
| Ansi.PutAllCons | kernel/monitor.c:173 | putting a character then a text is putting both |
| Ansi.WritePlain | kernel/monitor.c:161-175 | text without ESC reaches the screen exactly as monitor_put would put it, and nothing else changes |
| Ansi.Terminal.constructor | kernel/ansi.c:13-15 | the saved cursor starts at the top left cell (1, 1) (corrected; the source starts at 0) |
| Ansi.Terminal.ReadParams | kernel/ansi.c:35-44 | the loop computes the specified parameters and command index |
| Ansi.Terminal.EraseRow | kernel/ansi.c:123-164 | set_char_at over a column range blanks exactly those cells of the row |
| Ansi.Terminal.EraseRows | kernel/ansi.c:127-145 | whole rows are blanked cell by cell |
| Ansi.Terminal.EraseDisplay | kernel/ansi.c:117-154 | the inner switch of 'J' gives the specified screen |
| Ansi.Terminal.EraseLine | kernel/ansi.c:156-183 | the inner switch of 'K' gives the specified screen |
| Ansi.Terminal.ApplySgr | kernel/ansi.c:205-242 | the 'm' loop leaves the specified attribute and moves nothing |
| Ansi.Terminal.RunCsi | kernel/ansi.c:55-243 | the command switch gives the specified state and result |
| Ansi.Terminal.ParseAnsi | kernel/ansi.c:18-245 | parse_ansi gives the specified state and offset |
| Ansi.Terminal.Write | kernel/monitor.c:161-175 | monitor_write gives the specified state |
| Ansi.Terminal.WriteStep | kernel/monitor.c:163-174 | one turn of the loop moves forward and keeps the rest of the write as specified |
| Ansi.Terminal.WriteHex | kernel/monitor.c:195-222 | monitor_write_hex writes its text through monitor_write |
| Ansi.PlainHex | kernel/monitor.c:195-222 | the hex text holds neither NUL nor ESC, so it is put character by character |
| Ansi.RowIndicesAsWritten | kernel/ansi.c:123-181 | an erase loop over x0..x1 writes one cell per column |
| Ansi.EraseFromColumnZeroAsWritten | kernel/ansi.c:128-178 | as written the loops start at x = 0 (and y = 0): column 0 is the last cell of the row above, and in row 1 it lies before the video memory |
| Ansi.DecodeAsWritten | kernel/ansi.c:51-54 | the decoding as written (VGA numbers taken as ANSI codes) stays in range |
| Ansi.ColourRemapAsWritten | kernel/ansi.c:51-240 | as written ESC[31m on blue gives red on red (0x44) instead of red on blue (0x14), and ESC[6n turns the background red |
| Ansi.RestoreBeforeSaveAsWritten | kernel/ansi.c:15-191 | as written, ESC[u before any ESC[s moves the cursor to (65535, 65535), far past the 2000 cells |
| Ansi.TrailingSequenceAsWritten | kernel/monitor.c:168-169 | as written, a trailing "ESC[" makes monitor_write step past the string's NUL |
| Execute.LastSlashFrom | lib/execute.c:314-376 | the backwards scan returns -1 or the index of a '/' at or before its start |
| Execute.LastSlashSkips | lib/execute.c:314-316 | scanning back over non-'/' characters changes nothing |
| Execute.ScanBack | lib/execute.c:314-376 | the loop computes the backwards scan |
| Execute.ParentRooted | lib/execute.c:307-330 | cd .. from a rooted path gives a rooted prefix of it |
| Execute.LastSlashFindsRoot | lib/execute.c:314-320 | in a path starting with '/' the scan always finds one, so the "no slash" branch is never taken |
| Execute.LastSlashOfChild | lib/execute.c:314-316 | in dir + name + tail the last '/' before the end of name is the one ending dir |
| Execute.ParentOfChild | lib/execute.c:307-330 | cd .. undoes a step down into a directory |
| Execute.NewPathShape | lib/execute.c:337-359 | the new path is rooted and extends the current directory, or is the absolute argument with a '/' ensured |
| Execute.Take11 | lib/execute.c:384-416 | the directory name is cut to at most 11 characters |
| Execute.DirNameOfChild | lib/execute.c:366-417 | cd looks up the last component (cut to 11 characters) of dir + name + "/" |
| Execute.ExtractDirName | lib/execute.c:366-417 | the extraction with its backwards scans computes the specified name |
| Execute.CdKeepsRooted | lib/execute.c:296-452 | cd keeps current_path rooted, returns 0 or -1, and changes the path only on 0 |
| Execute.CdDownAndUp | lib/execute.c:296-452 | cd into a short subdirectory the lookup reports as a directory appends name + "/", and cd .. returns to where it started |
| Execute.Session.constructor | lib/execute.c:48 | current_path starts as "/" |
| Execute.Session.Cd | lib/execute.c:296-452 | cmd_cd returns the specified status and leaves the specified path |
| Execute.LsMatchesCd | lib/execute.c:105-359 | from a directory ending in '/', ls and cd resolve a non-empty argument to the same directory |
| Execute.LeafNameOf | lib/execute.c:463-561 | mkdir and rm act on the last component, with or without a trailing '/' |
| Execute.AfterLastSlashOfChild | lib/execute.c:472-561 | the text after the last '/' of a directory path followed by a name without '/' is that name |
| Execute.LeafNameAbsolute | lib/execute.c:472-561 | an absolute argument is used as it is, without the current path before it |
| Execute.LeafCommandResult | lib/execute.c:455-576 | mkdir and rm return 0 exactly when there is a leaf name and its creation (mkdir) or deletion (rm) succeeds, otherwise -1 |
| Execute.RouteOf | lib/execute.c:717-744 | an empty command line does nothing, the fifteen built-in names go to the internal handler, anything else is run as a program |
| Execute.FifteenBuiltins | lib/execute.c:723-737 | the built-in names are fifteen distinct names |
| Execute.ExternalStatus | lib/execute.c:693-714 | the program is started under its own name, then under the name with ".bin", and the started one is waited for |
| Execute.ExternalNotFound | lib/execute.c:693-747 | when no program reports -1, "not found" happens exactly when neither name starts |
| Shell.ReadlineAsWritten | apps/shell.c:20-41 | the loop as written (read first, bound tested after) keeps the buffer's length |
| Shell.AsWrittenOverruns | apps/shell.c:23 | after cnt ordinary characters one more byte is stored at buf[cnt], past the end, and only then does the loop stop |
| Shell.ReadlineSpells | apps/shell.c:20-41 | readline keeps the cursor within cnt, never writes at or past buf[cnt], leaves the typed line (backspaces applied) before the cursor, and NUL-terminates a line ended by CR or LF |
| Shell.Readline | apps/shell.c:20-41 | the loop leaves the buffer, cursor and input position the specified readline gives |
| Shell.Until | apps/shell.c:57-61 | the scan stops at the first NUL or delimiter and passes only other bytes |
| Shell.NextToken | apps/shell.c:53-62 | a found token lies within the string, makes progress, and the string stays NUL-terminated after it |
| Shell.CutKeepsNul | apps/shell.c:63-65 | cutting a token end to NUL keeps the string NUL-terminated |
| Shell.AsWrittenKeeps | apps/shell.c:43-70 | cmd_parse as written never loses a stored argument start |
| Shell.AsWrittenStoresPastArgv | apps/shell.c:56-66 | with argv full and one more token, the code as written stores a start at argv[30], past the end of argv |
| Shell.CmdParseTokens | apps/shell.c:43-70 | the corrected cmd_parse stores the arguments of the line in order, as many as argv has room for, gives -1 exactly when more are left, and each stored start reads back as its argument: after a leading quote the run up to the next quote, otherwise the run up to the next delimiter |
| Shell.CmdParseBounded | apps/shell.c:43-70 | the corrected cmd_parse stores at most 30 starts, keeps those it had, overwrites only delimiters and quotes, and gives up (-1) only with argv full |
| Shell.CorrectedAgrees | apps/shell.c:43-70 | on lines the code as written handles within argv, the corrected version gives the same buffer, arguments and count |
| Shell.ShellSlots | apps/shell.c:13-49 | argv always has 30 slots |
| Shell.ScanUntil | apps/shell.c:57-61 | the scan loop stops where the specified scan does |
| Shell.FindToken | apps/shell.c:53-62 | the start of the loop body finds the specified token |
| Shell.ClearArgv | apps/shell.c:45-49 | every argv slot is set to NULL |
| Shell.StoreToken | apps/shell.c:56-65 | storing a token and cutting after it is one step of the specified parse, making progress |
| Shell.CmdParse | apps/shell.c:43-70 | the loops leave the buffer, argv and argc (-1 for too many arguments) of the specified parse |
| Shell.TryToRunExternal | apps/shell.c:72-91 | the program is found exactly when one of the two names starts, ".bin" is tried only after the plain name fails, and the result is the process status or -1 |
| Fat32.ToUpper | fs/fat32.c:24-29 | toupper changes exactly 'a'..'z', each into its upper-case letter, and never returns a lower-case letter |
| Fat32.Upper | fs/fat32.c:339-477 | upper-casing a name keeps its length |
| Fat32.StrNCmpZeroIff | fs/fat32.c:11-21 | strncmp is 0 exactly when the first n characters agree up to and including the first NUL |
| Fat32.StrNCmp | fs/fat32.c:11-21 | the strncmp loop returns the specified difference |
| Fat32.RoundUp4 | fs/fat32.c:38 | a size rounded up to the next multiple of 4 |
| Fat32.BackToBackEnd | fs/fat32.c:44-45 | every block handed out ends at or before the heap mark |
| Fat32.BackToBackDisjoint | fs/fat32.c:44-45 | blocks handed out never overlap: each ends before any later one begins |
| Fat32.BumpHeap.constructor | fs/fat32.c:34-35 | the heap mark starts at 0 with nothing handed out |
| Fat32.BumpHeap.Malloc | fs/fat32.c:32-47 | a block of the rounded size at the old mark, or NULL (nothing changed) when it would pass the end of the 1 MiB heap; blocks stay disjoint |
| Fat32.MallocWrapsAsWritten | fs/fat32.c:38-40 | as written, a request close to 2^32 bytes wraps the size and the mark, so the next block is handed out over the first |
| Fat32.Spaces | fs/fat32.c:331-465 | a run of n spaces |
| Fat32.ShortName | fs/fat32.c:463-480 | the 8.3 name fat32_create stores is 11 bytes |
| Fat32.ShortNameDotted | fs/fat32.c:463-480 | for any name base.ext with no dot in base: the first 8 bytes are base cut to 8 and padded with spaces, the last 3 are ext cut to 3 and padded with NULs (strncpy's padding), both upper-cased |
| Fat32.ShortNameUndotted | fs/fat32.c:463-480 | for any name without a dot: the first 8 bytes are the name cut to 8 and padded with NULs by strncpy, upper-cased, and the extension stays three spaces |
| Fat32.LookupKeyAsWritten | fs/fat32.c:337-339 | the key find_in_directory compares with is 11 bytes |
| Fat32.TestShortName | fs/fat32.c:463-480 | the entry created for "TEST.TXT" is "TEST    TXT" |
| Fat32.TestLookupKey | fs/fat32.c:337-339 | the lookup key for "TEST.TXT" keeps the dot in its fifth byte |
| Fat32.CreatedUnfoundAsWritten | fs/fat32.c:337-538 | after fat32_create("TEST.TXT"), the lookup fat32_open makes does not find the entry it just created |
| Fat32.MatchesOnlyShortName | fs/fat32.c:337-480 | for a NUL-free 11-byte entry, the corrected lookup matches exactly when the entry is the name's 8.3 form |
| Fat32.CreatedIsFound | fs/fat32.c:329-480 | with the name brought into the stored 8.3 form, the entry created for a name is found under that name |
| Fat32.Zeros | fs/fat32.c:444-630 | a run of n zero bytes |
| Fat32.ReadSector | fs/fat32.c:63-91 | disk_read of one sector gives 512 bytes, the stored ones when the sector was written |
| Fat32.Low28 | fs/fat32.c:245-279 | the masked entry is below 2^28 |
| Fat32.High4 | fs/fat32.c:258 | the reserved bits are below 16 |
| Fat32.SplitWord | fs/fat32.c:258 | a word made of reserved bits and a 28-bit value splits back into them |
| Fat32.MaskSplits | fs/fat32.c:245-258 | the two masks split the loaded word into reserved bits and entry |
| Fat32.EntryBytes | fs/fat32.c:258 | the store writes four bytes |
| Fat32.EntryBytesRead | fs/fat32.c:245-258 | what the store writes reads back as the low 28 bits of v under the given reserved bits |
| Fat32.StoreEntry | fs/fat32.c:257-258 | the store changes only the entry's four bytes |
| Fat32.StoreEntryReads | fs/fat32.c:257-258 | the stored entry reads back as v's low 28 bits with its reserved bits kept |
| Fat32.StoreEntryKeeps | fs/fat32.c:257-258 | storing one 4-aligned entry keeps every other entry and its reserved bits |
| Fat32.Drive.constructor | fs/fat32.c:63-121 | the drive holds the given sectors |
| Fat32.ClusterRuns | fs/fat32.c:295-297 | cluster 2 starts at data_start and later clusters are consecutive runs of sectors_per_cluster sectors |
| Fat32.ClustersForCeil | fs/fat32.c:359 | create_chain's count is the fewest clusters that hold size bytes |
| Fat32.EntryOffsetFits | fs/fat32.c:239-251 | an entry's offset is 4-aligned and the whole word fits in its sector |
| Fat32.FatEntry | fs/fat32.c:237-246 | get_fat_entry returns a 28-bit value |
| Fat32.EntryPlace | fs/fat32.c:238-239 | entry c is word c mod 128 of FAT sector fat_start + c / 128, inside the first FAT |
| Fat32.SetImage | fs/fat32.c:253-258 | the sector set_fat_entry writes is 512 bytes |
| Fat32.CopiesKeepAt | fs/fat32.c:264-266 | writing the FAT copies leaves a sector that already holds the image holding it |
| Fat32.CopiesLand | fs/fat32.c:264-266 | after the copy loop from copy i on, every copy j with i <= j < num_fats holds the image |
| Fat32.SetWritesCopies | fs/fat32.c:249-267 | after set_fat_entry every backup FAT j (1 <= j < num_fats) holds the updated sector, fat_size_32 * j sectors after the first |
| Fat32.CopiesKeep | fs/fat32.c:264-266 | writing the backup copies keeps the image already in a sector |
| Fat32.CopiesMiss | fs/fat32.c:264-266 | a sector no copy lands on is left alone |
| Fat32.SetThenGet | fs/fat32.c:237-267 | after set_fat_entry(c, v), get_fat_entry(c) gives v's low 28 bits and the reserved bits are unchanged |
| Fat32.SetKeepsSameSector | fs/fat32.c:249-267 | another entry in the same sector keeps its value and reserved bits |
| Fat32.SetKeepsOtherSectors | fs/fat32.c:249-267 | other sectors of the first FAT are left alone |
| Fat32.CopyPastFirst | fs/fat32.c:265 | every backup copy lies past the first FAT |
| Fat32.SetKeepsOthers | fs/fat32.c:249-267 | set_fat_entry(c, v) leaves every other entry of the first FAT unchanged |
| Fat32.ScanWordIsFatEntry | fs/fat32.c:279-280 | the word the scan reads at byte i of FAT sector s is the entry of cluster s * 128 + i / 4 |
| Fat32.ScanFrom | fs/fat32.c:275-291 | the scan returns 0 or a cluster from 2 up to the end of the FAT |
| Fat32.FreeCluster | fs/fat32.c:270-292 | find_free_cluster returns 0 or a cluster from 2 up to the end of the FAT |
| Fat32.ScanFromLeast | fs/fat32.c:275-291 | the scan from any word finds the least free cluster from there on |
| Fat32.ScanLeastNextSector | fs/fat32.c:275-278 | the end of one FAT sector hands over to the start of the next |
| Fat32.ScanLeastHit | fs/fat32.c:285-287 | a word whose cluster is free and from 2 on is the answer |
| Fat32.ScanLeastMiss | fs/fat32.c:283-285 | a word passed over keeps the promise of the rest of the scan |
| Fat32.FreeClusterIsLeast | fs/fat32.c:270-292 | find_free_cluster returns the least cluster from 2 on whose entry is 0, or 0 when there is none |
| Fat32.ChainTail | fs/fat32.c:357-378 | a tail create_chain returns is a cluster from 2 on marked end-of-chain |
| Fat32.WriteRunKeeps | fs/fat32.c:93-121 | a run of sector writes leaves every other sector alone |
| Fat32.WriteRunReads | fs/fat32.c:93-121 | each sector of a run just written holds its 512 bytes of the data |
| Fat32.ClusterData | fs/fat32.c:300-303 | read_cluster gives bytes_per_cluster bytes |
| Fat32.PutThenRead | fs/fat32.c:300-309 | write_cluster then read_cluster of the same cluster gives back the data |
| Fat32.InCluster | fs/fat32.c:570-615 | the chunk is at most what is left, at least one byte when something is left, and stays within the current cluster |
| Fat32.ReadLen | fs/fat32.c:575-578 | the chunk read is also cut at the file size |
| Fat32.Patch | fs/fat32.c:584-638 | the copy puts the chunk at the offset and leaves the other bytes |
| Fat32.WriteIntoRound | fs/fat32.c:636-649 | one read-modify-write round is one step of the write loop |
| Fat32.ReadFromLength | fs/fat32.c:562-601 | fat32_read returns at most size bytes |
| Fat32.ReadNextLength | fs/fat32.c:592-597 | the cluster step keeps that bound |
| Fat32.ReadFromPosition | fs/fat32.c:562-601 | a read moves the position by exactly the bytes read and leaves it within the file |
| Fat32.ReadNextPosition | fs/fat32.c:592-597 | the cluster step keeps that |
| Fat32.ReadFromShort | fs/fat32.c:575-595 | a short read stopped at the end of the file or at a cluster whose FAT entry ends the chain |
| Fat32.ReadNextShort | fs/fat32.c:593-595 | the cluster step keeps that |
| Fat32.WriteFromLength | fs/fat32.c:604-653 | fat32_write reports at most size bytes, and fewer only when no cluster was free |
| Fat32.WriteIntoLength | fs/fat32.c:636-649 | a round writes at least one byte |
| Fat32.WriteFromPosition | fs/fat32.c:604-653 | a write moves the position by the bytes written, and the size becomes the larger of the old size and the new position |
| Fat32.WriteIntoPosition | fs/fat32.c:641-649 | a round keeps that |
| Fat32.WriteThenRead | fs/fat32.c:562-653 | bytes written within one cluster read back unchanged from the same position |
| Fat32.FileHandle.constructor | fs/fat32.c:549-556 | the handle starts at the entry's first cluster (high and low halves) at position 0, unmodified |
| Fat32.Volume.constructor | fs/fat32.c:206 | the global starts zeroed |
| Fat32.Volume.Init | fs/fat32.c:211-234 | without the "FAT32" signature -1 and no layout change; otherwise fat_start, data_start, bytes per cluster and root cluster as specified (32-bit wrap), and 0 |
| Fat32.Volume.SetFatEntry | fs/fat32.c:249-267 | the drive afterwards is the specified set_fat_entry result |
| Fat32.Volume.FindFreeCluster | fs/fat32.c:270-292 | the nested loops give the first-free answer |
| Fat32.Volume.CreateChain | fs/fat32.c:357-378 | the loop leaves the drive and tail of the specified chain |
| Fat32.Volume.Read | fs/fat32.c:562-601 | nothing without a handle or read permission; otherwise the bytes, position and cluster of the specified read, and the other handle fields unchanged |
| Fat32.ReadChunk | fs/fat32.c:569-590 | one chunk read from inside the file consumes at least one requested byte, and the rest of the specified read goes on from the new position with the chunk appended |
| Fat32.Volume.NextCluster | fs/fat32.c:620-632 | a free cluster is linked, marked end-of-chain, cleared and made current; without one nothing changes |
| Fat32.Volume.WriteChunk | fs/fat32.c:611-649 | one round of the write loop is one step of the specified write, or stops with nothing changed when no cluster is free |
| Fat32.PatchCluster | fs/fat32.c:635-649 | the read-modify-write of one chunk, the 32-bit position update and the size growing to the position together make one step of the specified write |
| Fat32.Volume.Write | fs/fat32.c:604-653 | nothing without a handle or write permission; otherwise the handle is marked modified and the store, size, position and cluster are those of the specified write |
| Net.Bswap16 | drivers/net/net.c:95 | the result's low byte is v's high byte and its high byte is v's low byte |
| Net.Bswap16Involution | drivers/net/net.c:95-97 | swapping twice gives the value back, so htons and ntohs undo each other |
| Net.MiniSscanf | drivers/net/net.c:100-138 | 0 and no values for a NULL string or format or any other format; under "%d.%d.%d.%d", 4 and the four groups exactly when the string scans as a dotted quad, 0 otherwise |
| Net.ParseIpv4 | drivers/net/net.c:490-496 | success exactly when the string scans as a dotted quad, with the four bytes in order |
| Net.ScanLength | drivers/net/net.c:111-131 | a successful scan has exactly four groups and keeps the groups already collected |
| Net.Dec | drivers/net/net.c:113-116 | the decimal text of a group is one to three digits |
| Net.ScanDigit | drivers/net/net.c:113-116 | a digit extends the group by ten times plus the digit while it stays within 255 |
| Net.ScanGroup | drivers/net/net.c:113-116 | a group's digits leave its value in the accumulator |
| Net.ScanDot | drivers/net/net.c:117-121 | a '.' after a digit completes the group |
| Net.ScanDotted | drivers/net/net.c:111-125 | complete groups are consumed one by one |
| Net.QuadRoundTrip | drivers/net/net.c:100-138 | the dotted text of any four-byte address scans back to it, and anything after a fourth '.' is ignored |
| Net.ScanRejects | drivers/net/net.c:117-131 | an empty group, a stray character or fewer than four groups fails the scan |
| Net.ScanRejectsLargeGroup | drivers/net/net.c:115 | a group above 255 fails the scan |
| Net.IpChecksum | drivers/net/net.c:141-149 | the summing loop gives the specified checksum |
| Net.AddWrap | drivers/net/net.c:144 | adding to a wrapped 32-bit sum wraps like adding to the whole sum |
| Net.WordSumBound | drivers/net/net.c:144-145 | the word sum is at most 0x8000 per byte, so short buffers never wrap it |
| Net.WordSumPut | drivers/net/net.c:478-484 | storing a word at an even offset changes the sum by the difference of the words |
| Net.Fold | drivers/net/net.c:146-148 | the carry folding keeps the sum modulo 0xFFFF, ends within 16 bits, and is zero only for a zero sum |
| Net.ChecksumVerifies | drivers/net/net.c:141-484 | once a buffer's checksum is stored in its zeroed field, the checksum of the buffer is 0 (section 4.1 of RFC 1071) |
| Net.TxLength | drivers/net/net.c:208-209 | the length sent is clamped to 60..1518 and kept when already within it |
| Net.RingArithmetic | drivers/net/net.c:241-427 | every boundary written stays in [RX_START, RX_STOP), and the next drain starts at the successor page after a frame, or at CURR after a recovery |
| Net.RingRead | drivers/net/net.c:264-277 | the two reads of a frame give read_len bytes |
| Net.RingReadWraps | drivers/net/net.c:268-277 | the split read is the ring read as a circle |
| Net.DrainCatchesUp | drivers/net/net.c:234-322 | the bounded drain (the correction of the unbounded loop under Findings) keeps the boundary in the ring and, unless the frame bound ran out, leaves the ring empty up to CURR |
| Net.SelfLinkedSpinsAsWritten | drivers/net/net.c:244-318 | a ring header with an accepted length whose next page is its own page, away from CURR, exhausts every frame bound: the loop as written never ends |
| Net.SelfLinkedCardSpins | drivers/net/net.c:240-318 | such a ring exists: page RX_START naming itself with a 60-byte frame, with the boundary just before it and CURR elsewhere |
| Net.Store16 | drivers/net/net.c:460-482 | a 16-bit store writes two bytes |
| Net.HtonsStoresBigEndian | drivers/net/net.c:96-460 | a value passed through htons lands high byte first |
| Net.Sealed | drivers/net/net.c:478-484 | sealing a header with its checksum keeps its length |
| Net.EchoChecksumsVerify | drivers/net/net.c:453-487 | both checksums of the echo request verify |
| Net.EchoFrameEthernet | drivers/net/net.c:457-460 | the request goes to the given MAC from this card's MAC with type IPv4 |
| Net.EchoFrameIp | drivers/net/net.c:463-477 | the request carries ICMP from this host to the given address, with type 8 and the 32-byte payload |
| Net.EchoRequestIsNotReply | drivers/net/net.c:288-473 | an echo request read back from the ring is not taken for a reply |
| Net.PingLoopInRing | drivers/net/net.c:515-519 | the waiting loop keeps the boundary in the ring |
| Net.Nic.constructor | drivers/net/net.c:337-386 | after ne2k_init the boundary is RX_START and nothing has been sent |
| Net.Nic.Transmit | drivers/net/net.c:207-223 | the clamped length of data goes into the transmit pages and out on the wire; nothing else changes |
| Net.Nic.SendPacket | drivers/net/net.c:445-450 | nothing for NULL or length 0; otherwise at most 1518 bytes go through tx_buf and out, and a frame of 60..1518 bytes goes out as given |
| Net.Nic.ReadFrame | drivers/net/net.c:268-277 | the two remote-DMA reads give the specified ring read |
| Net.Nic.DrainOne | drivers/net/net.c:244-320 | a bad length or successor stops with the recovery boundary; otherwise an echo reply sets the flag and the boundary moves just behind the successor |
| Net.Nic.Drain | drivers/net/net.c:234-322 | the loop leaves the boundary and flag of the specified drain |
| Net.Nic.BuildIcmpEcho | drivers/net/net.c:453-487 | the first 74 bytes of tx_buf become the echo request and the length is 74 |
| Net.Nic.DoPing | drivers/net/net.c:499-522 | an address that does not parse sends nothing; otherwise the request to the broadcast MAC goes out and the waiting loop runs |
| Net.Nic.Interrupt | drivers/net/net.c:409-438 | a receive interrupt drains the ring, an overwrite warning then moves the boundary behind CURR, the other bits change nothing |
| Shutdown.Pa2vaIdentity | lib/shutdown.c:378-381 | on the 32-bit target pa2va maps every 32-bit address to itself |
| Shutdown.FindS5 | lib/shutdown.c:181-199 | the search returns the first offset after the header, below the length minus 4, where "_S5_" stands after NameOp or after '\' and NameOp, and None only when there is no such offset |
| Shutdown.SleepTypesOfPackage | lib/shutdown.c:216-232 | for an \_S5_ package laid out as section 7.4.2 of the ACPI Specification says, the two sleep types are found back, shifted into SLP_TYP position |
| Shutdown.SleepTypesAfterLongLength | lib/shutdown.c:220-221 | PkgLength encodings of two to four bytes (section 20.2.4 of the ACPI Specification) are skipped whole |
| Shutdown.SlpTypPlacement | lib/shutdown.c:229-232 | the shift puts the byte's low six bits at bit 10 and up; a value below 8 lands in SLP_TYP and never touches SLP_EN |
| Shutdown.WithSlpEn | lib/shutdown.c:236-238 | OR-ing SLP_EN sets bit 13 and keeps every other bit |
| Shutdown.Rounds | lib/shutdown.c:235-243 | n rounds of writes are n times the round's writes |
| Shutdown.RoundsRepeat | lib/shutdown.c:235-243 | every round repeats the same writes in the same order |
| Shutdown.ApicWalkLength | lib/shutdown.c:402-433 | the walk visits one record per offset, starting at the first |
| Shutdown.ApicWalkAt | lib/shutdown.c:402-433 | each visited offset lies between the start and the table end, and its entry is the record there |
| Shutdown.RecordOffsetsStep | lib/shutdown.c:432 | each visited offset is the previous one plus that record's length |
| Shutdown.ParseApic | lib/shutdown.c:387-434 | nothing for a missing table or one shorter than its header; otherwise the local APIC address and the record walk from the end of the header (section 5.2.12 of the ACPI Specification) |
| Shutdown.Acpi.constructor | lib/shutdown.c:8-10 | no FADT, DSDT or SSDT recorded and no port writes |
| Shutdown.DsdtOf | lib/shutdown.c:52-53 | the recorded DSDT is absent exactly when the FADT's DSDT field is 0, and otherwise is that address |
| Shutdown.Acpi.AcpiEnable | lib/shutdown.c:34-73 | the SSDT is recorded only when none is and one is given; a recorded FADT makes the call return 0 changing nothing else; no FADT and none given gives -1; otherwise the FADT and the DSDT it names (none for a zero DSDT field, since pa2va(0) is NULL) are recorded and the SMI enable write is made |
| Shutdown.Acpi.DoPowerOff | lib/shutdown.c:160-243 | the ACPI writes are five rounds of SLP_TYP with SLP_EN to PM1a, and to PM1b when it exists, using the DSDT and then the SSDT; with no FADT, no DSDT or no parseable \_S5_ there is no ACPI write |
| Shutdown.Acpi.TryAcpiReboot | lib/shutdown.c:285-320 | no write without a FADT of at least 116 bytes and a non-zero reset address; otherwise five writes of the reset value to the I/O port (address space 1) or the memory address (spaces 0 and 3), and none for any other address space |
| Shutdown.FirstS5 | lib/shutdown.c:188-199 | a match returned is beyond the header, within the table and preceded as required |
| Shutdown.FirstS5From | lib/shutdown.c:188-199 | the same from any offset |
| Shutdown.FirstS5Is | lib/shutdown.c:188-199 | search results are unique: any result with the first-match property is FirstS5 |
| Shutdown.FirstS5FromIs | lib/shutdown.c:188-199 | the same from any offset |
| Shutdown.Rounds1 | lib/shutdown.c:303-318 | five attempts make five identical writes |
| Keyboard.ColumnChoice | drivers/keyboard.c:98-110 | the E0 prefix selects column 2; otherwise column 1 exactly when shift, flipped by caps lock on a letter row, is on |
| Keyboard.PadDigits | drivers/keyboard.c:155-178 | with num lock on, the keypad digits give '0'..'9' and the keypad dot gives '.' |
| Keyboard.InProcess | drivers/keyboard.c:63-81 | at most one character is decoded, and a key without FLAG_EXT forwards its low byte |
| Keyboard.PadPageDownAsWritten | drivers/keyboard.c:189-191 | with num lock off, the source maps keypad PAGEDOWN to itself where the other keypad keys are translated |
| Keyboard.PadKeyAgrees | drivers/keyboard.c:155-216 | the corrected translation differs from the source only on keypad PAGEDOWN, which it maps to PAGEDOWN |
| Keyboard.ReleaseEmitsNothing | drivers/keyboard.c:91-152 | a prefix code or a key release decodes nothing |
| Keyboard.TrackFollowsKey | drivers/keyboard.c:112-151 | a lock toggles only on the make of its own key, a modifier follows make and break of its own key, and nothing else changes |
| Keyboard.LocksToggleOnMake | drivers/keyboard.c:91-151 | after a non-prefix code the locks follow the key read from the keymap, the E0 flag is cleared and the column is the one chosen |
| Keyboard.LedsFollowLocks | drivers/keyboard.c:41-148 | set_leds runs exactly on the make of a lock key and sends LED_CODE and the new lock bits |
| Keyboard.PrefixSelectsExtended | drivers/keyboard.c:93-110 | the E0 prefix only sets the flag, and the next code reads column 2 and clears it |
| Keyboard.Driver.constructor | drivers/keyboard.c:237-253 | all modifiers and caps and scroll lock off, num lock on, nothing decoded, and the LED command with num lock's bit sent |
| Keyboard.Driver.Handle | drivers/keyboard.c:83-235 | one scan code moves the flags, decoded keys and LED writes as the specified keyboard_read does |
| Screen.IndexedLength | drivers/screen.c:31-57 | a register loop makes two writes per register |
| Screen.IndexedAt | drivers/screen.c:31-57 | register k is selected at write 2k and loaded with its value at write 2k+1 |
| Screen.WithColour | drivers/screen.c:22 | the colour-mode bit is set and the other bits kept |
| Screen.Unprotected | drivers/screen.c:27 | the CRTC write-protect bit is cleared and the other bits kept |
| Screen.Mode13hOrder | drivers/screen.c:16-61 | the CRTC registers are written between clearing the protection bit and restoring the original value, and the graphics controller comes last |
| Screen.Offset | drivers/screen.c:73 | the index of an on-screen pixel is within the 64000-byte frame buffer and gives back its column and row |
| Screen.OffsetOnto | drivers/screen.c:73 | every frame-buffer byte is the pixel of exactly one on-screen position |
| Screen.GradientFields | drivers/screen.c:94-98 | red and green take 3 bits and blue 2, so the colour fits in a byte and each field reads back from it |
| Screen.Vga.constructor | drivers/screen.c:65 | the frame buffer is the given memory and no port has been written |
| Screen.Vga.SetMode13h | drivers/screen.c:16-61 | the port writes of the mode switch, with the two register reads as inputs |
| Screen.Vga.WriteRegisters | drivers/screen.c:31-57 | a register loop appends its indexed writes |
| Screen.Vga.ClearScreen | drivers/screen.c:64-69 | every byte of the frame buffer becomes the colour |
| Screen.Vga.DrawPixel | drivers/screen.c:71-75 | an on-screen pixel is written and no other byte changes; an off-screen one changes nothing |
| Screen.Vga.DrawRect | drivers/screen.c:77-87 | exactly the on-screen pixels of the rectangle become the colour |
| Screen.Vga.DrawGradient | drivers/screen.c:90-102 | every pixel gets its gradient colour |
| Sb16.RateCommandsCarryRate | drivers/sb16.c:40-44 | the rate command is 0x41 followed by the rate, high byte first, which reassembles to the rate |
| Sb16.StartCommandsCarryLength | drivers/sb16.c:80-87 | the start sequence carries the length low byte first and turns the speaker on last |
| Sb16.Copied | drivers/sb16.c:57-77 | fill_buffer copies at most size bytes, and copies any only from data that lasts that far |
| Sb16.Silence | drivers/sb16.c:69-75 | a run of n silence bytes (0x80) |
| Sb16.Chunk | drivers/sb16.c:57-77 | the chunk left in the buffer has the buffer's size |
| Sb16.ChunkAt | drivers/sb16.c:57-77 | each byte of the chunk is the next data byte while the data lasts, and silence after it |
| Sb16.CopiedIsMin | drivers/sb16.c:60-63 | with data left, min(size, audio_size - position) bytes are copied; otherwise none |
| Sb16.FinishedOnlyWithData | drivers/sb16.c:121-123 | with size 0 the handler never stops on its own; with data of positive size it stops exactly when the data is used up |
| Sb16.Player.constructor | drivers/sb16.c:7-14 | the statics start with buffer 0 active, playback off, no data and nothing written |
| Sb16.Player.FillBuffer | drivers/sb16.c:57-77 | the buffer's first size bytes become the next chunk, the rest is untouched, and the position moves past what was copied |
| Sb16.Player.Stop | drivers/sb16.c:90-97 | the DSP gets 0xD0 then 0xD3, playback is off and the data is forgotten |
| Sb16.Player.Irq | drivers/sb16.c:100-127 | while playing, the finished buffer is refilled, the other is handed to DMA and restarted, the buffers swap, and play stops once the data is used up; the interrupt is always acknowledged |
| Sb16.Player.PrimeBuffers | drivers/sb16.c:133-163 | both buffers are filled in turn from the position and buffer 1 goes to DMA |
| Sb16.Player.Init | drivers/sb16.c:129-143 | reset, 22050 Hz and full volume, buffer1 and buffer2 holding the next two chunks of the data from the position (silence past its end), buffer1 handed to DMA, and playback off |
| Sb16.Player.Play | drivers/sb16.c:145-167 | what was playing is stopped, the new data starts from its beginning, the rate is set only within 5000..48000 Hz, and playback is on |
| Sb16.Player.Start | drivers/sb16.c:150-166 | the new data is taken from its start, the rate set when in range, both buffers filled and buffer 1 started |
| Sb16Hw.LengthBytesEncode | drivers/audio/sb16.c:41-42 | the DSP receives size - 1, low byte first; a size of 0 sends 0xFFFF |
| Sb16Hw.ReadsPastTheEnd | drivers/audio/sb16.c:49-50 | for a buffer played in one chunk, the source decides on the byte just past the buffer, where the corrected test stops |
| Sb16Hw.ContinuesAgrees | drivers/audio/sb16.c:50 | inside the buffer the corrected and the as-written test agree |
| Sb16Hw.HwPlayer.constructor | drivers/audio/sb16.c:11-15 | the statics start empty, not playing and mono |
| Sb16Hw.HwPlayer.Init | drivers/audio/sb16.c:23-29 | reset is pulsed, and the result is 0 exactly when the DSP answers 0xAA, -1 otherwise |
| Sb16Hw.HwPlayer.StartDma | drivers/audio/sb16.c:32-44 | the chunk, its size cut to 16 bits, goes to DMA channel 1, then the mono or stereo command and the length go to the DSP, and playing is set |
| Sb16Hw.HwPlayer.Irq | drivers/audio/sb16.c:47-56 | nothing when not playing; otherwise the position moves one chunk on, the next chunk starts exactly when the buffer goes on (its DMA entry, the output command and the two length bytes, after every earlier write), and 0xD0 is sent |
| Sb16Hw.HwPlayer.PlayMusic | drivers/audio/sb16.c:59-67 | -1 with no change for a null buffer or a zero size or total; otherwise the buffer, chunk size and stereo flag are recorded, the position is rewound and the first chunk started |
| Ac97.PciCfgAddrFields | drivers/audio/ac97.c:15-17 | for device below 32 and function below 8, bus, device, function and the dword-aligned offset read back from the address, with the enable bit set (PCI Local Bus Specification 3.0, section 3.2.2.3.2) |
| Ac97.PciCfgAddrInjective | drivers/audio/ac97.c:15-17 | two probe positions never share a configuration address |
| Ac97.PciCfgAddrOverlap | drivers/audio/ac97.c:15-17 | outside that range the fields overlap: device 32 of bus 0 is addressed like device 0 of bus 1 |
| Ac97.Pow2 | drivers/audio/ac97.c:24 | a shift factor is at least 1 |
| Ac97.Read16Halves | drivers/audio/ac97.c:22-25 | the intended 16-bit reads at offsets 0 and 2 reassemble the dword |
| Ac97.Read16Agrees | drivers/audio/ac97.c:22-25 | with bit 1 of the offset clear the source's read is the intended one |
| Ac97.Read16HighHalfAsWritten | drivers/audio/ac97.c:24 | at offset 2 the source shifts by 32 and so yields the low half again instead of the high half |
| Ac97.BarBase | drivers/audio/ac97.c:99-100 | the I/O base is the BAR with its low two bits cleared, cut to 16 bits |
| Ac97.FirstFromAccepted | drivers/audio/ac97.c:84-107 | what the scan finds is in the probe range, accepted, and not before the start |
| Ac97.FirstFromMinimal | drivers/audio/ac97.c:84-107 | every accepted function at or after the start is the one found or comes after it |
| Ac97.FirstAudioIsFirst | drivers/audio/ac97.c:84-107 | the probe settles on the first function, in bus, device, function order, that is present, multimedia audio and has two I/O BARs; none only when there is none |
| Ac97.ResetPulse | drivers/audio/ac97.c:115-118 | the cold-reset pulse raises bit 1 and then clears it, leaving the other bits as read |
| Ac97.ClearRun | drivers/audio/ac97.c:148-150 | the run bit is cleared and the other bits kept |
| Ac97.BlockSize | drivers/audio/ac97.c:185-187 | a block is at most what remains, at most 4 KiB, and even |
| Ac97.BlockSizeEven | drivers/audio/ac97.c:185-187 | an even remainder loses nothing to the rounding |
| Ac97.Low16 | drivers/audio/ac97.c:190 | a length below 2^16 is kept whole |
| Ac97.Plan | drivers/audio/ac97.c:184-197 | the loop writes at most one entry per remaining slot |
| Ac97.StateFromSucc | drivers/audio/ac97.c:194-196 | the cursor after j + 1 turns is one step on from the cursor after j |
| Ac97.PlanIndex | drivers/audio/ac97.c:189-196 | entry j is the one written at the cursor after j turns, which still had bytes to describe |
| Ac97.PlanLength | drivers/audio/ac97.c:184 | the list has as many entries as the loop runs turns |
| Ac97.PlanFromLoop | drivers/audio/ac97.c:184-197 | what the loop writes when it stops is the plan |
| Ac97.PlanShape | drivers/audio/ac97.c:184-197 | no entry exactly when there is no data or no slot; each entry even, at most 4 KiB, with a zero reserved byte |
| Ac97.PlanContiguous | drivers/audio/ac97.c:189-194 | the first block starts at the buffer and each starts where the previous ends |
| Ac97.PlanIocOnLast | drivers/audio/ac97.c:192 | IOC is set on the last entry built and on no other |
| Ac97.PlanCovers | drivers/audio/ac97.c:184-197 | for an even byte count the entries cover the data or 32 blocks of 4 KiB, whichever is less |
| Ac97.BytesTotal | drivers/audio/ac97.c:176 | the 32-bit byte count is a multiple of 4, and frames * 4 when that fits |
| Ac97.NoDescriptorOnlyOnWrap | drivers/audio/ac97.c:176-198 | no descriptor is built exactly when frames * 4 wraps to 0 |
| Ac97.BytesTotalZero | drivers/audio/ac97.c:176 | the byte count is 0 exactly for multiples of 2^30 frames |
| Ac97.PlayCovers | drivers/audio/ac97.c:176-197 | when the byte count fits, the list covers all of it up to 128 KiB |
| Ac97.Controller.constructor | drivers/audio/ac97.c:32-78 | no bases, not found, an empty descriptor list and no port writes |
| Ac97.Controller.Probe | drivers/audio/ac97.c:84-107 | 0 with the bases of the first accepted function, or -1 with the bases unchanged exactly when there is none |
| Ac97.Controller.CodecReset | drivers/audio/ac97.c:109-120 | the NAM reset write and then the cold-reset pulse on the global control register |
| Ac97.Controller.SetSampleRate | drivers/audio/ac97.c:122-127 | the rate, cut to 16 bits, goes to the front DAC rate register |
| Ac97.Controller.Unmute | drivers/audio/ac97.c:129-133 | master and PCM-out volume are set to 0, the loudest |
| Ac97.Controller.HwInit | drivers/audio/ac97.c:136-143 | -1 with nothing changed when the probe fails; otherwise reset, unmute, 48 kHz, found, and 0 |
| Ac97.Controller.StopReset | drivers/audio/ac97.c:146-164 | the run bit is cleared, the channel reset, and every status bit cleared |
| Ac97.Controller.WriteEntry | drivers/audio/ac97.c:189-196 | one turn writes the cursor's entry into its slot, touches no other slot and moves the cursor past its block |
| Ac97.Controller.BuildBdl | drivers/audio/ac97.c:184-197 | the list from slot 0 holds the plan's entries and the rest is untouched |
| Ac97.Controller.FillBdl | drivers/audio/ac97.c:184-197 | the loop stops at the first cursor with nothing left or at slot 32, having written the entry of each cursor it passed |
| Ac97.Controller.PlayStereo16 | drivers/audio/ac97.c:167-222 | -1 before init, -2 for a null buffer or no frames, -3 when no descriptor was built (after the rate write); otherwise the list holds the plan and the channel runs with CIV 0 and LVI on the last entry |
| Ac97.Controller.StartChannel | drivers/audio/ac97.c:204-214 | the list address, CIV 0, LVI on the last entry, cleared status and the run bit go to the channel |
| Pit.DivisorRange | drivers/pit.c:30-33 | the divisor is always 1..65535, the exact quotient when that is in range, 1 above the base clock and 65535 at 18 Hz or less |
| Pit.DivLowerBound | drivers/pit.c:31-42 | a quotient is at least any q that fits b times into a |
| Pit.DivSmall | drivers/pit.c:31-32 | a smaller number divided by a larger one is 0 |
| Pit.DivUpperBound | drivers/pit.c:42 | dividing by a positive number never makes a larger value |
| Pit.ActualHzBounds | drivers/pit.c:42 | the recorded frequency lies between 18 Hz and the base clock, and is at least the requested one whenever the divisor was not capped |
| Pit.DivisorBytesRoundTrip | drivers/pit.c:39-40 | the low then high byte written reassemble the divisor |
| Pit.DelayTicks | drivers/pit.c:68-69 | the intended delay is at least one tick |
| Pit.WaitTarget | drivers/pit.c:67-69 | the intended target lies after the current count |
| Pit.WaitLasts | drivers/pit.c:67-73 | the corrected wait lets exactly the intended ticks pass, ms * hz / 1000 when that is at least one |
| Pit.WaitTargetAgrees | drivers/pit.c:67-69 | while the count and delay stay below 2^32 the source's target is the intended one |
| Pit.WaitProductWrapsAsWritten | drivers/pit.c:68 | as written the product ms * hz wraps in 32 bits: 5,000,000 ms at 1000 Hz from tick 0 lets 705,032 ticks pass, where the intended wait lets 5,000,000 pass |
| Pit.WaitSkippedAfterWrap | drivers/pit.c:16-71 | once the 64-bit count has passed 2^32, the source's wait compares against a target cut to 32 bits and returns at once |
| Pit.Timer.constructor | drivers/pit.c:16-18 | no ticks, no frequency, not initialised, nothing written |
| Pit.Timer.Init | drivers/pit.c:27-50 | false with nothing changed for 0 Hz; otherwise the mode word and the divisor bytes go out, the frequency becomes base / divisor, the count restarts and the handler is hooked |
| Pit.Timer.Frequency | drivers/pit.c:52-54 | the recorded frequency |
| Pit.Timer.Ticks | drivers/pit.c:56-58 | the tick count |
| Pit.Timer.Irq | drivers/pit.c:21-25 | one more tick and nothing else |
| Pit.Timer.WaitMs | drivers/pit.c:60-74 | without a working timer a `ms * 100000` cut to 32 bits busy-wait and no tick; otherwise the count advances exactly the intended delay |
| Cmos.Bcd2HexRoundTrip | include/cmos.h:17 | a BCD byte decodes to the two-digit number it spells, and encoding that number gives the byte back |
| Cmos.ToBcdRoundTrip | include/cmos.h:17 | every number below 100 survives the trip through BCD |
| Cmos.LeapYearRule | drivers/cmos.c:14-18 | leap years repeat every 400 years, and a century year is a leap year only when divisible by 400 |
| Cmos.DaysBeforeNextMonth | drivers/cmos.c:30-31 | the month after a full month starts after its last day |
| Cmos.DecemberEndsYear | drivers/cmos.c:30-36 | December ends the year |
| Cmos.Utc8IsEightHoursLater | drivers/cmos.c:29-37 | the UTC+8 correction keeps a valid time valid and is exactly eight hours later on the calendar, rolling over day, month and year |
| Cmos.ReadCmos | drivers/cmos.c:4-11 | the byte the clock holds at the register, with the index write and the NMI-disable write |
| Cmos.ReadTime | drivers/cmos.c:23-28 | the corrected reading: each of the seven registers read once, giving the decoded fields and the index writes of the seven reads (the source reads each register twice, 14 reads, see Findings) |
| Cmos.CorrectUtc8 | drivers/cmos.c:29-37 | the correction on the month table computes the specified UTC+8 time |
| Cmos.GetCurrentTime | drivers/cmos.c:21-38 | the corrected reading corrected to UTC+8: the decoded time and the index writes of the seven reads (the source reads each register twice, 14 reads, see Findings) |
| Cmos.RawTimeAgrees | drivers/cmos.c:23-28 | while the clock holds still between the macro's two reads the source reads what a single read gives |
| Cmos.TornSecondsAsWritten | include/cmos.h:17 | when the seconds turn from 59 to 00 between the macro's two reads the source reads 50 (or 9), a time the clock never showed |
| TimeFormat.ComponentsFromBcd | lib/time.c:15-49 | registers holding the BCD codes of a date and time decode to exactly that date and time, and DL to the weekday byte |
| TimeFormat.DecimalShort | lib/time.c:97-132 | for the corrected, zero-padded fields: a number below 10^w has at most w digits |
| TimeFormat.LeadingZeros | lib/time.c:97-132 | for the corrected, zero-padded fields: leading zeros do not change the value the digits spell |
| TimeFormat.ZeroPadWidth | lib/time.c:97-132 | the corrected field of width w is exactly w places wide when the number fits |
| TimeFormat.ZeroPadValue | lib/time.c:97-132 | the corrected field reads back as the number |
| TimeFormat.Hour12 | lib/time.c:120-126 | %h gives 1..12 with the same value as the hour modulo 12 |
| TimeFormat.KernelPadded | lib/stdio.c:106-147 | the kernel vsprintf writes nothing for the conversion "%0" and copies the rest, so "%04d" and "%02d" give "4d" and "2d" whatever the argument |
| TimeFormat.KernelPlain | lib/stdio.c:106-147 | "%d" with one int is that conversion alone |
| TimeFormat.KernelFieldsAreLiteral | lib/time.c:97-132 | as the program links it, %Y gives "4d", every other padded field "2d", and %l the decimal weekday |
| TimeFormat.StandardFieldsReadBack | lib/time.c:97-132 | with a C library sprintf, a field whose number fits takes exactly its width and reads back as the number |
| TimeFormat.YearFieldAsWritten | lib/time.c:97-100 | in 2025 the program's sprintf puts "4d" for %Y where the padded field is "2025", and the copy loop gives "4d" followed by whatever temp_str held after its first two bytes, up to the first NUL |
| TimeFormat.TempAfter | lib/time.c:93-100 | the kernel sprintf overwrites only the front of temp_str: the bytes after the field are what was there before |
| TimeFormat.FieldCopy | lib/time.c:97-133 | a copy loop gives the field followed by the stale bytes up to the first NUL, and the field alone exactly when the byte after it was already NUL |
| TimeFormat.FormatPlain | lib/time.c:84-87 | a format with neither '%' nor '\' is copied unchanged |
| TimeFormat.Escape | lib/time.c:77-82 | escaping doubles the length |
| TimeFormat.FormatEscaped | lib/time.c:77-82 | escaping any text with '\' makes a format that prints that text |
| TimeFormat.FormatShift | lib/time.c:76-140 | dropping a two-byte prefix behind the scan does not change what follows |
| TimeFormat.UnknownSpecifierKept | lib/time.c:135-138 | an unknown specifier is passed through as '%' and itself |
| TimeFormat.FormatNoNul | lib/time.c:76-141 | no field writes a NUL, so the terminator ends the string right after the formatted text |
| TimeFormat.DirectiveNoNul | lib/time.c:95-139 | no directive writes a NUL |
| TimeFormat.FormatAgrees | lib/time.c:76-141 | unless the format ends in a lone '%', the source never reads past the terminator and writes what the corrected interpreter writes |
| TimeFormat.TrailingPercentReadsPastEnd | lib/time.c:90-138 | a format ending in '%' makes the source copy the terminator and go on reading past it |
| TimeFormat.Emit | lib/time.c:98-133 | each copy loop appends the bytes of temp_str up to its first NUL to the buffer |
| TimeFormat.Data | lib/time.c:69-144 | data fills the buffer with the formatted text, fields as the given sprintf writes them, followed by NUL, when a NUL follows each field in temp_str |
| TimeFormat.GetData | lib/time.c:146-149 | getdata gives the letters "YmdHis" themselves, since its format has no '%', whatever the time |
| Usb.Read10CdbParses | drivers/usb/usb.c:9-23 | the command block is 10 bytes and parses as READ (10) of exactly one block at exactly the given address (SCSI Block Commands, SBC-3) |
| Usb.Read10CdbInjective | drivers/usb/usb.c:9-23 | different addresses give different command blocks |
| Usb.ReadSector | drivers/usb/usb.c:9-23 | one bulk transfer to the device with the 10-byte READ (10) block, direction in, 512 bytes, and its status returned as it is |
| FsGen.RFind | fs.py:27 | the index found holds the character and no later index does, or -1 when none does |
| FsGen.SplitextRoot | fs.py:27 | the root os.path.splitext keeps is a prefix of the name |
| FsGen.SplitextStripsExtension | fs.py:27 | a name with one extension loses exactly that extension |
| FsGen.Replace | fs.py:28 | every occurrence of the character is replaced and every other character kept in place |
| FsGen.LabelClean | fs.py:27-99 | a label has the root's length, holds neither '.' nor ' ' and keeps every other character of the root |
| FsGen.LabelOfPlainName | fs.py:27-28 | a plain name with one extension is labelled by its base |
| FsGen.LabelsCollide | fs.py:27-122 | "a.txt" and "a.bin" get the same label, so the generated source defines the same symbol twice |
| FsGen.HexVal | fs.py:117 | in NASM's decoding of the backquoted strings fs.py emits, a hex digit has a value below 16 |
| FsGen.EscapeList | fs.py:106-117 | the escaped list has one entry per byte, each that byte's escape |
| FsGen.ConcatCons | fs.py:122 | joining a list with a first piece is that piece followed by the join of the rest |
| FsGen.EscapedCons | fs.py:106-122 | the escaped text is the escape of the first byte followed by that of the rest |
| FsGen.EscapedPrintable | fs.py:106-117 | every character the escaping writes is printable ASCII |
| FsGen.EscapeContent | fs.py:106-117 | the escape loop builds exactly the list of escapes of the content, in order |
| FsGen.EscapedQuoteThenA | fs.py:110-111 | a quote followed by 'A' escapes to backslash, quote, 'A' |
| FsGen.SingleQuotesTakeEscapesVerbatim | fs.py:109-122 | in the single quotes emitted, an escaped quote closes the string after the backslash and a NUL becomes the two characters backslash and '0' |
| FsGen.EscapeSeq | fs.py:109-117 | in NASM's decoding of the backquoted strings fs.py emits, an escape sequence recognised at the start of the text takes at least two characters and no more than there are |
| FsGen.EscapedNulDigit | fs.py:108-115 | a NUL followed by '1' escapes to backslash, '0', '1' |
| FsGen.BackquotedNulDigit | fs.py:109 | read as an assembler escape, backslash '0' '1' is the single byte 1 |
| FsGen.NulEscapeSwallowsDigit | fs.py:108-115 | even read as backquoted escapes, a NUL followed by '1' comes back as the one byte 1 |
| FsGen.HexDigitsRoundTrip | fs.py:117 | the two hex digits of a byte read back as the byte |
| FsGen.BackquotedByte | fs.py:106-117 | one byte under the intended escaping reads back as that byte, whatever follows |
| FsGen.BackquotedRoundTrip | fs.py:106-122 | with the intended escaping every content reads back exactly |
| FsGen.Present | fs.py:23-96 | the indices kept are below the number of arguments |
| FsGen.PresentExact | fs.py:23-96 | the kept indices are exactly the existing files, each once, in increasing order |
| FsGen.PassFollowsPresent | fs.py:23-123 | a pass emits the chunk of each existing file, in order, and nothing else |
| FsGen.NameListFollowsPresent | fs.py:87-91 | the name list quotes each existing file, with the trailing space, in order |
| FsGen.FileNamesText | fs.py:83-92 | with no existing file the name data is just ",0" |
| FsGen.RunPass | fs.py:23-123 | one loop appends exactly its pass over the arguments to the generated source |
| FsGen.MakeChunk | fs.py:27-123 | one iteration appends exactly the chunk of its file |
| FsGen.CollectNames | fs.py:87-91 | the name loop builds exactly the name list |
| FsGen.CreateFsAsm | fs.py:4-123 | the generated source is the header, the check pass, the not-found tail, the found pass, the compare routine, the name data and the data pass, and the header counts every argument |
| FsGen.CountIncludesMissing | fs.py:21-25 | with two arguments of which only the first exists, the count is 2 but only one check is emitted |

## Left out

- Port and MMIO access (`inb`/`outb`/`inl`/`outl`, IDE sector transfers, NE2000 remote DMA, DSP and mixer writes, PCI and PIC programming) is a trace of writes plus reads taken as inputs; timing and the device's reaction are not modelled.
- Spin, delay and halt loops (`disk_wait_ready`, `kb_wait`/`kb_ack`, `io_delay`, the `sb16_delay`, `dsp_write`, `dsp_read` and `sb16_reset` polls, the AC'97 DMA-halt poll, the NE2000 remote-DMA waits, `timer_udelay` of `drivers/pit.c`, `delay_ms` and `sleep` of `lib/time.c`, the ACPI SCI wait, the `for(;;)` hangs): liveness against real hardware.
- Concurrency: `cli`/`sti`, interrupt re-entrancy and the volatile flags; each interrupt handler is one atomic step.
- The scheduler (`task_alloc`, `task_switch`, `task_exit`, `task_wait`, `task_now`) is only declared in `include/drivers/mtask.h`; its answers are inputs, and `sys_getpid` returns what it is given.
- `fifo_*`, `keymap`, `fat16_*` (so `sys_unlink` is a call whose result is returned), `load_elf`, `start_app`, `hd_write`, `gdt_flush`/`idt_flush` and `bios_int` have no body in the source; they are inputs or left out.
- The sources of `monitor_printf`, `cmd_cat`, the root listing of `cmd_ls`, `handle_internal_command` and the directory-entry write of `cmd_mkdir` are not part of this model; the routing to them is.
- `puts`/`printf`/`putchar` and the other thin wrappers around `vsprintf` and the console (`lib/kstdio.c`, `drivers/audio/audio.c`, `drivers/net.c`).
- `drivers/dma.c`, `drivers/audio/beep.c`, `kernel/timer.c`, `drivers/usb/usb_ohci.c` and `lib/math.c` (floating point): register programming without further logic.
- `init_memory`: the memory size found by `memtest` is an input.
- The PIC remapping sequence, `gdt_ptr`/`idt_ptr` and the flush calls of `init_gdt`/`init_idt`.
- `get_cursor_pos` and the port writes of `move_cursor`: the hardware cursor is modelled as the cursor fields.
- `kernel_main` and `shell_main` beyond the operations listed in the model: the initialisation sequence and the endless command loop.
- `get_rtc_time`/`get_rtc_date` and every CMOS register read: inputs.
- Real addresses: `pa2va`'s offset, the fixed placements of the extent table, the text and VGA buffers, and the physical-address casts of `usb_mass_read_sector` are left out; memories are maps and arrays.
- `fs.py` file I/O: reading the inputs, writing `fs.asm`, printing; the existence test and file contents are inputs, and the assembler templates are kept as opaque chunks apart from their labels and data.
- FAT32: the `disk_read`/`disk_write` port sequences, the rest of `fat32_create` beyond its 8.3 name, `fat32_open` beyond the handle it builds, `fat32_close`, `fat32_listdir`, the cluster walk of `find_in_directory`, the no-op `free` and the `printf` of `fat32_init`.
- FAT32 read/write at cluster boundaries follow the code as written (a read ending on a boundary does not advance; a write into a fresh file links entry 0); these quirks are modelled, not corrected.
- Network: the `ne2k_reset`/`ne2k_init` register sequences, `init_network` (IDT gate and PIC mask), `set_page` and the `printf` calls.
- ACPI: `parseDT` and `parseHpet` (they only print), the emulator, APM and keyboard-controller power-off and reboot fallbacks, `doReboot`, the SMI command waits, the halts and `closeInterrupt`.
- SB16: `dma_setup` is recorded as its trace of writes only.
- Pit.Timer.WaitMs: models the corrected wait, whose delay is the unbounded ms * hz / 1000; the source wraps the product in `uint32_t` (drivers/pit.c:68) and cuts the start and target to 32 bits, both shown under Findings.
- Pit.Timer.Irq: the tick counter is unbounded; the 64-bit counter of the source would wrap only after far longer than any run.
- TimeFormat.ComponentsFromBcd: `get_time_components` calls `bios_int` with its arguments in a different order from its declaration; the BIOS answer is taken as registers already holding the date and time.
- TimeFormat.Data: the 256-byte output bound of the static buffer is not enforced. `temp_str` (lib/time.c:93) is never initialised, and the kernel's `vsprintf` writes no terminator, so each copy loop goes on through whatever `temp_str` and the memory after it held. Data takes a NUL to follow each field. TimeFormat.TempAfter and TimeFormat.FieldCopy give the copy for any earlier contents.
- Memory.FreeSpec: extent addresses and sizes are unbounded; memory.c computes `addr + size` and the merged sizes in `uint32_t`, which would wrap for an extent reaching 4 GiB. The probe range of `init_memory` ends at 0xC0000000, and the model does not follow a wrapped sum. The same holds for Memory.MemMan.Free, Memory.MemMan.Alloc and Memory.End.
- Cmos.CorrectUtc8: requires a month of at most 12, as the clock delivers; `day_of_months[month]` past 12 would read outside the array.
- Cmos.GetCurrentTime: requires the month register to decode to at most 12, for the same reason, since it passes the month to the UTC+8 correction.
- Shell.TryToRunExternal: names are unbounded; the overflow of `new_name[100]` for a name of 96 bytes or more is not modelled.
- Execute.ExternalStatus: names are unbounded, so the overflow of `extended_name[128]` for a name of 124 bytes or more is not modelled.
- Stdio.Snprintf: requires every '%' of the format to have a following character, since a trailing '%' makes `snprintf` read past the terminator (lib/stdio.c:35-36, 76-80, 86), and a size of at least 1, since for size 0 the `size - 1` cap wraps around in `size_t`; both are outside the model.
- Stdio.VsWrite: a format ending in a lone '%' makes `vsprintf` read past the terminator, so the model requires a format in which every '%' has a following character, and an output buffer large enough for the result.
- Stdio.Vsprintf: requires a NUL somewhere after the produced text in the old buffer, since the final `strlen` (lib/stdio.c:146) reads on until it meets one; a buffer without one is outside the model.
- Shutdown.ParseApic: a zero-length MADT record makes the walk loop forever, so the model requires every record the walk reaches to have a positive length.
- Ansi.ScanParams: parameters are unbounded naturals; the `int` overflow of a parameter of ten or more digits is not modelled, and neither is the store past `param_arr[255]` that a 256th parameter makes.
- Ansi.Terminal.ReadParams: the same: its parameters and their count are unbounded, so the `int param_arr[255]` overflow and the `int` wrap-around of long digit runs are not modelled.
- Files.FileTable.SysWrite: a failing `krealloc` (fs/file.c:81-82) is not modelled; the source then keeps the old buffer and stores past its end. A negative `len` on fd 1 or 2, which makes `memcpy` run over the whole address space, is excluded by the precondition. `fat16_write_file` (fs/file.c:89) is given the file's handle; its source is not part of this model, and the model takes it to leave the size the handle recorded at open unchanged.
- Files.FileTable.SysLseek: the target is bounded by the size in the FAT16 handle (fs/file.c:148-149), which the model takes as the size recorded at open; if `fat16_write_file` updates the handle after a growing write, the source accepts seeks into the new bytes that the model refuses. The offset and the sum of position and offset are unbounded integers, so the `int` wrap-around of `pos + offset` for a huge offset is not modelled.
- Files.ReadBackWritten: it puts the position back directly instead of through `sys_lseek`, so it does not depend on the handle size above.
- Files.FileTable.SysOpen: a failing `kmalloc` of the content buffer (fs/file.c:52) is not modelled; the model always gets a buffer.
- Files.FileTable.SysClose: the `kfree` of the buffer and the handle (fs/file.c:134-135) is not modelled; the file table holds the content, not heap blocks.
- Fat32.ShortName: takes the whole last path component; `fat32_create` copies it with `strcpy` into `char filename[13]` (fs/fat32.c:383-391), and the overflow a component of 13 bytes or more makes is not modelled, nor that of `dir_path[64]` for a directory part of 64 bytes or more.
- Fat32.LookupKeyAsWritten: requires a name shorter than 11 bytes; for a longer name `strncpy(compare_name, filename, 11)` (fs/fat32.c:338) leaves `compare_name` unterminated and the `toupper` loop reads past its 12 bytes, which is not modelled.
- Fat32.Volume.Init: the layout it computes is not checked against LayoutOk (512-byte sectors, a cluster size of bytes per sector times sectors per cluster, 28-bit cluster numbers), and Fat32.Volume.SetFatEntry, Fat32.Volume.FindFreeCluster, Fat32.Volume.CreateChain, Fat32.Volume.Read, Fat32.Volume.NextCluster, Fat32.Volume.WriteChunk and Fat32.Volume.Write require it through Valid; a boot sector with another geometry is outside the model. It takes the boot sector as parsed fields; the byte-offset decoding of sector 0 into them (fs/fat32.c:211-234) is not modelled.
- Exec.AppEntry: requires a non-empty image (`0 < image`), which kernel/exec.c:72-88 does not check; for an empty image the code segment limit `last - first - 1` is -1, which is not modelled.
- Memory.Heap.KRealloc: the size is an unsigned 32-bit value; `krealloc` takes an `int`, and a negative size is not modelled.
- Isr.Interrupts.IrqHandler: the call of a registered handler is recorded as Invoke(handler, interrupt number); the register frame it receives and what the handler does are not modelled.
- Screen.Vga.DrawRect: x + width and y + height are unbounded; the `int` overflow of those sums in drivers/screen.c:77-87 is not modelled.
- Sb16.Player.Irq: the DSP writes, the other port writes (DSP reset, mixer, end of interrupt) and the DMA hand-overs are kept as three separate traces, so their interleaving is not captured; the same holds for Sb16.Player.Init, Sb16.Player.Play, Sb16.Player.Start and Sb16.Player.Stop. The registration of the IRQ 5 handler that `sb16_init` makes (drivers/sb16.c:141) is not recorded by Sb16.Player.Init.
- Shutdown.Acpi.AcpiEnable: requires the FADT it is given to name either no DSDT (a zero field, modelled as NULL) or a mapped one (FadtOk); a non-zero DSDT address that is not mapped, which lib/shutdown.c dereferences in doPowerOff, is outside the model; the same holds for Shutdown.Acpi.DoPowerOff.
- Execute.Session.Cd: paths are unbounded; `current_path`, `new_path` and `target_path` are 256-byte buffers (lib/execute.c:48, 106, 337, 456) filled by `strcpy`/`strcat` without a length check, and the overflow of a path of 256 bytes or more (repeated `cd` into subdirectories, or a long argument) is not modelled; the same holds for Execute.CdResult, Execute.LsTarget and Execute.LeafName.
- Execute.LeafCommandResult: the same unbounded path: the overflow of `target_path[256]` that a long mkdir or rm argument makes (lib/execute.c:456-469) is not modelled.
- Net.Nic.Drain: drains at most `fuel` frames, a bound the caller gives, and reports `exhausted` when it runs out; the loop of `ne2k_rx_drain` (drivers/net/net.c:244) has no bound, and a ring whose headers form a cycle away from CURR keeps it spinning (shown under Findings). Net.DrainFrom, Net.PingLoop, Net.Nic.DoPing and Net.Nic.Interrupt carry the same bound. CURR is read once per drain, where the source reads it again after each frame (drivers/net/net.c:316-318), so frames the card receives during a drain are not modelled.
- Net.DrainCatchesUp: promises the boundary just behind CURR only when the frame bound did not run out; the source's loop has no bound, so for a cyclic ring it never returns instead of returning early.

## Findings

| source | as written | input that shows it | evidently intended | confidence | as-written member | corrected member |
|---|---|---|---|---|---|---|
| kernel/memory.c:83 | the allocation loop runs while `man->frees` is non-zero, so it goes on past the live extents into stale entries | free extents (A,100) and (B,200), then alloc(100), alloc(150) and alloc(100): the third finds no live extent but reaches the stale copy of (B,200) and hands out B a second time | `i < man->frees`, returning 0 when no live extent fits | not executed | Memory.AllocAsWrittenDoubleAllocates | Memory.MemMan.Alloc |
| fs/file.c:48-52 | `sys_open` uses the result of `install_to_global` without testing it for -1 | all 512 global entries in use: the open writes to `file_table[-1]` | return -1 when no global entry is free | not executed | Files.OpenFullTableWritesOutside | Files.FileTable.SysOpen |
| lib/stdio.c:43-52 | `%d` negates a negative argument in `int` and then prints its digits | INT_MIN: the negation overflows, the remainder is -8, and the output is "-(" | "-2147483648" | not executed | Stdio.SnDecimalAsWrittenIntMin | Stdio.SnDecimalValue |
| apps/shell.c:23 | `readline` stores the byte it reads before testing the count | cnt ordinary characters with no end of line: one more byte is stored at `buf[cnt]` | stop before storing at `buf[cnt]` | not executed | Shell.AsWrittenOverruns | Shell.ReadlineSpells |
| apps/shell.c:56-66 | `cmd_parse` stores `argv[argc]` and only then tests `argc > MAX_ARG_NR` | a line with 31 tokens: a start is stored at `argv[30]`, past the end of `argv` | test the bound before storing | not executed | Shell.AsWrittenStoresPastArgv | Shell.CmdParseTokens |
| kernel/ansi.c:128-178 | the erase loops of J and K count x (and y) from 0 though the cursor is 1-based | ESC[1K: column 0 is the last cell of the row above, and in row 1 it lies before the video memory | count from 1, so that only cells of the cursor's row are blanked | not executed | Ansi.EraseFromColumnZeroAsWritten | Ansi.EraseLineStaysInRow |
| kernel/ansi.c:51-240 | SGR takes the colours it keeps from the attribute byte, which holds VGA numbers, and hands them to `set_color`, which maps them again as ANSI codes | ESC[31m on a blue background gives red on red (attribute 0x44) | red on blue (attribute 0x14), with the background kept | not executed | Ansi.ColourRemapAsWritten | Ansi.SgrKeeps |
| kernel/ansi.c:15-191 | the saved cursor starts as (0, 0), while `move_cursor_to` takes 1-based coordinates and subtracts one into unsigned 16-bit fields | ESC[u before any ESC[s: the cursor goes to (65535, 65535) | a restore with nothing saved keeps the cursor on the screen | not executed | Ansi.RestoreBeforeSaveAsWritten | Ansi.Terminal.constructor |
| kernel/monitor.c:168-169 | after a sequence `monitor_write` skips its length plus one | a string ending in "ESC[": the index steps past the NUL and the loop reads beyond the string | stop at the NUL when the sequence ran into it | not executed | Ansi.TrailingSequenceAsWritten | Ansi.Resume |
| fs/fat32.c:38-40 | the bump `malloc` adds the rounded size to the mark in 32-bit arithmetic before the bound test | blocks of 4 bytes at 0 and 4, then a request of 0xFFFF_FFF8 bytes: the mark wraps to 0, and the next 4-byte block is handed out over the first | refuse any request that does not fit in what is left of the heap | not executed | Fat32.MallocWrapsAsWritten | Fat32.BumpHeap.Malloc |
| fs/fat32.c:337-538 | `find_in_directory` compares the name as given, with its dot, against the stored 8.3 name | `fat32_create("TEST.TXT")` then `fat32_open("TEST.TXT")`: the entry just created is not found | bring the name into 8.3 form before comparing | not executed | Fat32.CreatedUnfoundAsWritten | Fat32.CreatedIsFound, Fat32.MatchesOnlyShortName |
| drivers/keyboard.c:189-191 | with num lock off, keypad PAGEDOWN is mapped to PAD_PAGEDOWN, itself | keypad 3 with num lock off | PAGEDOWN, as every other keypad key is turned into its plain key | not executed | Keyboard.PadPageDownAsWritten | Keyboard.PadKeyAgrees |
| drivers/audio/sb16.c:49-50 | the interrupt decides whether to go on by testing the byte at the new position | a buffer played in one chunk: the byte tested lies just past the end of the buffer | go on only while the position is inside the buffer | not executed | Sb16Hw.ReadsPastTheEnd | Sb16Hw.ContinuesAgrees |
| drivers/audio/ac97.c:24 | `pci_read16` shifts the dword by `(off & 2) * 16` | offset 2: the shift is 32 and the low half comes back instead of the high half | shift by 16 for `off & 2` | not executed | Ac97.Read16HighHalfAsWritten | Ac97.Read16Halves |
| drivers/pit.c:68 | `timer_wait_ms` multiplies `ms * s_pit_hz` in `uint32_t` before dividing by 1000 | a wait of 5,000,000 ms at 1000 Hz from tick 0: the product wraps to 705,032,704 and the wait lasts 705,032 ticks instead of 5,000,000 | compute the delay without wrapping the product | not executed | Pit.WaitProductWrapsAsWritten | Pit.WaitLasts |
| drivers/pit.c:16-71 | `timer_wait_ms` cuts the 64-bit tick count to 32 bits for its start and target | 2^32 ticks counted and a one-second wait at 100 Hz: the wait returns at once instead of after 100 ticks | count the target from the full tick count | not executed | Pit.WaitSkippedAfterWrap | Pit.WaitLasts |
| include/cmos.h:17 | the `bcd2hex` macro names its argument twice, so the CMOS register is read twice | the seconds turn from 59 to 00 between the two reads: the value read is 50 (or 9) | read the register once and decode that value | not executed | Cmos.TornSecondsAsWritten | Cmos.RawTimeAgrees |
| lib/time.c:90-138 | after a '%' the interpreter takes the next byte without testing for the terminator | a format ending in '%': the NUL is copied and the scan goes on past it | stop at the terminator | not executed | TimeFormat.TrailingPercentReadsPastEnd | TimeFormat.FormatAgrees |
| fs.py:109-122 | the escapes are emitted inside single quotes, where NASM takes backslashes verbatim | a content holding a quote ends the string after the backslash; a NUL is stored as the two characters backslash and '0' | emit the data in backquotes, with escapes the assembler decodes back to the original bytes | not executed | FsGen.SingleQuotesTakeEscapesVerbatim | FsGen.BackquotedRoundTrip |
| lib/time.c:97-132 | `data` formats its fields with "%04d" and "%02d", but the kernel's own `vsprintf` (lib/stdio.c:106-147) knows no flags or widths: "%0" writes nothing and "4d" or "2d" is copied | `data("%Y")` in 2025 writes "4d" followed by whatever `temp_str` held after its first two bytes | the zero-padded "2025" | not executed | TimeFormat.YearFieldAsWritten | TimeFormat.StandardFieldsReadBack |
| fs/file.c:75-147 | `sys_write`, `sys_read`, `sys_close` and `sys_lseek` index `file_table` with `fd_table[fd]` without checking fd against the 32 slots or the entry against -1 | `close(3)` then `read(3)`: `fd_table[3]` is -1 and `file_table[-1]` is read; a second `close(3)` turns -1 into 0xFFFFFFFF and frees `file_table[0xFFFFFFFF]` | return -1 for a descriptor that names no open entry | not executed | Files.ClosedDescriptorIndexesOutside | Files.FileTable.SysRead |
| drivers/net/net.c:244-318 | the drain loop runs while the page is not CURR with no bound, and the sanity checks accept a header whose next page is its own page | a ring header at page 0x46 with length 60 and next page 0x46, with CURR elsewhere: the loop re-reads page 0x46 for ever | end the drain after a bounded number of frames, as the frame bound of the model does | not executed | Net.SelfLinkedSpinsAsWritten | Net.DrainCatchesUp |
