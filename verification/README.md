# What is modelled

A fox32 computer on a small AVR board, and the system software that runs on it: the demand-paged guest
memory and the CPU interpreter above it, the RYFS file system of the boot ROM, the kernel heap, the kernel's
cooperative scheduler, and the printing and parsing of integers.  Code that changes state step by step is a
class with the same fields and loops; each method is proved against a value-level meaning, and the laws are
proved about that meaning.

| files | content |
|---|---|
| `Bytes.dfy`, `Bitmaps.dfy`, `Sequences.dfy` | machine integers, bits, bitmaps seen as sets, sequences without repetition |
| `Devices.dfy` | SPI RAM with its one sequential read stream, and the card with its cursor |
| `PageTables.dfy`, `GuestMemory.dfy` | paging: `Contents`, a flat array of 1 MiB, behind frames, swap and three tables |
| `Machine.dfy`, `MachineLaws.dfy`, `StackLaws.dfy` | the interpreter's steps on a flat memory, as functions, and the laws of panics, lengths, the stack and interrupts |
| `Fox32.dfy`, `Shifts.dfy` | the emulator's own address space and arithmetic unit |
| `Manual.dfy`, `Instructions.dfy`, `AluLaws.dfy`, `InstructionSet.dfy` | the encoding described a second time, over the bytes of memory, and for each opcode what it does from the bytes at the instruction pointer to the state afterwards |
| `MachineExamples.dfy` | programs on which an instruction falls short of what is wanted of it |
| `Interpreter.dfy` | the interpreter over paged memory; every method does to `View()` what `Machine` says |
| `RunLaws.dfy` | a run as a number of single instructions |
| `RyfsDisk.dfy`, `RyfsTable.dfy`, `RyfsGrowth.dfy`, `Ryfs.dfy` | the disk format, the invariant that ties it to a table of files, growth and writes, and the driver |
| `RyfsStray.dfy`, `RyfsExamples.dfy` | what a write leaves on the disk when it misses the end of its file, and disks on which the driver falls short of what is wanted of it |
| `HeapBlocks.dfy`, `Heap.dfy` | the heap's blocks as values, and the allocator over one array of bytes |
| `TaskRing.dfy`, `Scheduler.dfy` | tasks in the order they will run, and the queue array that holds them |
| `Radix.dfy` | PrintInt and string_to_int |

`dafny verify dfyconfig.toml` checks the whole project.

## Assumptions

- SPI RAM is a linear array of 131072 bytes.  A sequential read runs on across the 64 KiB bank boundary, and a
  random access needs the stream to be closed (a precondition of the model's device, met by every caller).
- The card is an array of 512-byte sectors with a cursor; getting and setting the position round-trips.  What
  the swap region holds at the start is the initial guest memory.
- The I/O callbacks and whatever lies beyond RAM are parameters (`Env`); `Fox32.Environment` gives the emulator's
  own.  So are the results of shifts at counts where C leaves them open or the width of the host's int decides:
  shifts by the number of bits or more, rotates by 0 or by that number or more, and BSE, BCL and BTS of a bit from
  15 on.  A panic is a result value that keeps the state it was raised in.
- Reading a port is a function of its number.  The serial port of the original consumes its input, which an IN
  does before its target may still panic; what is proved of panics is about processor and memory only.
- Operands of `|` and `+` that read memory are evaluated from left to right.
- The scheduler's `bse`, `bcl` and `bts` set, clear and test bits 0 to 31 of the ID bitmap.  The emulator
  computes them with the host's int, which may be too narrow for IDs 16 to 31.
- The disk behind RYFS is inserted, holds fewer than 65536 sectors and is the only one.

## Where the code differs from what it says

- The comment at cpu.c:614-616 wants an instruction that faults halfway to leave no damage.  This holds for
  every instruction except a BRK, LOOP, RLOOP or RETI whose condition holds (RETI only once its first pop
  succeeded); INT does keep it.  `MachineLaws.PanicsAreAtomic` states the exact condition, and
  `MachineExamples.LoopFaultDamages`, `RloopFaultDamages`, `RetiFaultDamages` and `BrkMovesOn` give a program
  for each.
- The instruction pointer after a skipped instruction equals the one after executing it except for an executed
  IN through a register pointer with displacement, which reads its source without the displacement byte:
  `MachineExamples.InLandsInsideItself`.
- A push at the reset value 0 of the stack pointer writes to the top of RAM, and the pop after it faults:
  `StackLaws.PopAtResetFaults`; `StackLaws.PushAndPopNeedRam` has the exact condition for the round trip.
- ryfs_add_size_to_file finds the end of a file exactly under `RyfsGrowth.AddsWell`, and ryfs_write writes what
  it is given exactly under `RyfsGrowth.WritesWell`, which covers every write inside the reported size and every
  append at the end of the file.  `Ryfs.Driver.WriteUntilAstray` runs any write up to its first round that misses
  the end of the file, meets such a round if and only if the write does not satisfy `WritesWell`, and shows that
  the disk then holds the written file for no table of files.
  - In a partial last sector a round misses from a sector boundary other than 0.  One link too many leads to
    sector 0: the boot sector is overwritten, and no file changes (`RyfsStray.PartialStays`).
  - In a full last sector every round misses.  From the start of that sector, or in a file of one sector, a new
    sector with the bytes is linked behind it, and the file is longer than it was to be.  From inside the sector
    of a longer file the new sector takes the place of the last one in the chain: the file reads as zeros up to
    the bytes, the old last sector is in no chain, the directory counts one sector too many, and the disk is a
    disk of no table of files at all (`RyfsStray.FullBranches`).
  - `RyfsExamples.WriteAtABoundary`, `WriteOverAFullSector` and `WriteInsideAFullSector` show all three on a new
    disk.
- ryfs_get_size counts a full last sector as empty, so it reports 506 bytes less for sizes that are multiples of
  506.  The table of files keeps the real size.
- In ryfs_create looking up the link of a sector refills the shared buffer, in which the magic byte was just
  put, with a bitmap sector.  A sector of the new file begins with 0xFF all the same exactly when it is the last
  one or its link modulo 4096 is 8 or more (`RyfsTable.MagicKept`, ensured by `Ryfs.Driver.Create`); on a new
  disk the first sector of a longer file does not: `RyfsExamples.LosesMagic`.
- ryfs_find_free_entry looks at 30 of the 31 entries: `RyfsExamples.ThirtyFiles` has a disk with entry 31 and
  half of its sectors free on which no file can be created.
- PrintInt and string_to_int undo each other for all integers exactly in the radices 8 to 36: below 8 the
  11 digits overflow, and above 36 a digit is printed as a character that parsing skips.

## Model

| member | source | states |
|---|---|---|
| Bytes.FindFirstClear | disk.c:24-32 | the lowest clear bit of a byte, or 0xFF exactly when all eight are set |
| Bitmaps.SetBitAdds | disk.c:121-122 | setting bit n of a bitmap adds exactly n to the set it stands for |
| Bitmaps.ClearBitRemoves | disk.c:63-64 | clearing bit n removes exactly n |
| Bitmaps.Mark | disk.c:120-122 | the in-place update of a bitmap array adds one member |
| Bitmaps.Unmark | disk.c:62-64 | the in-place update removes one member |
| PageTables.ClearedTables | cpu.c:148-159 | cleared tables describe a memory that lies wholly in swap |
| PageTables.FlushKeepsContents | disk.c:58-80 | writing a frame to the swap sectors of its page and forgetting the page changes no byte of guest memory and keeps the bijection |
| PageTables.LoadKeepsContents | disk.c:120-144 | copying a page from swap into a free frame changes no byte of guest memory and keeps the bijection |
| PageTables.WriteKeepsBacking | cpu.c:336-353 | a byte put into the frame of a resident page is that one byte of guest memory and no other |
| PageTables.FlushKeepsBijection | disk.c:62-80 | resident pages and used frames stay in bijection, absent pages map to 0 |
| PageTables.LoadKeepsBijection | disk.c:120-144 | the same for a page that becomes resident |
| GuestMemory.Memory.constructor | cpu.c:148-159 | initially no page is resident and guest memory is the swap region |
| GuestMemory.Memory.CloseStream | cpu.c:331-334 | afterwards no SPI stream is open and the flag agrees |
| GuestMemory.Memory.SpiRead8 | cpu.c:212-246 | the sequential-read shortcut is invisible: the byte at the given address, for any earlier reads, with the open stream always one past the last address |
| GuestMemory.Memory.SeekPage | disk.c:58-60 | the card stands at the first swap sector of the page |
| GuestMemory.Memory.CopyOut | disk.c:65-77 | the eight sectors at the cursor hold the frame, across the bank boundary too; no other sector changes |
| GuestMemory.Memory.CopyIn | disk.c:131-141 | the frame holds the eight sectors at the cursor; no other frame changes |
| GuestMemory.Memory.FindPageInFrame | disk.c:44-57 | the page in a used frame other than 0 is found; "page not found?" is unreachable |
| GuestMemory.Memory.FlushPhysicalPageOut | disk.c:34-84 | one frame is given up, its page is no longer resident, guest memory and the card position are unchanged |
| GuestMemory.Memory.FindFreeFrame | disk.c:99-102 | the lowest free frame, or none exactly when all 32 are used |
| GuestMemory.Memory.EvictFrames | disk.c:104-108 | exactly frames 20 to 27 are given up, guest memory unchanged |
| GuestMemory.Memory.ObtainFrame | disk.c:94-118 | a lowest free frame after at most one retry; "flushed but still no page?" is unreachable |
| GuestMemory.Memory.PutPageIn | disk.c:120-144 | the page becomes resident in the given frame, guest memory unchanged |
| GuestMemory.Memory.LoadPageIn | disk.c:86-146 | with a free frame nothing else moves; with none exactly frames 20 to 27 are dropped and the page goes to frame 20; guest memory unchanged |
| GuestMemory.Memory.Locate | cpu.c:252-262 | the page is resident and the physical address is its frame's, guest memory unchanged |
| GuestMemory.Memory.ReadRam | cpu.c:247-265 | a read below 1 MiB returns the byte of the flat memory and changes none |
| GuestMemory.Memory.Write8 | cpu.c:330-354 | a write changes exactly the byte at the address modulo 1 MiB |
| Fox32.OnlyRomBeyondRam | cpu.c:266-303 | beyond RAM exactly ROM and the four jump table windows answer, the last three only up to the end of their image in ROM, and which byte of ROM each shows; nothing answers just above RAM |
| MachineLaws.PanicsAreAtomic | cpu.c:597-949 | an instruction that panics has changed nothing but scratch state, if and only if it does not commit early |
| MachineLaws.SkippingEqualsFallingThrough | cpu.c:507-569 | a non-branching instruction ends right after its encoding, skipped or executed, if and only if it is not an executed IN through a register pointer with displacement |
| StackLaws.ReadBack | cpu.c:305-364 | a write followed by a read of the same width inside RAM gives the value back |
| StackLaws.WritesAreReadBack | cpu.c:305-364 | every value is read back if and only if all its bytes lie in RAM |
| StackLaws.ReadAbove | cpu.c:355-364 | a write below an address, even one that wraps below 0, does not change what is read there |
| StackLaws.PopUndoesPush | cpu.c:366-393 | pop after push gives the value and the stack pointer back |
| StackLaws.PushAndPopNeedRam | cpu.c:366-393 | this holds for every value if and only if the pushed bytes lie in RAM |
| StackLaws.PopAtResetFaults | cpu.c:366-393 | with the stack pointer at its reset value 0 a push succeeds and the pop after it faults, for every value and width |
| StackLaws.RetResumesAfterCall | cpu.c:597-612 | RET resumes right after the CALL's operand with the old stack pointer |
| StackLaws.RaiseTakesUnlessMasked | cpu.c:979-987 | an interrupt or exception that is not masked is taken; the handler's address never faults |
| StackLaws.RaiseEnters | cpu.c:987-1013 | the handler entered is the word of the vector's own four bytes in memory as it was; interrupts and the stack swap are off, halted is set and softHalted clear, and no register, zero or carry flag changes; exop is 0 after an exception |
| StackLaws.RaiseMasked | cpu.c:979-982 | a masked interrupt changes nothing |
| StackLaws.FlagsRoundTrip | cpu.c:183-194 | packing and unpacking give back all four flags |
| StackLaws.FlagsByte | cpu.c:183-188 | zero, carry, interrupt and swap are bits 0 to 3 of the packed byte |
| StackLaws.RaiseWrites | cpu.c:989-1008 | where vm_raise puts flags, instruction pointer, old stack pointer and operand, in both stack modes |
| StackLaws.RaisedFrame | cpu.c:989-1008 | these words are read back at the top of the stack once the operand is dropped |
| StackLaws.RetiUndoesRaise | cpu.c:792-800 | RETI after vm_raise restores instruction pointer, stack pointer and flags, in both stack modes |
| Instructions.FieldsOf | cpu.c:134-144 | the two bytes of an instruction are split into the six fields they were put together from |
| Instructions.Conditions | cpu.c:480-505 | each condition runs in exactly the flag states listed by `Manual.Meets`, and 7 panics |
| Instructions.OperandIs | cpu.c:395-416 | a register, register pointer with or without displacement, literal or address operand has the value described by `Manual`, from the bytes at its address |
| Instructions.AssignIs | cpu.c:437-478 | assigning to an operand stores the bytes at the address it names; the upper bytes of a register stay |
| Instructions.MovWorks | cpu.c:635-639 | MOV puts the source into the target and changes nothing else |
| Instructions.MovzWorks | cpu.c:835-840 | MOVZ puts it there as a whole word with upper bytes 0 |
| Instructions.RtaWorks | cpu.c:771-785 | RTA puts the instruction's address plus the signed source into the target |
| Instructions.InWorks | cpu.c:758-762 | IN puts the port's word into the target, its source read without displacement; a port that cannot be read panics |
| Instructions.PushWorks | cpu.c:629-633 | PUSH puts the bytes of its operand below the old stack pointer, which drops by its size |
| Instructions.PopWorks | cpu.c:618-627 | POP stores the bytes at the stack pointer where the old stack pointer says, then raises it |
| Instructions.JumpWorks | cpu.c:571-579 | JMP goes to its operand, RJMP that many bytes, signed, from the instruction |
| Instructions.CallWorks | cpu.c:597-612 | the same of CALL and RCALL, which push the address behind their operand |
| Instructions.LoopWorks | cpu.c:581-595 | LOOP and RLOOP count register 31 down and go on behind their operand exactly when it reaches 0 |
| InstructionSet.AddWorks | cpu.c:853-855 | ADD leaves the sum modulo the size in its target; the carry says exactly that the sum does not fit, zero that 0 was stored |
| InstructionSet.SubWorks | cpu.c:856-858 | SUB leaves the difference; the carry is exactly the borrow |
| InstructionSet.MulWorks | cpu.c:859-861 | MUL leaves the product; the carry says that it does not fit |
| InstructionSet.ImulWorks | cpu.c:862-864 | IMUL leaves the product of the two's complement integers; the carry says that it is out of their range |
| InstructionSet.DivWorks | cpu.c:866-868 | DIV leaves the quotient and the old carry |
| InstructionSet.RemWorks | cpu.c:869-871 | REM leaves the remainder |
| InstructionSet.IdivWorks | cpu.c:872-874 | IDIV leaves the quotient of the signed integers, rounded towards 0 |
| InstructionSet.IremWorks | cpu.c:875-877 | IREM leaves the remainder with the sign of the dividend |
| InstructionSet.DivisionByZero | cpu.c:697-700 | all four panic on a divisor of 0 and change nothing but scratch state |
| InstructionSet.AndWorks | cpu.c:879-881 | AND, bit by bit |
| InstructionSet.OrWorks | cpu.c:885-887 | OR, bit by bit |
| InstructionSet.XorWorks | cpu.c:882-884 | XOR, bit by bit |
| InstructionSet.ShiftsWork | cpu.c:889-911 | SLA, SRL, SRA, ROL, ROR, BSE and BCL with a byte for the count: which bit of the old target each bit of the new one is |
| InstructionSet.NotWorks | cpu.c:641-648 | NOT leaves the complement |
| InstructionSet.IncWorks | cpu.c:846-848 | INC adds 1, 2, 4 or 8; the carry says that the sum does not fit |
| InstructionSet.DecWorks | cpu.c:849-851 | DEC subtracts it; the carry is the borrow |
| InstructionSet.CmpWorks | cpu.c:707-715 | CMP and ICMP set zero exactly for equal operands and the carry exactly for a borrow, or a signed overflow, and change nothing else |
| InstructionSet.BtsWorks | cpu.c:717-724 | BTS sets zero exactly when the bit is clear |
| InstructionSet.OutWorks | cpu.c:763-769 | OUT gives its first operand to the port of its second |
| InstructionSet.NopWorks | cpu.c:735-739 | NOP moves on by two bytes, whatever its condition |
| InstructionSet.HaltWorks | cpu.c:741-747 | HALT sets softHalted |
| InstructionSet.IseWorks | cpu.c:802-806 | ISE lets interrupts in |
| InstructionSet.IclWorks | cpu.c:807-811 | ICL masks them |
| InstructionSet.MseWorks | cpu.c:924-928 | MSE sets the MMU flag |
| InstructionSet.MclWorks | cpu.c:929-933 | MCL clears it |
| InstructionSet.BrkWorks | cpu.c:749-756 | BRK moves on and panics |
| InstructionSet.RetWorks | cpu.c:787-791 | RET goes to the word at the stack pointer and drops it |
| InstructionSet.RetiWorks | cpu.c:792-800 | RETI takes the flags from four bits of the first byte, then the instruction pointer, and the stack pointer when the swap bit is set |
| InstructionSet.IntWorks | cpu.c:934-941 | INT enters the handler whose address is the vector's word in memory, unless it is masked |
| InstructionSet.SkipWorks | cpu.c:507-569 | an instruction whose condition is not met moves on by its length and changes nothing |
| InstructionSet.NoSuchOpcode | cpu.c:943-945 | every opcode that is not in the list, or not in that size, panics with the half word as exception operand |
| InstructionSet.NoSuchCondition | cpu.c:503-504 | condition 7 panics in every instruction but NOP |
| InstructionSet.NoSuchRegister | cpu.c:196-210 | an operand that names a register above 34 panics |
| InstructionSet.LiteralTarget | cpu.c:452-455 | an instruction that would assign to a literal panics |
| InstructionSet.FiveAndSeven | cpu.c:853-855 | the bytes of an ADD of 5 to register 0, which holds 7, leave 12 there |
| MachineExamples.LoopFaultDamages | cpu.c:581-595 | a LOOP whose target cannot be read panics with r31 counted down |
| MachineExamples.RloopFaultDamages | cpu.c:581-595 | the same of an RLOOP |
| MachineExamples.RetiFaultDamages | cpu.c:792-800 | a RETI on one byte of stack panics with the stack pointer moved |
| MachineExamples.BrkMovesOn | cpu.c:749-756 | a BRK panics with the instruction pointer moved past it |
| MachineExamples.InLandsInsideItself | cpu.c:758-762 | an IN of five bytes runs and leaves the instruction pointer at its fifth |
| Interpreter.Vm.constructor | cpu.c:148-159 | the reset state |
| Interpreter.Vm.Read8 | cpu.c:247-304 | on paged memory, the flat read, its ROM windows and its faults |
| Interpreter.Vm.Read16 | cpu.c:305-315 | the same for two bytes, which may lie in two pages |
| Interpreter.Vm.Read32 | cpu.c:316-328 | the same for four bytes |
| Interpreter.Vm.Write8 | cpu.c:330-354 | the flat write |
| Interpreter.Vm.Write16 | cpu.c:355-358 | two flat writes, even when loading the second page evicts the first |
| Interpreter.Vm.Write32 | cpu.c:359-364 | four flat writes |
| Interpreter.Vm.ExecuteNext | cpu.c:366-949 | one instruction on paged memory does to the processor on flat memory what `Machine.Execute` does, and panics exactly when it does; `Instructions` and `InstructionSet` say for each opcode what that is.  A method for each helper and group of cases does the same for its part |
| Interpreter.Vm.RaiseVector | cpu.c:979-1016 | vm_raise on paged memory does what `Machine.Raise` does on flat memory, masked and failed cases included; StackLaws.RaiseEnters, RaiseMasked and RaiseWrites say what that is |
| Interpreter.Vm.Resume | cpu.c:958-977 | whole runs of instructions on paged memory equal runs on flat memory, with the same count executed; RunLaws.ResumeRuns says what a run is |
| RunLaws.ResumeRuns | cpu.c:958-977 | a run is n single instructions, none of them after a halt; n is the count, or the last one halted, or the next one panics, which halts and is the only way to fail; n is reported, and the whole count after a HALT |
| RyfsDisk.CeilCountsSectors | smolrom/RYFS.okm:527-538 | the rounding of ryfs_ceil counts the sectors of a file |
| RyfsDisk.CeilFindsBit | smolrom/RYFS.okm:604-612 | mark_used and mark_free look for a sector's bit where it is |
| RyfsDisk.UsedAfter | smolrom/RYFS.okm:604-637 | changing that bit adds or removes exactly that sector |
| RyfsDisk.FoundFree | smolrom/RYFS.okm:551-566 | the first clear bit found is the least sector the bitmap does not have |
| RyfsDisk.FirstByteFull | smolrom/RYFS.okm:551-566 | the bitmap sector in which the least free sector is found begins with 0xFF if and only if that sector's number modulo 4096 is 8 or more |
| RyfsTable.ReplaceEntry | smolrom/RYFS.okm:61-180 | whatever changes one directory entry, its old and new chain and their bits, keeps the whole invariant and every other file |
| RyfsTable.Agreement | smolrom/RYFS.okm:61-235 | under the invariant chains are pairwise disjoint, have the recorded number of sectors, and the used set is exactly the reserved sectors plus all chains |
| RyfsTable.CreatedEntry | smolrom/RYFS.okm:77-130 | a finished chain with its directory entry is a file of zeros in the least previously free sectors, in order; which of them begin with the magic byte |
| RyfsTable.DeletedEntry | smolrom/RYFS.okm:156-179 | a cleared entry whose chain was freed is a free entry, and exactly those sectors are free again |
| RyfsTable.BuiltMore | smolrom/RYFS.okm:95-128 | the link stored in one round is the sector the next round obtains |
| RyfsTable.ReadMore | smolrom/RYFS.okm:274-302 | one more stretch inside a sector continues the joined payloads |
| RyfsGrowth.AddedSize | smolrom/RYFS.okm:445-469 | the number of links ryfs_add_size_to_file follows, for all offsets: at the end of the file that of its last sector; elsewhere one too many when the last sector is partial, and with a full last sector one too few, or that of the last sector when the offset is on a sector boundary other than 0 |
| RyfsGrowth.WriteRound | smolrom/RYFS.okm:338-374 | a round that stays inside the reported size leaves a write that is right exactly when the whole was; one that extends the file is right exactly when the whole write is |
| RyfsGrowth.WrongRound | smolrom/RYFS.okm:346-348 | a round that does not find its sector extends the file, and all before it stayed inside the file and overwrote it |
| RyfsGrowth.PatchedData | smolrom/RYFS.okm:350-357 | patching a payload overwrites exactly those bytes of the file |
| RyfsGrowth.OverwriteMore | smolrom/RYFS.okm:338-374 | the rounds together are one overwrite |
| RyfsGrowth.GrownEntry | smolrom/RYFS.okm:481-516 | linking a free sector behind the last one keeps the invariant, every other file and the old data |
| RyfsGrowth.ResizedEntry | smolrom/RYFS.okm:517-524 | a new size in the last sector does the same |
| RyfsGrowth.WrittenIsReadBack | smolrom/RYFS.okm:247-375 | reading where a write put its bytes gives them back |
| RyfsGrowth.FormattedDisk | smolrom/RYFS.okm:210-235 | zeroed entries and the marked reserved sectors are an empty table of files |
| Ryfs.Driver.FindFreeSector | smolrom/RYFS.okm:542-566 | the least absent sector number, or 0 |
| Ryfs.Driver.MarkUsed | smolrom/RYFS.okm:604-619 | the used set gains exactly the sector, no other sector of the disk changes |
| Ryfs.Driver.MarkFree | smolrom/RYFS.okm:622-637 | the used set loses exactly the sector |
| Ryfs.Driver.Open | smolrom/RYFS.okm:25-59 | the file of that name, or 0 exactly when there is none |
| Ryfs.Driver.FindFreeEntry | smolrom/RYFS.okm:570-585 | the first unused of entries 1 to 30, or 0 |
| Ryfs.Driver.AllocateSector | smolrom/RYFS.okm:97-125 | one sector of a chain: least free, zero payload, linked to the next least free one; it begins with the magic byte if and only if it is the last or its link modulo 4096 is 8 or more |
| Ryfs.Driver.BuildChain | smolrom/RYFS.okm:95-128 | a chain of the wanted length of distinct, zeroed sectors, the least free ones in order, ended by link 0 and the rest size; which of them begin with the magic byte |
| Ryfs.Driver.WriteEntry | smolrom/RYFS.okm:76-92 | first sector, count and name of one entry; every other entry reads the same |
| Ryfs.Driver.AddFile | smolrom/RYFS.okm:76-128 | the given free entry becomes a file of zeros in the least free sectors, every other file as before; a sector of it begins with the magic byte if and only if it is the last or its successor modulo 4096 is 8 or more |
| Ryfs.Driver.MakeFile | smolrom/RYFS.okm:71-130 | a new file of zeros in the first free entry, or 0 and no change when entries 1 to 30 are taken |
| Ryfs.Driver.Create | smolrom/RYFS.okm:61-131 | the same after deleting a file of that name; every other file keeps name and data |
| Ryfs.Driver.FreeChain | smolrom/RYFS.okm:165-179 | exactly the sectors of the chain are freed and zeroed |
| Ryfs.Driver.Delete | smolrom/RYFS.okm:133-180 | the file and exactly its sectors go; nothing changes when the struct names no file |
| Ryfs.Driver.GetSize | smolrom/RYFS.okm:382-399 | the size, less 506 when the last sector is full |
| Ryfs.Driver.Traverse | smolrom/RYFS.okm:259-270 | the sector before the n-th link; one link too many leads to sector 0 |
| Ryfs.Driver.Read | smolrom/RYFS.okm:247-306 | exactly the bytes at the seek offset of the joined payloads, and the offset advances |
| Ryfs.Driver.AddToCount | smolrom/RYFS.okm:450-463 | exactly the file's own entry counts one sector more |
| Ryfs.Driver.LinkSector | smolrom/RYFS.okm:481-516 | the least free sector, zeroed, linked behind the given one, whose payload is kept and whose size field is cleared |
| Ryfs.Driver.AddSize | smolrom/RYFS.okm:434-525 | under `AddsWell` the file grows to the end of the write, keeps its data, and its own sector is returned; otherwise, with a partial last sector, sector 0 is returned and only its size field changes, and with a full one a free sector, which is linked behind the last sector or, from inside that, behind the one before, and the directory counts one sector more |
| Ryfs.Driver.PatchSector | smolrom/RYFS.okm:350-360 | one stretch of a file is overwritten, every other byte of every file stays |
| Ryfs.Driver.WritePiece | smolrom/RYFS.okm:339-371 | one round: extend if needed, then overwrite |
| Ryfs.Driver.Write | smolrom/RYFS.okm:308-375 | the file's data is overwritten at the seek offset, growing past its end if need be; every other file keeps its data |
| Ryfs.Driver.PatchBytes | smolrom/RYFS.okm:350-357 | one stretch of any sector is replaced by source bytes, header and all else kept |
| Ryfs.Driver.StrayPiece | smolrom/RYFS.okm:339-357 | all that a round does to the disk when it misses the end of the file: the bytes are in the boot sector, of which nothing else but the size field changes, or in a new sector linked as by ryfs_add_size_to_file, among zeros; the old sectors of the file keep their payload |
| Ryfs.Driver.WriteUntilAstray | smolrom/RYFS.okm:308-375 | any write that has sectors to grow into, run up to its first stray round: it meets one if and only if it does not satisfy `WritesWell`; all before that round is written, the round does what StrayPiece says, for no table of files does the disk hold what was to be written so far, and it is a disk of some table of files if and only if the last sector was partial, the round began on a sector boundary or the file had one sector |
| RyfsStray.BranchedFile | smolrom/RYFS.okm:477-513 | after a stray round on a full last sector the file, as the links of the disk now have it, is its old data up to the sector that was taken for the last, then zeros, then the bytes; all other files are as they were |
| RyfsStray.PartialStays | smolrom/RYFS.okm:517-524 | after one on a partial last sector the invariant holds as before and no file has changed |
| RyfsStray.FullBranches | smolrom/RYFS.okm:445-513 | chain, directory count and all file contents after one on a full last sector; the invariant holds of some table of files if and only if the round began on a sector boundary or the file had one sector |
| RyfsStray.CutLosesInvariant | smolrom/RYFS.okm:477-513 | with the last sector cut out of its chain the invariant holds of no table of files |
| RyfsStray.NeverWritten | smolrom/RYFS.okm:338-374 | after a stray round of either kind the disk holds the written file for no table of files |
| RyfsExamples.LosesMagic | smolrom/RYFS.okm:102-108 | on a new disk of 16 sectors the first sector of a file of 1000 bytes, linked to sector 4, does not begin with the magic byte |
| RyfsExamples.WriteAtABoundary | smolrom/RYFS.okm:465-479 | on such a disk with a new file of 1000 bytes, 506 bytes written at offset 506 go astray: they are in the boot sector |
| RyfsExamples.WriteOverAFullSector | smolrom/RYFS.okm:465-513 | 506 bytes written at the start of a new file of 506 bytes: its sector stays zero, and a second one with the bytes is linked behind it |
| RyfsExamples.WriteInsideAFullSector | smolrom/RYFS.okm:465-513 | 10 bytes written at offset 600 of a new file of 1012 bytes leave a disk of no table of files |
| RyfsExamples.ThirtyFiles | smolrom/RYFS.okm:570-585 | with 30 files a 31st is refused, though entry 31 and 31 sectors are free |
| Ryfs.Driver.WriteDirectory | smolrom/RYFS.okm:186-209 | the directory sector of an empty disk |
| Ryfs.Driver.Format | smolrom/RYFS.okm:182-235 | an empty table of files; exactly the sectors after the bitmap are free |
| HeapBlocks.Starting | smolos/kernel/allocator.asm:11-37 | the two initial blocks satisfy the heap invariant and hold all its bytes |
| HeapBlocks.Unlinking | smolos/kernel/allocator.asm:88-102 | taking a block off the list keeps the links of all others and every block handed out |
| HeapBlocks.Carving | smolos/kernel/allocator.asm:122-141 | splitting off the tail of a block keeps the blocks disjoint, the regions covered and the total of all sizes |
| HeapBlocks.Relinking | smolos/kernel/allocator.asm:190-209 | pushing a block at the head keeps the list doubly linked and acyclic |
| HeapBlocks.PayloadSet | smolos/kernel/allocator.asm:104-113 | writing inside a payload disturbs no header and no link |
| Heap.Allocator.Initialize | smolos/kernel/allocator.asm:11-37 | the heap invariant, two free blocks, nothing handed out |
| Heap.Allocator.FindBlock | smolos/kernel/allocator.asm:50-78 | the first block in list order that is large enough, or 0 exactly when there is none |
| Heap.Allocator.Unlink | smolos/kernel/allocator.asm:88-103 | the block leaves the list; no block handed out changes |
| Heap.Allocator.Carve | smolos/kernel/allocator.asm:122-141 | the tail becomes a block of its own; no block handed out changes |
| Heap.Allocator.Clear | smolos/kernel/allocator.asm:104-113 | the requested bytes are zero, and nothing else changes |
| Heap.Allocator.Allocate | smolos/kernel/allocator.asm:44-153 | 0 exactly when no free block holds the request and its header; otherwise the first fit, carved or whole, zero-filled, with every live block untouched |
| Heap.Allocator.Free | smolos/kernel/allocator.asm:185-214 | the block becomes the head of the free list; every other live block is untouched |
| Heap.GrantIsApart | smolos/kernel/allocator.asm:79-141 | the granted block holds the request, lies apart from every other block, and what is left after carving exceeds 28 bytes |
| TaskRing.YieldsKeepTasks | smolos/kernel/task.asm:36-46 | yielding loses and repeats no task |
| TaskRing.PartOfATurn | smolos/kernel/task.asm:36-46 | the tasks that have yielded line up behind the others in order, each with its ID and blocks, and the instruction and stack pointer it yielded with |
| TaskRing.FullTurn | smolos/kernel/task.asm:36-46 | after as many yields as tasks every task is back in its place, with the instruction and stack pointer it yielded with |
| TaskRing.EachRunsOnce | smolos/kernel/task.asm:36-46 | in any stretch of as many yields as tasks each task runs exactly once |
| TaskRing.TasksFit | smolos/kernel/task.asm:279-288 | matching IDs bound the tasks by 32, and by 31 while an ID is free, so the 640 bytes suffice |
| TaskRing.YieldKeepsIds | smolos/kernel/task.asm:36-46 | yielding keeps IDs distinct and the bitmap matching |
| TaskRing.NewTaskKeepsIds | smolos/kernel/task.asm:12-25 | so does a new task with an unused ID |
| TaskRing.EndKeepsIds | smolos/kernel/task.asm:152-155 | so does the end of the current task |
| Scheduler.Tasks.constructor | smolos/kernel/task.asm:280-288 | the state before the first task |
| Scheduler.Tasks.Load | smolos/kernel/task.asm:245-256 | the five words of a record |
| Scheduler.Tasks.Store | smolos/kernel/task.asm:258-269 | exactly the five words of a record change |
| Scheduler.Tasks.Enqueue | smolos/kernel/task.asm:22-25 | one more task at the end of the queue |
| Scheduler.Tasks.ShiftDown | smolos/kernel/task.asm:173-187 | every record but the first moves down by one |
| Scheduler.Tasks.SwitchToNext | smolos/kernel/task.asm:167-194 | the first task of the queue runs, the others keep their order |
| Scheduler.Tasks.YieldTask | smolos/kernel/task.asm:36-46 | the current task goes to the end with its return address and stack pointer saved, the next one goes on where it was, and the queue never overflows |
| Scheduler.Tasks.NewTask | smolos/kernel/task.asm:12-27 | the new task joins, its ID is marked, the caller yields |
| Scheduler.Tasks.EndUnmarked | smolos/kernel/task.asm:162-166 | the current task is dropped, or the scheduler starves exactly when it was alone; the IDs still match if it was the unmarked task 0 |
| Scheduler.Tasks.EndCurrent | smolos/kernel/task.asm:152-166 | the same, with its ID unmarked and exactly its code and stack blocks freed in the heap |
| Scheduler.Tasks.GetUnusedId | smolos/kernel/task.asm:201-211 | the least ID from 1 that no task has, or 0 when all are used |
| Radix.StoreDigits | smolos/applications/ted/OS.okm:82-91 | the digits, the last one first, inside the array |
| Radix.PrintInt | smolos/applications/ted/OS.okm:73-96 | the numeral in the radix; the loop ends for every radix from 2 on |
| Radix.StringToInt | smolrom/integer.asm:10-62 | the sum of the digits before the terminator, each times its power of the radix, modulo 2^32; other characters are skipped |
| Radix.ParseIsPositional | smolrom/integer.asm:53-58 | multiplying and adding digit by digit gives that sum |
| Radix.DigitsOfBothCases | smolrom/integer.asm:31-52 | a character is digit d below 36 exactly when it is character d of the digits and letters in either case |
| Radix.NumeralIsRead | smolrom/integer.asm:14-57 | parsing a numeral gives the integer back, in radices up to 36 |
| Radix.AnyCaseIsRead | smolrom/integer.asm:31-57 | the same with any of its letters in lower case |
| Radix.PrintedUpper | smolos/applications/ted/OS.okm:85-89 | digits are printed in upper case |
| Radix.FewDigits | smolos/applications/ted/OS.okm:74-91 | from radix 8 on no 32-bit integer needs more than 11 digits |
| Radix.ManyDigits | smolos/applications/ted/OS.okm:74-91 | below radix 8 some do |
| Radix.RoundTripsExactly | smolos/applications/ted/OS.okm:73-96 | printing fits the array and parsing gives the integer back, for all integers, if and only if the radix is 8 to 36 |

## Left out

- Ryfs.Driver.Create: does not model running out of sectors midway; it asks for enough of them, as the code does without checking, and for a size above 0.
- Ryfs.Driver.MakeFile: asks for enough free sectors, like Create.
- Ryfs.Driver.AddFile: asks for enough free sectors, like Create.
- Ryfs.Driver.BuildChain: asks for enough free sectors, like Create.
- Ryfs.Driver.AllocateSector: asks for the sectors its round takes and links to.
- Ryfs.Driver.Format: asks for at least one sector after the bitmap; without one there is no room for a file.
- Ryfs.Driver.Write: asks for `WritesWell` and for enough free sectors; Ryfs.Driver.WriteUntilAstray covers the other writes.
- Ryfs.Driver.WriteUntilAstray: asks for an offset inside the file or at its end and for enough free sectors, and stops after the first stray round; the original goes on from the link of the sector it strayed into.
- Ryfs.Driver.WritePiece: asks for a round that finds its sector; Ryfs.Driver.StrayPiece is the other kind.
- Ryfs.Driver.PatchSector: asks for a sector of the file; Ryfs.Driver.PatchBytes patches any sector.
- Ryfs.Driver.Read: asks for at least one byte and for the bytes to lie in the chain; zero-length copies run 2^32 times in the original.
- Heap.Allocator.Allocate: asks for a request of at least 1 byte and no 32-bit overflow of the request and its header.
- Scheduler.Tasks.NewTask: asks for an unused ID from 1 on; boot code that starts a raw disk image as task 0 is not covered.
- Radix.PrintInt: asks for a numeral of at most 11 digits, the size of its array, and a radix of at least 2.
- Interpreter.Vm.ExecuteNext: takes the results of the arithmetic unit from the environment; `Fox32.Alu` is the emulator's, and InstructionSet has the laws of both together.
- Interpreter.Vm.Resume: the jump buffers of setjmp, and vm_recover with the safe push and pop around it.
- The fields of fox32_vm_t are split between `GuestMemory.Memory` and `Interpreter.Vm`; the page directory, debug and headless fields are never used and are left out.
- InstructionSet.ShiftsWork: not for counts at which C or the width of the host's int decides, which `AluLaws.Plainly` excludes.
- InstructionSet.BtsWorks: not for bits from 15 on, for the same reason.
- InstructionSet.IdivWorks: the one signed division that overflows wraps here; C leaves it open.
- The laws of the single instructions are about instructions and operands whose bytes lie in RAM.  Those in ROM go through the same reads, of which `Fox32.OnlyRomBeyondRam` says which byte they give; faults are covered by `MachineLaws.PanicsAreAtomic`.
- Disk transfers by the guest (disk.c:203-231): they reach into SPI RAM without loading the page or closing the stream.
- The exactness of total_heap_size: a whole-block grant adds the requested size and free subtracts the block's; the methods state both updates.
- ryfs_seek, ryfs_tell, ryfs_read_whole_file and ryfs_get_file_list: short members over the routines above.
- The registers that save_state_and_yield_task pushes, sleep_task and the ID queries.
- The event queues, which shift records down as the scheduler does.
- Terminal output, windows, the shell, the editor, stream drivers, boot code, bus.c and main.c: user interface and plumbing.
