/** Programs on which the instruction set falls short of what is wanted of it: the inputs on the failing
    side of PanicsAreAtomic and SkippingEqualsFallingThrough. */
module MachineExamples {
  import opened Bytes
  import opened PageTables
  import opened Machine
  import opened MachineLaws
  import opened StackLaws

  function Zeros(n: nat): (r: seq<u8>)
    ensures |r| == n && forall k | 0 <= k < n :: r[k] == 0
  {
    if n == 0 then [] else Zeros(n - 1) + [0]
  }

  // A processor about to run `code`, which lies at address 0 of an otherwise empty memory.
  function Running(code: seq<u8>, sp: u32, count: u32): (s: Cpu)
    requires |code| <= 8
    ensures s.ip == 0 && s.l.sp == sp && s.l.regs[31] == count && s.l.regs[1] == 0
    ensures forall k | 0 <= k < RAM :: s.mem[k] == if k < |code| then code[k] else 0
  {
    Cpu(0, 0, 0,
        Locals(sp, 0, 0, [0, 0, 0, 0, 0, 0, 0, 0, 0, 0, 0, 0, 0, 0, 0, 0, 0, 0, 0, 0, 0, 0, 0, 0, 0, 0, 0, 0, 0, 0, 0, count]),
        Flags(false, false, false, false), Modes(false, false, false), code + Zeros(RAM - |code|))
  }

  // A half word that decodes to an instruction is executed as that instruction.
  lemma ExecutesAs(env: Env, s: Cpu, raw: u16, i: Instr, op: Op, size: Size)
    requires Read(env, s.mem, Half, s.ip) == Got(raw) && Decoded(raw) == Some((i, op, size))
    ensures i.Valid() && Fetched(env, s) == Some((i, op, size)) && Execute(env, s) == ExecuteAs(env, s, i, op, size)
  {
    hide Read, Decode, ExecuteAs;
  }

  const LOOP_FAR: seq<u8> := [0x03, 0xA8, 0xFF, 0xFF, 0xFF, 0xFF]
  const RLOOP_FAR: seq<u8> := [0x03, 0xA9, 0xFF, 0xFF, 0xFF, 0xFF]
  const RETI: seq<u8> := [0x00, 0xBA]
  const BRK: seq<u8> := [0x00, 0x20]
  const IN_OFFSET: seq<u8> := [0x81, 0x8B, 1, 1]

  lemma LoopDecodes()
    ensures Decoded(0xA803) == Some((Instr(0xA8, 0, 0, 0, 3), Loop(false), Word))
  {
  }

  lemma RloopDecodes()
    ensures Decoded(0xA903) == Some((Instr(0xA9, 0, 0, 0, 3), Loop(true), Word))
  {
  }

  lemma RetiDecodes()
    ensures Decoded(0xBA00) == Some((Instr(0xBA, 0, 0, 0, 0), Reti, Word))
  {
  }

  lemma BrkDecodes()
    ensures Decoded(0x2000) == Some((Instr(0x20, 0, 0, 0, 0), Brk, Byte))
  {
  }

  lemma InDecodes()
    ensures Decoded(0x8B81) == Some((Instr(0x8B, 0, 1, 0, 1), In, Word))
  {
  }

  // LOOP [0xFFFFFFFF] with a count of 7: the target cannot be read, and the count is down all the same.
  lemma LoopFaultDamages(env: Env)
    ensures var s := Running(LOOP_FAR, 0, 7);
            var r := Execute(env, s);
            r == Panic(r.s, FaultRd) && r.s.l.regs[31] == 6 && !OnlyScratch(s, r.s)
  {
    hide Running, Read, Decoded, Execute, ExecuteAs;
    var s := Running(LOOP_FAR, 0, 7);
    ReadsHalf(env, s.mem, 0);
    ReadsWord(env, s.mem, 2);
    LoopDecodes();
    ExecutesAs(env, s, 0xA803, Instr(0xA8, 0, 0, 0, 3), Loop(false), Word);
    LoopOutOfReach(env, s, Instr(0xA8, 0, 0, 0, 3), false);
  }

  // The same RLOOP.
  lemma RloopFaultDamages(env: Env)
    ensures var s := Running(RLOOP_FAR, 0, 7);
            var r := Execute(env, s);
            r == Panic(r.s, FaultRd) && r.s.l.regs[31] == 6 && !OnlyScratch(s, r.s)
  {
    hide Running, Read, Decoded, Execute, ExecuteAs;
    var s := Running(RLOOP_FAR, 0, 7);
    ReadsHalf(env, s.mem, 0);
    ReadsWord(env, s.mem, 2);
    RloopDecodes();
    ExecutesAs(env, s, 0xA903, Instr(0xA9, 0, 0, 0, 3), Loop(true), Word);
    LoopOutOfReach(env, s, Instr(0xA9, 0, 0, 0, 3), true);
  }

  lemma LoopOutOfReach(env: Env, s: Cpu, i: Instr, relative: bool)
    requires i == Instr(if relative then 0xA9 else 0xA8, 0, 0, 0, 3) && s.ip == 0 && s.l.regs[31] == 7
    requires Read(env, s.mem, Word, 2) == Got(0xFFFF_FFFF)
    ensures var r := ExecuteAs(env, s, i, Loop(relative), Word);
            r == Panic(r.s, FaultRd) && r.s.l.regs[31] == 6 && !OnlyScratch(s, r.s)
  {
    hide ReadBytes, Body, ShouldSkip;
    assert ShouldSkip(s.(ipm := Wrap(s.ip + 2)), 0) == Ok(s.(ipm := Wrap(s.ip + 2)), false) by {
      NeverSkips(s.(ipm := Wrap(s.ip + 2)));
    }
  }

  lemma NeverSkips(s: Cpu)
    ensures ShouldSkip(s, 0) == Ok(s, false)
  {
  }

  // RETI with one byte of stack: the flags are popped, the instruction pointer cannot be.
  lemma RetiFaultDamages(env: Env)
    requires env.beyond(RAM).NoByte?
    ensures var s := Running(RETI, RAM - 1, 0);
            var r := Execute(env, s);
            r == Panic(r.s, FaultRd) && r.s.l.sp == RAM && !OnlyScratch(s, r.s)
  {
    hide Running, Read, Decoded, Execute, ExecuteAs;
    var s := Running(RETI, RAM - 1, 0);
    ReadsHalf(env, s.mem, 0);
    ReadsByte(env, s.mem, RAM - 1);
    NothingAboveRam(env, s.mem);
    RetiDecodes();
    ExecutesAs(env, s, 0xBA00, Instr(0xBA, 0, 0, 0, 0), Reti, Word);
    RetiAtTheTop(env, s, Instr(0xBA, 0, 0, 0, 0));
  }

  lemma NothingAboveRam(env: Env, m: Ram)
    requires env.beyond(RAM).NoByte?
    ensures Read(env, m, Word, RAM).Fault?
  {
  }

  lemma RetiAtTheTop(env: Env, s: Cpu, i: Instr)
    requires i == Instr(0xBA, 0, 0, 0, 0) && s.ip == 0 && s.l.sp == RAM - 1
    requires Read(env, s.mem, Byte, RAM - 1) == Got(0) && Read(env, s.mem, Word, RAM).Fault?
    ensures var r := ExecuteAs(env, s, i, Reti, Word);
            r == Panic(r.s, FaultRd) && r.s.l.sp == RAM && !OnlyScratch(s, r.s)
  {
    hide Read, ShouldSkip, UnpackFlags;
    NeverSkips(s.(ipm := Wrap(s.ip + 2)));
  }

  // BRK: the instruction pointer is past it when it panics.
  lemma BrkMovesOn(env: Env)
    ensures var s := Running(BRK, 0, 0);
            var r := Execute(env, s);
            r == Panic(r.s, Debugger) && r.s.ip == 2 && !OnlyScratch(s, r.s)
  {
    hide Running, Read, Decoded, Execute, ShouldSkip;
    var s := Running(BRK, 0, 0);
    ReadsHalf(env, s.mem, 0);
    BrkDecodes();
    ExecutesAs(env, s, 0x2000, Instr(0x20, 0, 0, 0, 0), Brk, Byte);
    NeverSkips(s.(ipm := Wrap(s.ip + 2)));
  }

  // IN r1, [r1 + displacement]: five bytes long, of which execution moves over four.
  lemma InLandsInsideItself(env: Env)
    requires env.ioRead(0x0101_8B81).Some?
    ensures var s := Running(IN_OFFSET, 0, 0);
            var i := Instr(0x8B, 0, 1, 0, 1);
            && Fetched(env, s) == Some((i, In, Word)) && Runs(env, s, In) && Length(i, In, Word) == 5
            && Execute(env, s).Ok? && Execute(env, s).s.ip == 4
  {
    hide Running, Read, Decoded, Execute, ExecuteAs, Fetched;
    var s := Running(IN_OFFSET, 0, 0);
    ReadsHalf(env, s.mem, 0);
    ReadsWord(env, s.mem, 0);
    ReadsByte(env, s.mem, 2);
    ReadsByte(env, s.mem, 3);
    InDecodes();
    ExecutesAs(env, s, 0x8B81, Instr(0x8B, 0, 1, 0, 1), In, Word);
    InMovesFour(env, s, Instr(0x8B, 0, 1, 0, 1));
  }

  lemma InMovesFour(env: Env, s: Cpu, i: Instr)
    requires i == Instr(0x8B, 0, 1, 0, 1) && s.ip == 0 && s.l.regs[1] == 0
    requires Read(env, s.mem, Byte, 2) == Got(1) && Read(env, s.mem, Byte, 3) == Got(1)
    requires Read(env, s.mem, Word, 0) == Got(0x0101_8B81) && env.ioRead(0x0101_8B81).Some?
    ensures ExecuteAs(env, s, i, In, Word).Ok? && ExecuteAs(env, s, i, In, Word).s.ip == 4
  {
    hide Read, ShouldSkip, Merge;
    NeverSkips(s.(ipm := Wrap(s.ip + 2)));
  }
}
