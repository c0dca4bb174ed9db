/** What the stack gives back: reads after writes, PUSH and POP, CALL and RET, vm_raise and RETI. */
module StackLaws {
  import opened Bytes
  import opened PageTables
  import opened Machine
  import opened MachineLaws

  // ---------- reads after writes ----------

  ghost predicate Agree(m: Ram, n: Ram, lo: nat, hi: nat) {
    forall y | lo <= y < hi && y < RAM :: m[y] == n[y]
  }

  lemma {:induction false} ReadBytesAgree(env: Env, m: Ram, n: Ram, a: u32, k: nat)
    requires a + k <= RAM && k <= 4 && Agree(m, n, a, a + k)
    ensures ReadBytes(env, m, a, k) == ReadBytes(env, n, a, k)
    decreases k
  {
    if k > 1 {
      ReadBytesAgree(env, m, n, a + 1, k - 1);
    }
  }

  lemma ReadAgree(env: Env, m: Ram, n: Ram, size: Size, a: u32)
    requires a + size.Width() <= RAM && Agree(m, n, a, a + size.Width())
    ensures Read(env, m, size, a) == Read(env, n, size, a)
  {
    ReadBytesAgree(env, m, n, a, size.Width());
  }

  // The place in RAM of the k-th byte written at a: 32-bit addresses are folded into RAM.
  function Slot(a: u32, k: nat): nat {
    Wrap(a + k) % RAM
  }

  ghost predicate Touches(size: Size, a: u32, y: nat) {
    exists k: nat :: k < size.Width() && Slot(a, k) == y
  }

  lemma WriteTouches(mem: Ram, size: Size, a: u32, v: u32, y: nat)
    requires v < size.Modulus() && y < RAM && !Touches(size, a, y)
    ensures Write(mem, size, a, v)[y] == mem[y]
  {
    var w := size.Width();
    assert Wrap(a) == a && Wrap(Wrap(a + 1) + 1) == Wrap(a + 2) && Wrap(Wrap(a + 2) + 1) == Wrap(a + 3);
    assert Slot(a, 0) != y && (w > 1 ==> Slot(a, 1) != y);
    assert w > 2 ==> Slot(a, 2) != y && Slot(a, 3) != y;
  }

  // What a read inside RAM is made of.
  lemma ReadsHalf(env: Env, m: Ram, a: u32)
    requires a + 2 <= RAM
    ensures var lo: int, hi: int := m[a], m[a + 1]; Read(env, m, Half, a) == Got(lo + 0x100 * hi)
  {
    assert ReadBytes(env, m, a + 1, 1) == Got(m[a + 1]);
  }

  lemma ReadsWord(env: Env, m: Ram, a: u32)
    requires a + 4 <= RAM
    ensures var b0: int, b1: int, b2: int, b3: int := m[a], m[a + 1], m[a + 2], m[a + 3];
            Read(env, m, Word, a) == Got(b0 + 0x100 * b1 + 0x1_0000 * b2 + 0x100_0000 * b3)
  {
    var b1: int, b2: int, b3: int := m[a + 1], m[a + 2], m[a + 3];
    assert ReadBytes(env, m, a + 3, 1) == Got(b3);
    assert ReadBytes(env, m, a + 2, 2) == Got(b2 + 0x100 * b3);
    assert ReadBytes(env, m, a + 1, 3) == Got(b1 + 0x100 * b2 + 0x1_0000 * b3);
  }

  lemma ReadsByte(env: Env, m: Ram, a: u32)
    requires a < RAM
    ensures Read(env, m, Byte, a) == Got(m[a])
  {
  }

  lemma PairWritten(mem: Ram, a: u32, v: u16)
    requires a + 2 <= RAM
    ensures var m := WritePair(mem, a, v);
            && m[a] == v % 0x100 && m[a + 1] == v / 0x100
            && forall y | 0 <= y < RAM && y != a && y != a + 1 :: m[y] == mem[y]
  {
  }

  lemma WordWritten(mem: Ram, a: u32, v: u32)
    requires a + 4 <= RAM
    ensures var m := Write(mem, Word, a, v);
            && m[a] == v % 0x1_0000 % 0x100 && m[a + 1] == v % 0x1_0000 / 0x100
            && m[a + 2] == v / 0x1_0000 % 0x100 && m[a + 3] == v / 0x1_0000 / 0x100
  {
    hide WritePair;
    PairWritten(mem, a, v % 0x1_0000);
    assert Wrap(a + 2) == a + 2;
    PairWritten(WritePair(mem, a, v % 0x1_0000), a + 2, v / 0x1_0000);
  }

  lemma HalvesAreBytes(v: u32)
    ensures v == v % 0x1_0000 % 0x100 + 0x100 * (v % 0x1_0000 / 0x100)
                 + 0x1_0000 * (v / 0x1_0000 % 0x100) + 0x100_0000 * (v / 0x1_0000 / 0x100)
  {
    var lo, hi := v % 0x1_0000, v / 0x1_0000;
    assert lo == lo % 0x100 + 0x100 * (lo / 0x100);
    assert hi == hi % 0x100 + 0x100 * (hi / 0x100);
  }

  lemma ReadBack(env: Env, mem: Ram, size: Size, a: u32, v: u32)
    requires v < size.Modulus() && a + size.Width() <= RAM
    ensures Read(env, Write(mem, size, a, v), size, a) == Got(v)
  {
    hide Read, WritePair, WriteByte;
    var m := Write(mem, size, a, v);
    match size
    case Byte =>
      ByteWritten(mem, a, v);
      ReadsByte(env, m, a);
    case Half =>
      PairWritten(mem, a, v);
      ReadsHalf(env, m, a);
    case Word =>
      WordWritten(mem, a, v);
      ReadsWord(env, m, a);
      HalvesAreBytes(v);
  }

  lemma ByteWritten(mem: Ram, a: u32, v: u8)
    requires a < RAM
    ensures WriteByte(mem, a, v)[a] == v
  {
  }

  // Beyond RAM a read does not depend on memory, and it cannot cross the end of RAM when nothing
  // answers there.
  lemma {:induction false} ReadBytesBeyond(env: Env, m: Ram, n: Ram, a: u32, k: nat)
    requires a + k <= WORD && RAM < a + k && k <= 4 && env.beyond(RAM).NoByte?
    ensures a >= RAM ==> ReadBytes(env, m, a, k) == ReadBytes(env, n, a, k)
    ensures a < RAM ==> ReadBytes(env, m, a, k).Fault?
    decreases k
  {
    if k > 1 {
      ReadBytesBeyond(env, m, n, a + 1, k - 1);
    }
  }

  // Exactly the addresses inside RAM give back whatever is written to them.
  lemma WritesAreReadBack(env: Env, mem: Ram, size: Size, a: u32)
    requires env.beyond(RAM).NoByte?
    ensures (forall v: u32 | v < size.Modulus() :: Read(env, Write(mem, size, a, v), size, a) == Got(v))
            <==> a + size.Width() <= RAM
  {
    if a + size.Width() <= RAM {
      forall v: u32 | v < size.Modulus() ensures Read(env, Write(mem, size, a, v), size, a) == Got(v) {
        ReadBack(env, mem, size, a, v);
      }
    } else {
      var m, n := Write(mem, size, a, 0), Write(mem, size, a, 1);
      if a + size.Width() < WORD {
        ReadBytesBeyond(env, m, n, a, size.Width());
      }
      assert Read(env, m, size, a) != Got(0) || Read(env, n, size, a) != Got(1);
    }
  }

  // Where a byte written at an address below 0, or in RAM, ends up.
  lemma SlotOf(x: int, k: nat)
    requires -64 <= x && x + k < RAM
    ensures Slot(Wrap(x), k) == if x + k < 0 then RAM + x + k else x + k
  {
    if x < 0 {
      assert Wrap(x) == WORD + x;
      Folded(x + k);
    }
  }

  lemma Folded(y: int)
    requires -64 <= y < RAM
    ensures Wrap(WORD + y) % RAM == if y < 0 then RAM + y else y
  {
    if y < 0 {
      assert WORD + y == RAM * (WORD / RAM - 1) + (RAM + y);
    }
  }

  // A write of at most four bytes that starts at x, counted from the bottom of memory and possibly
  // below it, leaves alone what lies above it and is read in full from RAM.
  lemma ReadAbove(env: Env, mem: Ram, size: Size, x: int, v: u32, size': Size, lo: nat)
    requires v < size.Modulus() && -64 <= x && x + size.Width() <= lo && lo + size'.Width() <= RAM
    requires x < 0 ==> lo + size'.Width() <= 64
    ensures Read(env, Write(mem, size, Wrap(x), v), size', lo) == Read(env, mem, size', lo)
  {
    hide Read, Write, ReadBytes, Slot;
    forall y: nat | lo <= y < lo + size'.Width()
      ensures Write(mem, size, Wrap(x), v)[y] == mem[y]
    {
      forall k: nat | k < size.Width() ensures Slot(Wrap(x), k) != y {
        SlotOf(x, k);
      }
      WriteTouches(mem, size, Wrap(x), v, y);
    }
    ReadAgree(env, Write(mem, size, Wrap(x), v), mem, size', lo);
  }

  // ---------- PUSH and POP ----------

  lemma PopUndoesPush(env: Env, s: Cpu, size: Size, v: u32)
    requires v < size.Modulus() && size.Width() <= s.l.sp <= RAM
    ensures Pop(env, Push(s, size, v), size) == Ok(WithSp(Push(s, size, v), s.l.sp), v)
  {
    hide Read, Write;
    var a := s.l.sp - size.Width();
    assert Wrap(a) == a && Wrap(a + size.Width()) == s.l.sp;
    ReadBack(env, s.mem, size, a, v);
  }

  // POP gives back every pushed value exactly when the pushed bytes lie in RAM.  The reset value 0
  // of the stack pointer is not such a stack.
  lemma PushAndPopNeedRam(env: Env, s: Cpu, size: Size)
    requires env.beyond(RAM).NoByte?
    ensures (forall v: u32 | v < size.Modulus() ::
               Pop(env, Push(s, size, v), size) == Ok(WithSp(Push(s, size, v), s.l.sp), v))
            <==> size.Width() <= s.l.sp <= RAM
  {
    hide Read, Write;
    var a := Wrap(s.l.sp - size.Width());
    assert a + size.Width() <= RAM <==> size.Width() <= s.l.sp <= RAM;
    WritesAreReadBack(env, s.mem, size, a);
    if size.Width() <= s.l.sp <= RAM {
      forall v: u32 | v < size.Modulus()
        ensures Pop(env, Push(s, size, v), size) == Ok(WithSp(Push(s, size, v), s.l.sp), v)
      {
        PopUndoesPush(env, s, size, v);
      }
    } else {
      var v: u32 :| v < size.Modulus() && Read(env, Write(s.mem, size, a, v), size, a) != Got(v);
      assert Pop(env, Push(s, size, v), size) != Ok(WithSp(Push(s, size, v), s.l.sp), v);
    }
  }

  // At the reset value of the stack pointer the push goes to the top of the address space and the pop
  // faults, whatever was pushed.
  lemma PopAtResetFaults(env: Env, s: Cpu, size: Size, v: u32)
    requires v < size.Modulus() && s.l.sp == 0
    ensures Pop(env, Push(s, size, v), size) == Panic(Push(s, size, v).(exop := WORD - size.Width()), FaultRd)
  {
    hide Write;
  }

  // ---------- CALL and RET ----------

  // A RET that finds the stack as the call left it resumes right after the call's operand, with
  // the stack pointer as before the call.
  lemma RetResumesAfterCall(env: Env, s: Cpu, t: Cpu, relative: bool)
    requires 4 <= s.l.sp <= RAM
    requires Runs(env, s, Call(relative)) && Execute(env, s).Ok?
    requires var s1 := Execute(env, s).s;
             t.l.sp == s1.l.sp && Agree(t.mem, s1.mem, s.l.sp - 4, s.l.sp)
    requires Runs(env, t, Ret)
    ensures var (i, op, size) := Fetched(env, s).value;
            var r := Execute(env, t);
            r.Ok? && r.s.ip == Wrap(s.ip + Length(i, op, size)) && r.s.l.sp == s.l.sp
  {
    hide Execute, Load, Decoded, ShouldSkip, Length;
    var (i, op, size) := Fetched(env, s).value;
    var ret := CallPushes(env, s, i, relative, size);
    RetPops(env, t, Execute(env, s).s.mem, ret);
  }

  lemma CallPushes(env: Env, s: Cpu, i: Instr, relative: bool, size: Size) returns (ret: u32)
    requires 4 <= s.l.sp <= RAM
    requires Runs(env, s, Call(relative)) && Execute(env, s).Ok? && Fetched(env, s) == Some((i, Call(relative), size))
    ensures ret == Wrap(s.ip + Length(i, Call(relative), size))
    ensures var s1 := Execute(env, s).s;
            s1.l.sp == s.l.sp - 4 && Read(env, s1.mem, Word, s1.l.sp) == Got(ret)
  {
    hide Execute, Body, Fetched, Length, Read;
    var s0 := s.(ipm := Wrap(s.ip + 2));
    RunsBody(env, s, i, Call(relative), size);
    ret := CallBody(env, s0, s.ip, i, relative, size);
    CallLength(s.ip, i, relative, size);
  }

  // An instruction past its condition.
  lemma RunsBody(env: Env, s: Cpu, i: Instr, op: Op, size: Size)
    requires Fetched(env, s) == Some((i, op, size)) && NotSkipped(s, i) && !op.Nop? && !op.Loop?
    ensures i.Valid()
    ensures Execute(env, s)
            == match Body(env, s.(ipm := Wrap(s.ip + 2)), s.ip, i, op, size)
               case Ok(s1, _) => Ok(s1.(ip := s1.ipm), ())
               case Panic(s1, err) => Panic(s1, err)
  {
    hide Read, Decoded, Body, Wrap;
  }

  lemma CallBody(env: Env, s: Cpu, base: u32, i: Instr, relative: bool, size: Size) returns (ret: u32)
    requires i.Valid() && 4 <= s.l.sp <= RAM && Body(env, s, base, i, Call(relative), size).Ok?
    ensures ret == Wrap(s.ipm + FirstLength(i, Call(relative), size))
    ensures var s1 := Body(env, s, base, i, Call(relative), size).s;
            s1.l.sp == s.l.sp - 4 && Read(env, s1.mem, Word, s1.l.sp) == Got(ret)
  {
    hide Read, Write, Operand, JumpTarget, Wrap;
    ret := Source(env, s, size, i.source, i.offset, true).s.ipm;
    ReadBack(env, s.mem, Word, s.l.sp - 4, ret);
    WrapNothing(s.l.sp - 4);
  }

  lemma CallLength(ip: u32, i: Instr, relative: bool, size: Size)
    ensures Wrap(Wrap(ip + 2) + FirstLength(i, Call(relative), size)) == Wrap(ip + Length(i, Call(relative), size))
  {
    WrapAgain(ip, 2, FirstLength(i, Call(relative), size));
  }

  lemma RetPops(env: Env, t: Cpu, mem: Ram, ret: u32)
    requires t.l.sp + 4 <= RAM && Agree(t.mem, mem, t.l.sp, t.l.sp + 4)
    requires Read(env, mem, Word, t.l.sp) == Got(ret) && Runs(env, t, Ret)
    ensures var r := Execute(env, t);
            r.Ok? && r.s.ip == ret && r.s.l.sp == t.l.sp + 4
  {
    hide Read, Execute, Fetched, Wrap;
    var (i, op, size) := Fetched(env, t).value;
    RunsBody(env, t, i, op, size);
    ReadAgree(env, t.mem, mem, Word, t.l.sp);
    WrapNothing(t.l.sp + 4);
  }

  // ---------- vm_raise and RETI ----------

  // The handler's address always lies in RAM, so an interrupt or exception that is not masked is
  // taken.
  lemma RaiseTakesUnlessMasked(env: Env, s: Cpu, vector: u16)
    ensures Raise(env, s, vector).1 == if s.f.interrupt || vector >= 256 then Taken else NoInterrupts
  {
    var a := 4 * vector;
    assert ReadBytes(env, s.mem, a + 3, 1).Got?;
    assert ReadBytes(env, s.mem, a + 2, 2).Got?;
    assert ReadBytes(env, s.mem, a + 1, 3).Got?;
  }

  // What the handler finds: the address in its place of the table, interrupts off, the first stack, and
  // everything else as it was.
  lemma RaiseEnters(env: Env, s: Cpu, vector: u16)
    requires s.f.interrupt || vector >= 256
    ensures var (r, taken) := Raise(env, s, vector);
            var a := 4 * vector;
            var b0: int, b1: int, b2: int, b3: int := s.mem[a], s.mem[a + 1], s.mem[a + 2], s.mem[a + 3];
            && taken == Taken && r.ip == b0 + 0x100 * b1 + 0x1_0000 * b2 + 0x100_0000 * b3
            && r.f == Flags(s.f.zero, s.f.carry, false, false) && r.m == Modes(true, false, s.m.mmu)
            && r.l.regs == s.l.regs && r.l.fp == s.l.fp && r.l.esp == s.l.esp && r.ipm == s.ipm
            && r.exop == if vector >= 256 then 0 else s.exop
  {
    hide Read, Write, PackFlags;
    ReadsWord(env, s.mem, 4 * vector);
  }

  lemma RaiseMasked(env: Env, s: Cpu, vector: u16)
    requires !s.f.interrupt && vector < 256
    ensures Raise(env, s, vector) == (s, NoInterrupts)
  {
  }

  lemma FlagsRoundTrip(f: Flags)
    ensures UnpackFlags(PackFlags(f)) == f
  {
  }

  lemma FlagBits(b: u8)
    ensures UnpackFlags(b) == Flags(Bit(b, 0), Bit(b, 1), Bit(b, 2), Bit(b, 3))
  {
    assert b / 2 / 2 == b / 4 && b / 4 / 2 == b / 8;
    assert Bit(b, 1) == Bit(b / 2, 0) && Bit(b, 2) == Bit(b / 2 / 2, 0) && Bit(b, 3) == Bit(b / 2 / 2 / 2, 0);
  }

  // The byte the flags are pushed as.
  lemma FlagsByte(f: Flags)
    ensures var b := PackFlags(f);
            b < 0x10 && Bit(b, 0) == f.zero && Bit(b, 1) == f.carry && Bit(b, 2) == f.interrupt && Bit(b, 3) == f.swapSp
  {
    hide UnpackFlags, Bit;
    FlagsRoundTrip(f);
    FlagBits(PackFlags(f));
  }

  // The stack that vm_raise builds on, and the least room it needs below its top for what RETI
  // takes back: the flags and the instruction pointer, and the old stack pointer in swapped mode.
  function RaiseBase(s: Cpu): u32 {
    if s.f.swapSp then s.l.esp else s.l.sp
  }

  function RaiseRoom(s: Cpu): nat {
    if s.f.swapSp then 9 else 5
  }

  // What vm_raise writes, from the top of its stack down.
  function RaisedMemory(s: Cpu, vector: u16): Ram {
    var top := RaiseBase(s) - RaiseRoom(s);
    var m1 := if s.f.swapSp then Write(s.mem, Word, Wrap(top + 5), s.l.sp) else s.mem;
    var m2 := Write(m1, Word, Wrap(top + 1), s.ip);
    var m3 := Write(m2, Byte, Wrap(top), PackFlags(s.f));
    Write(m3, Word, Wrap(top - 4), if vector >= 256 then s.exop else vector)
  }

  lemma FrameWrites(s: Cpu)
    requires RaiseRoom(s) <= RaiseBase(s)
    ensures var top, f := RaiseBase(s) - RaiseRoom(s), Framed(s);
            var m1 := if s.f.swapSp then Write(s.mem, Word, Wrap(top + 5), s.l.sp) else s.mem;
            && f.mem == Write(Write(m1, Word, Wrap(top + 1), s.ip), Byte, Wrap(top), PackFlags(s.f))
            && f.l.sp == top && f.exop == s.exop
  {
    hide Write, PackFlags;
    var base := RaiseBase(s);
    assert Wrap(base - 4) == base - 4 && Wrap(base - 5) == base - 5;
    if s.f.swapSp {
      assert Wrap(base - 8) == base - 8 && Wrap(base - 9) == base - 9;
    }
  }

  lemma RaiseWrites(env: Env, s: Cpu, vector: u16)
    requires RaiseRoom(s) <= RaiseBase(s) && Raise(env, s, vector).1 == Taken
    ensures var r := Raise(env, s, vector).0;
            r.mem == RaisedMemory(s, vector) && Wrap(r.l.sp + 4) == RaiseBase(s) - RaiseRoom(s)
  {
    hide Read, Write, PackFlags, Framed;
    FrameWrites(s);
  }

  // The words vm_raise leaves for RETI, read at the top of the stack once the operand is dropped.
  lemma RaisedFrame(env: Env, s: Cpu, vector: u16)
    requires RaiseRoom(s) <= RaiseBase(s) <= RAM
    ensures var top := RaiseBase(s) - RaiseRoom(s);
            var mem := RaisedMemory(s, vector);
            && Read(env, mem, Byte, top) == Got(PackFlags(s.f))
            && Read(env, mem, Word, top + 1) == Got(s.ip)
            && (s.f.swapSp ==> Read(env, mem, Word, top + 5) == Got(s.l.sp))
            && (top >= 4 ==> Read(env, mem, Word, top - 4) == Got(if vector >= 256 then s.exop else vector))
  {
    hide Read, Write, PackFlags;
    var top := RaiseBase(s) - RaiseRoom(s);
    var m1 := if s.f.swapSp then Write(s.mem, Word, Wrap(top + 5), s.l.sp) else s.mem;
    var m2 := Write(m1, Word, Wrap(top + 1), s.ip);
    var m3 := Write(m2, Byte, Wrap(top), PackFlags(s.f));
    var operand := if vector >= 256 then s.exop else vector;
    assert Wrap(top + 1) == top + 1 && Wrap(top) == top && (s.f.swapSp ==> Wrap(top + 5) == top + 5);
    if top >= 4 {
      WrapNothing(top - 4);
      ReadBack(env, m3, Word, top - 4, operand);
    }
    ReadBack(env, m2, Byte, top, PackFlags(s.f));
    ReadAbove(env, m3, Word, top - 4, operand, Byte, top);
    ReadBack(env, m1, Word, top + 1, s.ip);
    ReadAbove(env, m2, Byte, top, PackFlags(s.f), Word, top + 1);
    ReadAbove(env, m3, Word, top - 4, operand, Word, top + 1);
    if s.f.swapSp {
      ReadBack(env, s.mem, Word, top + 5, s.l.sp);
      ReadAbove(env, m1, Word, top + 1, s.ip, Word, top + 5);
      ReadAbove(env, m2, Byte, top, PackFlags(s.f), Word, top + 5);
      ReadAbove(env, m3, Word, top - 4, operand, Word, top + 5);
    }
  }

  // A handler that drops the 4-byte operand and leaves the rest of its stack alone returns with
  // RETI to the interrupted instruction pointer, stack pointer and flags, in either stack mode.
  lemma RetiUndoesRaise(env: Env, s: Cpu, vector: u16, t: Cpu)
    requires RaiseRoom(s) <= RaiseBase(s) <= RAM && Raise(env, s, vector).1 == Taken
    requires var r := Raise(env, s, vector).0;
             && t.l.sp == Wrap(r.l.sp + 4)
             && Agree(t.mem, r.mem, RaiseBase(s) - RaiseRoom(s), RaiseBase(s))
    requires Runs(env, t, Reti)
    ensures var x := Execute(env, t);
            x.Ok? && x.s.ip == s.ip && x.s.l.sp == s.l.sp && x.s.f == s.f
  {
    hide Raise, Execute, RaisedMemory, Read, PackFlags;
    RaiseWrites(env, s, vector);
    RaisedFrame(env, s, vector);
    RetiPops(env, s, RaisedMemory(s, vector), t);
  }

  // An instruction without operands that runs is its body between fetch and commit.
  lemma RunsPlain(env: Env, t: Cpu, op: Op)
    requires Runs(env, t, op) && KindOf(op) == NoOperand && !op.Nop?
    ensures var body := ExecPlain(env, t.(ipm := Wrap(t.ip + 2)), op);
            body.Ok? ==> Execute(env, t) == Ok(body.s.(ip := body.s.ipm), ())
  {
    hide Execute, Fetched, ExecPlain, Wrap;
    var (i, _, size) := Fetched(env, t).value;
    RunsBody(env, t, i, op, size);
  }

  lemma RetiPops(env: Env, s: Cpu, mem: Ram, t: Cpu)
    requires RaiseRoom(s) <= RaiseBase(s) <= RAM && t.l.sp == RaiseBase(s) - RaiseRoom(s)
    requires Agree(t.mem, mem, t.l.sp, RaiseBase(s)) && Runs(env, t, Reti)
    requires Read(env, mem, Byte, t.l.sp) == Got(PackFlags(s.f)) && Read(env, mem, Word, t.l.sp + 1) == Got(s.ip)
    requires s.f.swapSp ==> Read(env, mem, Word, t.l.sp + 5) == Got(s.l.sp)
    ensures var x := Execute(env, t);
            x.Ok? && x.s.ip == s.ip && x.s.l.sp == s.l.sp && x.s.f == s.f
  {
    hide Read, PackFlags, Execute, ExecPlain, Runs;
    var sp := t.l.sp;
    ReadAgree(env, t.mem, mem, Byte, sp);
    ReadAgree(env, t.mem, mem, Word, sp + 1);
    if s.f.swapSp {
      ReadAgree(env, t.mem, mem, Word, sp + 5);
    }
    PlainReti(env, t.(ipm := Wrap(t.ip + 2)), s);
    RunsPlain(env, t, Reti);
  }

  lemma PlainReti(env: Env, t: Cpu, s: Cpu)
    requires RaiseRoom(s) <= RaiseBase(s) <= RAM && t.l.sp == RaiseBase(s) - RaiseRoom(s)
    requires Read(env, t.mem, Byte, t.l.sp) == Got(PackFlags(s.f)) && Read(env, t.mem, Word, t.l.sp + 1) == Got(s.ip)
    requires s.f.swapSp ==> Read(env, t.mem, Word, t.l.sp + 5) == Got(s.l.sp)
    ensures var x := ExecPlain(env, t, Reti);
            x.Ok? && x.s.ipm == s.ip && x.s.l.sp == s.l.sp && x.s.f == s.f
  {
    hide Read, PackFlags, UnpackFlags;
    var sp := t.l.sp;
    FlagsRoundTrip(s.f);
    assert Wrap(sp + 1) == sp + 1 && Wrap(sp + 1 + 4) == sp + 5;
  }
}
