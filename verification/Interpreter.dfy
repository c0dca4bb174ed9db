/** The interpreter of cpu.c over demand-paged memory.  Every method is proved to do to View(), the
    processor on a flat memory, exactly what the functions of module Machine say: page loads,
    evictions and the sequential-read shortcut never show. */
module Interpreter {
  import opened Bytes
  import opened GuestMemory
  import opened PageTables
  import opened Machine

  // What a routine that may vm_panic returns.
  datatype Result<+T> = Success(value: T) | Failure(err: Err) {
    predicate IsFailure() {
      Failure?
    }

    function PropagateFailure<U>(): Result<U>
      requires Failure?
    {
      Failure(err)
    }

    function Extract(): T
      requires Success?
    {
      value
    }

    ghost function On(s: Cpu): Step<T> {
      if Success? then Ok(s, value) else Panic(s, err)
    }
  }

  // vm_read16 and vm_read32 as sequences of vm_read8.
  function LoadPair(env: Env, s: Cpu, a: u32): Step<u32> {
    var (s1, lo) :- Load(env, s, Byte, a);
    var (s2, hi) :- Load(env, s1, Byte, Wrap(a + 1));
    Ok(s2, lo + 0x100 * hi)
  }

  lemma LoadHalf(env: Env, s: Cpu, a: u32)
    ensures Load(env, s, Half, a)
            == if Wrap(a + 2) > a then LoadPair(env, s, a) else Panic(s.(exop := a), FaultRd)
  {
    if Wrap(a + 2) > a {
      assert Wrap(a + 1) == a + 1;
    }
  }

  lemma LoadWord(env: Env, s: Cpu, a: u32)
    ensures Load(env, s, Word, a)
            == if Wrap(a + 4) > a then
                 var (s1, lo) :- LoadPair(env, s, a);
                 var (s2, hi) :- LoadPair(env, s1, Wrap(a + 2));
                 Ok(s2, lo + 0x1_0000 * hi)
               else Panic(s.(exop := a), FaultRd)
  {
    hide ReadByte, Wrap;
    FarEnough(a, 4);
    if a + 4 < WORD {
      Near(a);
      var m := s.mem;
      var tail := ReadBytes(env, m, a + 2, 2);
      assert tail == match ReadByte(env, m, a + 2)
                     case NoByte(operand) => Fault(operand)
                     case GotByte(b) =>
                       var rest := ReadBytes(env, m, a + 3, 1);
                       if rest.Fault? then rest else Got(b + 0x100 * rest.value);
      assert Load(env, s, Byte, a + 3) == match ReadBytes(env, m, a + 3, 1)
                                          case Got(v) => Ok(s, v)
                                          case Fault(operand) => Panic(s.(exop := operand), FaultRd);
    }
  }

  lemma FarEnough(a: u32, n: nat)
    requires n <= 4
    ensures Wrap(a + n) > a <==> 0 < n && a + n < WORD
  {
  }

  lemma Near(a: u32)
    requires a + 4 < WORD
    ensures Wrap(a + 1) == a + 1 && Wrap(a + 2) == a + 2 && Wrap(a + 2 + 1) == a + 3
  {
  }

  // The bytes of a word are those of its halves.
  lemma FirstByte(h: nat, l: nat)
    ensures (0x1_0000 * h + l) % 0x100 == l % 0x100
  {
  }

  lemma UpperBytes(h: nat, l: nat)
    ensures (0x1_0000 * h + l) / 0x100 == 0x100 * h + l / 0x100
  {
  }

  lemma LastOf(h: nat, q: nat)
    requires q < 0x100
    ensures (0x100 * h + q) % 0x100 == q
  {
  }

  lemma FourthByte(v: nat)
    ensures v / 0x100_0000 == v / 0x1_0000 / 0x100
  {
  }

  lemma BytesOfHalves(v: u32)
    ensures v % 0x100 == v % 0x1_0000 % 0x100
    ensures v / 0x100 % 0x100 == v % 0x1_0000 / 0x100
    ensures v / 0x100_0000 == v / 0x1_0000 / 0x100
  {
    var h, l := v / 0x1_0000, v % 0x1_0000;
    FirstByte(h, l);
    UpperBytes(h, l);
    LastOf(h, l / 0x100);
    FourthByte(v);
  }

  // The four bytes of a word by shifting and masking, which are also the bytes of its two halves.
  method SplitWord(value: u32) returns (b0: u8, b1: u8, b2: u8, b3: u8)
    ensures b0 == value % 0x1_0000 % 0x100 && b1 == value % 0x1_0000 / 0x100
    ensures b2 == value / 0x1_0000 % 0x100 && b3 == value / 0x1_0000 / 0x100
  {
    BytesOfHalves(value);
    b0 := value % 0x100;
    b1 := value / 0x100 % 0x100;
    b2 := value / 0x1_0000 % 0x100;
    b3 := value / 0x100_0000;
  }

  // How a run ends: the state, the count it reports and whether it panicked.
  datatype Outcome = Finished(s: Cpu, executed: nat, result: Result<()>)

  // vm_resume on a flat memory.
  function Run(env: Env, s: Cpu, count: nat): Outcome {
    var o := RunFrom(env, s.(m := s.m.(halted := false)), count, 0);
    if o.result.Success? && o.s.m.softHalted then o.(executed := count) else o
  }

  function RunFrom(env: Env, s: Cpu, remaining: nat, executed: nat): Outcome
    decreases remaining
  {
    if s.m.halted || s.m.softHalted || remaining == 0 then Finished(s, executed, Success(()))
    else match Execute(env, s)
      case Ok(s1, _) => RunFrom(env, s1, remaining - 1, executed + 1)
      case Panic(s1, err) => Finished(s1.(m := s1.m.(halted := true)), executed, Failure(err))
  }

  class Vm {
    const env: Env
    const memory: Memory
    const regs: array<u32>
    var ipm: u32
    var ip: u32
    var exop: u32
    var sp: u32
    var esp: u32
    var fp: u32
    var zero: bool
    var carry: bool
    var interrupt: bool
    var swapSp: bool
    var halted: bool
    var softHalted: bool
    var mmu: bool

    ghost function Repr(): set<object> {
      {this, regs} + memory.Repr()
    }

    ghost predicate Valid()
      reads Repr()
    {
      memory.Valid() && regs.Length == 32 && regs !in memory.Repr() && this !in memory.Repr()
    }

    ghost function View(): Cpu
      requires Valid()
      reads Repr()
    {
      Cpu(ipm, ip, exop, Locals(sp, esp, fp, regs[..]), Flags(zero, carry, interrupt, swapSp),
          Modes(halted, softHalted, mmu), memory.Contents)
    }

    // vm_init
    constructor (env: Env, memory: Memory)
      requires memory.Valid()
      ensures Valid() && this.env == env && this.memory == memory && fresh(regs)
      ensures View() == Cpu(0, 0xF000_0000, 0, Locals(0, 0, 0, seq(32, _ => 0)), Flags(false, false, false, false),
                            Modes(true, false, false), memory.Contents)
    {
      this.env, this.memory := env, memory;
      regs := new u32[32](_ => 0);
      ipm, ip, exop := 0, 0xF000_0000, 0;
      sp, esp, fp := 0, 0, 0;
      zero, carry, interrupt, swapSp := false, false, false, false;
      halted, softHalted, mmu := true, false, false;
    }

    // vm_read8
    method Read8(address: u32) returns (r: Result<u8>)
      requires Valid()
      modifies Repr()
      ensures Valid() && r.On(View()) == Load(env, old(View()), Byte, address)
    {
      var end := Wrap(address + 1);
      if end > address {
        if end <= RAM {
          var b := memory.ReadRam(address);
          return Success(b);
        }
        match env.beyond(address) {
          case GotByte(b) =>
            return Success(b);
          case NoByte(operand) =>
            exop := operand;
            return Failure(FaultRd);
        }
      }
      exop := address;
      return Failure(FaultRd);
    }

    // Two bytes, the low one first.
    method ReadPair(address: u32) returns (r: Result<u16>)
      requires Valid()
      modifies Repr()
      ensures Valid()
      ensures r.On(View()) == LoadPair(env, old(View()), address)
    {
      hide Load, View, Valid, Memory.Valid;
      var lo: int :- Read8(address);
      var hi: int :- Read8(Wrap(address + 1));
      return Success(lo + 0x100 * hi);
    }

    // vm_read16
    method Read16(address: u32) returns (r: Result<u16>)
      requires Valid()
      modifies Repr()
      ensures Valid() && r.On(View()) == Load(env, old(View()), Half, address)
    {
      LoadHalf(env, View(), address);
      hide Load, LoadPair, Memory.Valid;
      var end := Wrap(address + 2);
      if end > address {
        r := ReadPair(address);
        return;
      }
      exop := address;
      return Failure(FaultRd);
    }

    // vm_read32
    method Read32(address: u32) returns (r: Result<u32>)
      requires Valid()
      modifies Repr()
      ensures Valid() && r.On(View()) == Load(env, old(View()), Word, address)
    {
      LoadWord(env, View(), address);
      hide Load, LoadPair, Memory.Valid;
      var end := Wrap(address + 4);
      if end > address {
        var lo: int :- ReadPair(address);
        var hi: int :- ReadPair(Wrap(address + 2));
        return Success(lo + 0x1_0000 * hi);
      }
      exop := address;
      return Failure(FaultRd);
    }

    // vm_write8
    method Write8(address: u32, value: u8)
      requires Valid()
      modifies Repr()
      ensures Valid() && View() == old(View()).(mem := WriteByte(old(View()).mem, address, value))
    {
      memory.Write8(address, value);
    }

    // vm_write16
    method Write16(address: u32, value: u16)
      requires Valid()
      modifies Repr()
      ensures Valid() && View() == old(View()).(mem := WritePair(old(View()).mem, address, value))
    {
      Write8(address, value % 0x100);
      Write8(Wrap(address + 1), value / 0x100);
    }

    // vm_write32
    method Write32(address: u32, value: u32)
      requires Valid()
      modifies Repr()
      ensures Valid() && View() == old(View()).(mem := Write(old(View()).mem, Word, address, value))
    {
      hide WriteByte, Wrap, View, Valid, Memory.Valid;
      var b0, b1, b2, b3 := SplitWord(value);
      Write8(address, b0);
      Write8(Wrap(address + 1), b1);
      Write8(Wrap(address + 2), b2);
      Write8(Wrap(Wrap(address + 2) + 1), b3);
    }

    // _vm_read of the given size
    method ReadSized(size: Size, address: u32) returns (r: Result<u32>)
      requires Valid()
      modifies Repr()
      ensures Valid() && r.On(View()) == Load(env, old(View()), size, address)
    {
      hide Load, View, Valid, Memory.Valid;
      match size {
        case Byte => r := Read8(address);
        case Half => r := Read16(address);
        case Word => r := Read32(address);
      }
    }

    // _vm_write of the given size
    method WriteSized(size: Size, address: u32, value: u32)
      requires Valid() && value < size.Modulus()
      modifies Repr()
      ensures Valid() && View() == old(View()).(mem := Write(old(View()).mem, size, address, value))
    {
      hide WriteByte, WritePair, View, Valid, Memory.Valid;
      match size {
        case Byte => Write8(address, value);
        case Half => Write16(address, value);
        case Word => Write32(address, value);
      }
    }

    // VM_PUSH_BODY
    method PushSized(size: Size, value: u32)
      requires Valid() && value < size.Modulus()
      modifies Repr()
      ensures Valid() && View() == Push(old(View()), size, value)
    {
      hide Write, Memory.Valid;
      WriteSized(size, Wrap(sp - size.Width()), value);
      sp := Wrap(sp - size.Width());
    }

    // VM_POP_BODY
    method PopSized(size: Size) returns (r: Result<u32>)
      requires Valid()
      modifies Repr()
      ensures Valid() && r.On(View()) == Pop(env, old(View()), size)
    {
      hide Load, Memory.Valid;
      var result :- ReadSized(size, sp);
      sp := Wrap(sp + size.Width());
      r := Success(result);
    }

    // vm_findlocal, read
    method GetLocalAt(local: u8) returns (r: Result<u32>)
      requires Valid()
      ensures r.On(View()) == GetLocal(View(), local)
    {
      if local < 32 {
        return Success(regs[local]);
      }
      if local == 32 {
        return Success(sp);
      }
      if local == 33 {
        return Success(esp);
      }
      if local == 34 {
        return Success(fp);
      }
      return Failure(BadRegister);
    }

    // vm_findlocal, written
    method SetLocalAt(local: u8, value: u32)
      requires Valid() && local <= 34
      modifies this, regs
      ensures Valid() && View() == old(View()).(l := SetLocal(old(View()).l, local, value))
    {
      if local < 32 {
        regs[local] := value;
      } else if local == 32 {
        sp := value;
      } else if local == 33 {
        esp := value;
      } else {
        fp := value;
      }
    }

    method ReadLocalAt(address: u32) returns (r: Result<u32>)
      requires Valid()
      modifies Repr()
      ensures Valid() && r.On(View()) == LocalAt(env, old(View()), address)
    {
      hide Load, GetLocal, View, Valid, Memory.Valid;
      var local :- Read8(address);
      r := GetLocalAt(local);
    }

    method ReadOffset(offset: nat, address: u32) returns (r: Result<u32>)
      requires Valid()
      modifies Repr()
      ensures Valid() && r.On(View()) == OffsetAt(env, old(View()), offset, address)
    {
      hide Load, View, Valid, Memory.Valid;
      if offset != 0 {
        r := Read8(address);
      } else {
        r := Success(0);
      }
    }

    // VM_SOURCE_BODY, the cases that go through a register or a pointer
    method ReadOperand(size: Size, ty: nat, offset: nat, base: u32) returns (r: Result<u32>)
      requires Valid() && ty < 4 && offset < 2
      modifies Repr()
      ensures Valid() && r.On(View()) == Operand(env, old(View()), size, ty, offset, base)
    {
      hide Load, LocalAt, OffsetAt, Wrap, View, Valid, Memory.Valid;
      if ty == TY_REG {
        var v :- ReadLocalAt(base);
        r := Success(size.Truncate(v));
      } else if ty == TY_REGPTR {
        var p: int :- ReadLocalAt(base);
        var o: int :- ReadOffset(offset, Wrap(base as int + 1));
        r := ReadSized(size, Wrap(p + o));
      } else if ty == TY_IMM {
        r := ReadSized(size, base);
      } else {
        var p :- Read32(base);
        r := ReadSized(size, p);
      }
    }

    // VM_SOURCE_BODY
    method ReadSource(size: Size, ty: nat, offset: nat, move: bool) returns (r: Result<u32>)
      requires Valid() && ty < 4 && offset < 2
      modifies Repr()
      ensures Valid() && r.On(View()) == Source(env, old(View()), size, ty, offset, move)
    {
      hide Operand, Wrap, Memory.Valid;
      var base := ipm;
      if move {
        match ty {
          case 0 => ipm := Wrap(ipm as int + 1);
          case 1 => ipm := Wrap(ipm as int + 1 + offset);
          case 2 => ipm := Wrap(ipm as int + size.Width());
          case _ => ipm := Wrap(ipm as int + 4);
        }
      }
      r := ReadOperand(size, ty, offset, base);
    }

    // VM_TARGET_BODY, the assignment
    method AssignOperand(size: Size, zeroExtend: bool, ty: nat, value: u32, offset: nat, base: u32)
      returns (r: Result<()>)
      requires Valid() && ty < 4 && ty != TY_IMM && offset < 2 && value < size.Modulus()
      modifies Repr()
      ensures Valid() && r.On(View()) == Assign(env, old(View()), size, zeroExtend, ty, value, offset, base)
    {
      hide Load, LocalAt, OffsetAt, SetLocal, Write, Merge, Wrap, View, Valid, Memory.Valid;
      var stored := if zeroExtend then Word else size;
      if ty == TY_REG {
        var local :- Read8(base);
        var was :- GetLocalAt(local);
        SetLocalAt(local, Merge(was, size, zeroExtend, value));
      } else if ty == TY_REGPTR {
        var o: int :- ReadOffset(offset, Wrap(base as int + 1));
        var p: int :- ReadLocalAt(base);
        WriteSized(stored, Wrap(o + p), value);
      } else {
        var p :- Read32(base);
        WriteSized(stored, p, value);
      }
      r := Success(());
    }

    // VM_TARGET_BODY
    method WriteTarget(size: Size, zeroExtend: bool, ty: nat, value: u32, offset: nat) returns (r: Result<()>)
      requires Valid() && ty < 4 && offset < 2 && value < size.Modulus()
      modifies Repr()
      ensures Valid() && r.On(View()) == Target(env, old(View()), size, zeroExtend, ty, value, offset)
    {
      hide Assign, Wrap, Memory.Valid;
      var base := ipm;
      match ty {
        case 0 => ipm := Wrap(ipm as int + 1);
        case 1 => ipm := Wrap(ipm as int + 1 + offset);
        case 2 => return Failure(BadImmediate);
        case _ => ipm := Wrap(ipm as int + 4);
      }
      r := AssignOperand(size, zeroExtend, ty, value, offset, base);
    }

    // vm_shouldskip
    method ShouldSkipNow(condition: nat) returns (r: Result<bool>)
      requires Valid()
      ensures r.On(View()) == ShouldSkip(View(), condition)
    {
      match condition {
        case 0 => r := Success(false);
        case 1 => r := Success(zero == false);
        case 2 => r := Success(zero == true);
        case 3 => r := Success(carry == false);
        case 4 => r := Success(carry == true);
        case 5 => r := Success(zero == true || carry == true);
        case 6 => r := Success(zero == false && carry == false);
        case _ => r := Failure(BadCondition);
      }
    }

    // vm_skipparam
    method SkipOperand(width: nat, ty: nat, offset: nat)
      requires Valid()
      modifies this
      ensures Valid() && View() == SkipParam(old(View()), width, ty, offset)
    {
      ghost var s := View();
      if ty < TY_IMM {
        ipm := Wrap(ipm as int + 1);
        if offset != 0 && ty == TY_REGPTR {
          ipm := Wrap(ipm as int + 1);
          assert Wrap(Wrap(s.ipm as int + 1) + 1) == Wrap(s.ipm as int + 2);
        }
      } else if ty == TY_IMMPTR {
        ipm := Wrap(ipm as int + 4);
      } else {
        ipm := Wrap(ipm as int + width);
      }
    }

    // VM_IMPL_LOOP
    method DoLoop(base: u32, i: Instr, relative: bool, size: Size) returns (r: Result<()>)
      requires Valid() && i.Valid()
      modifies Repr()
      ensures Valid() && r.On(View()) == ExecLoop(env, old(View()), base, i, relative, size)
    {
      hide Source, Wrap, ShouldSkip, ParamLength, Signed, Memory.Valid;
      var skip :- ShouldSkipNow(i.condition);
      if !skip {
        regs[31] := Wrap(regs[31] as int - 1);
      }
      if !skip && regs[31] != 0 {
        var v :- ReadSource(size, i.source, i.offset, true);
        ipm := JumpTarget(base, relative, size, v);
      } else {
        SkipOperand(size.Width(), i.source, i.offset);
      }
      r := Success(());
    }

    // vm_flags_set
    method SetFlags(b: u8)
      requires Valid()
      modifies this
      ensures Valid() && View() == old(View()).(f := UnpackFlags(b))
    {
      zero := b % 2 != 0;
      carry := b / 2 % 2 != 0;
      interrupt := b / 4 % 2 != 0;
      swapSp := b / 8 % 2 != 0;
    }

    // OP_RETI
    method DoReti() returns (r: Result<()>)
      requires Valid()
      modifies Repr()
      ensures Valid() && r.On(View()) == ExecPlain(env, old(View()), Reti)
    {
      hide Pop, UnpackFlags, Memory.Valid;
      var b :- PopSized(Byte);
      SetFlags(b);
      var v :- PopSized(Word);
      ipm := v;
      if swapSp {
        var p :- PopSized(Word);
        sp := p;
      }
      r := Success(());
    }

    // The cases that touch no memory.
    method SetMode(op: Op) returns (r: Result<()>)
      requires Valid() && !op.Ret? && !op.Reti?
      modifies this
      ensures Valid() && r.On(View()) == ExecPlain(env, old(View()), op)
    {
      hide Pop, Memory.Valid;
      match op {
        case Halt => softHalted := true;
        case Brk =>
          ip := ipm;
          return Failure(Debugger);
        case Ise => interrupt := true;
        case Icl => interrupt := false;
        case Mse => mmu := true;
        case Mcl => mmu := false;
        case _ =>
      }
      r := Success(());
    }

    method DoRet() returns (r: Result<()>)
      requires Valid()
      modifies Repr()
      ensures Valid() && r.On(View()) == ExecPlain(env, old(View()), Ret)
    {
      hide Pop, View, Valid, Memory.Valid;
      var v :- PopSized(Word);
      JumpTo(v);
      r := Success(());
    }

    method DoPlain(op: Op) returns (r: Result<()>)
      requires Valid()
      modifies Repr()
      ensures Valid() && r.On(View()) == ExecPlain(env, old(View()), op)
    {
      hide ExecPlain, View, Valid, Memory.Valid;
      match op {
        case Ret => r := DoRet();
        case Reti => r := DoReti();
        case _ => r := SetMode(op);
      }
    }

    // VM_IMPL_JMP, VM_IMPL_CALL and OP_INT
    method DoCall(base: u32, relative: bool, size: Size, v: u32)
      requires Valid() && v < size.Modulus()
      modifies Repr()
      ensures Valid() && View() == var s := old(View()); Push(s, Word, s.ipm).(ipm := JumpTarget(base, relative, size, v))
    {
      hide Push, Wrap, Memory.Valid;
      PushSized(Word, ipm);
      ipm := JumpTarget(base, relative, size, v);
    }

    method DoInt(vector: u16)
      requires Valid()
      modifies Repr()
      ensures Valid()
      ensures View() == var s := old(View()); var (s2, _) := Raise(env, s.(ip := s.ipm), vector); s2.(ipm := s2.ip)
    {
      hide Raise, Memory.Valid;
      ip := ipm;
      var raised := RaiseVector(vector);
      ipm := ip;
    }

    method JumpTo(target: u32)
      requires Valid()
      modifies this
      ensures Valid() && View() == old(View()).(ipm := target)
    {
      ipm := target;
    }

    method DoJump(base: u32, i: Instr, op: Op, size: Size) returns (r: Result<()>)
      requires Valid() && i.Valid() && KindOf(op) == Jumps && !op.Loop?
      modifies Repr()
      ensures Valid() && r.On(View()) == ExecJump(env, old(View()), base, i, op, size)
    {
      hide Source, Push, Wrap, Raise, Signed, View, Valid, Memory.Valid;
      var v :- ReadSource(size, i.source, i.offset, true);
      match op {
        case Jmp(relative) => JumpTo(JumpTarget(base, relative, size, v));
        case Call(relative) => DoCall(base, relative, size, v);
        case Int => DoInt(v % 0x1_0000);
      }
      r := Success(());
    }

    // VM_IMPL_POP and VM_IMPL_PUSH
    method DoStack(i: Instr, op: Op, size: Size) returns (r: Result<()>)
      requires Valid() && i.Valid()
      modifies Repr()
      ensures Valid() && r.On(View()) == ExecStack(env, old(View()), i, op, size)
    {
      hide Source, ExecPop, Push, View, Valid, Memory.Valid;
      if op.PushFrom? {
        var v :- ReadSource(size, i.source, i.offset, true);
        PushSized(size, v);
        r := Success(());
      } else {
        r := DoPop(i, size);
      }
    }

    // VM_IMPL_POP
    method DoPop(i: Instr, size: Size) returns (r: Result<()>)
      requires Valid() && i.Valid()
      modifies Repr()
      ensures Valid() && r.On(View()) == ExecPop(env, old(View()), i, size)
    {
      hide Target, Pop, Memory.Valid;
      var oldsp := sp;
      var val :- PopSized(size);
      var newsp := sp;
      sp := oldsp;
      var _ :- WriteTarget(size, false, i.source, val, i.offset);
      sp := newsp;
      r := Success(());
    }

    // The last steps the arithmetic bodies share: write the target, then set the flags.
    method Finish(size: Size, ty: nat, offset: nat, result: AluResult, setCarry: bool) returns (r: Result<()>)
      requires Valid() && ty < 4 && offset < 2
      modifies Repr()
      ensures Valid() && r.On(View()) == Conclude(env, old(View()), size, ty, offset, result, setCarry)
    {
      hide Target, Size.Truncate, Memory.Valid;
      var x := size.Truncate(result.value);
      var _ :- WriteTarget(size, false, ty, x, offset);
      if setCarry {
        carry := result.carry;
      }
      zero := x == 0;
      r := Success(());
    }

    // VM_IMPL_NOT and VM_IMPL_INC
    method DoUnary(i: Instr, op: Op, size: Size) returns (r: Result<()>)
      requires Valid() && i.Valid()
      modifies Repr()
      ensures Valid() && r.On(View()) == ExecUnary(env, old(View()), i, op, size)
    {
      hide Source, Conclude, UnaryResult, Memory.Valid;
      var v :- ReadSource(size, i.source, i.offset, false);
      var result := UnaryResult(env, carry, i, op, size, v);
      r := Finish(size, i.source, i.offset, result, true);
    }

    // VM_IMPL_ADD, VM_IMPL_AND, VM_IMPL_SHIFT and VM_IMPL_DIV
    method DoAlu(i: Instr, op: Op, size: Size) returns (r: Result<()>)
      requires Valid() && i.Valid() && KindOf(op) == Alu
      modifies Repr()
      ensures Valid() && r.On(View()) == ExecAlu(env, old(View()), i, op, size)
    {
      hide Source, Conclude, Memory.Valid;
      var a :- ReadSource(if op.Shift? then Byte else size, i.source, i.offset, true);
      var b :- ReadSource(size, i.target, i.offset, false);
      if op.Divide? && a == 0 {
        return Failure(DivZero);
      }
      var result := env.alu(op, size, carry, b, a);
      r := Finish(size, i.target, i.offset, result, op.Arithmetic?);
    }

    // VM_IMPL_MOV, OP_RTA and OP_IN
    method DoMove(base: u32, i: Instr, op: Op, size: Size) returns (r: Result<()>)
      requires Valid() && i.Valid() && KindOf(op) == Moves
      modifies Repr()
      ensures Valid() && r.On(View()) == ExecMove(env, old(View()), base, i, op, size)
    {
      hide Source, Target, Signed, Wrap, View, Valid, Memory.Valid;
      var v: u32;
      if op.In? {
        var port :- ReadSource(Word, i.source, 0, true);
        var input := env.ioRead(port);
        if input.None? {
          return Failure(IoRead);
        }
        v := input.value;
      } else {
        v :- ReadSource(size, i.source, i.offset, true);
        if op.Rta? {
          v := Wrap(base + Signed(size, v));
        }
      }
      r := WriteTarget(if op.Mov? then size else Word, op == Mov(true), i.target, v, i.offset);
    }

    // VM_IMPL_CMP, VM_IMPL_BTS and OP_OUT
    method DoCompare(i: Instr, op: Op, size: Size) returns (r: Result<()>)
      requires Valid() && i.Valid() && KindOf(op) == Compares
      modifies Repr()
      ensures Valid() && r.On(View()) == ExecCompare(env, old(View()), i, op, size)
    {
      hide Source, Compared, View, Valid, Memory.Valid;
      var a :- ReadSource(if op.BitTest? then Byte else size, i.source, i.offset, true);
      var b :- ReadSource(size, i.target, i.offset, true);
      if op.Out? {
        if !env.ioWrite(b, a) {
          return Failure(IoWrite);
        }
      } else {
        SetCompared(op, size, b, a);
      }
      r := Success(());
    }

    // The flags of VM_IMPL_CMP and VM_IMPL_BTS
    method SetCompared(op: Op, size: Size, b: u32, a: u32)
      requires Valid()
      modifies this
      ensures Valid() && View() == Compared(env, old(View()), op, size, b, a)
    {
      hide Size.Truncate, Memory.Valid;
      var result := env.alu(op, size, carry, b, a);
      if op.Cmp? {
        carry := result.carry;
      }
      zero := size.Truncate(result.value) == 0;
    }

    // The skipping branch of VM_PRELUDE_0, VM_PRELUDE_1, VM_PRELUDE_2 and VM_PRELUDE_BIT
    method SkipOperandsOf(i: Instr, op: Op, size: Size)
      requires Valid()
      modifies this
      ensures Valid() && View() == SkipOperands(old(View()), i, op, size)
    {
      hide SkipParam, View, Valid, Memory.Valid;
      match KindOf(op) {
        case NoOperand =>
        case Jumps | Stack | Unary => SkipOperand(size.Width(), i.source, i.offset);
        case Moves | Compares | Alu =>
          SkipOperand(size.Width(), i.target, i.offset);
          SkipOperand(SourceWidth(op, size), i.source, i.offset);
      }
    }

    // The switch of vm_execute, past the conditions
    method DoBody(base: u32, i: Instr, op: Op, size: Size) returns (r: Result<()>)
      requires Valid() && i.Valid() && !op.Loop?
      modifies Repr()
      ensures Valid() && r.On(View()) == Body(env, old(View()), base, i, op, size)
    {
      hide ExecPlain, ExecJump, ExecStack, ExecUnary, ExecMove, ExecCompare, ExecAlu, View, Valid, Memory.Valid;
      match KindOf(op) {
        case NoOperand => r := DoPlain(op);
        case Jumps => r := DoJump(base, i, op, size);
        case Stack => r := DoStack(i, op, size);
        case Unary => r := DoUnary(i, op, size);
        case Moves => r := DoMove(base, i, op, size);
        case Compares => r := DoCompare(i, op, size);
        case Alu => r := DoAlu(i, op, size);
      }
    }

    method DispatchOp(base: u32, i: Instr, op: Op, size: Size) returns (r: Result<()>)
      requires Valid() && i.Valid()
      modifies Repr()
      ensures Valid() && r.On(View()) == Dispatch(env, old(View()), base, i, op, size)
    {
      hide Body, ExecLoop, ShouldSkip, SkipOperands, View, Valid, Memory.Valid;
      if op.Nop? {
        return Success(());
      }
      if op.Loop? {
        r := DoLoop(base, i, op.relative, size);
        return;
      }
      var skip :- ShouldSkipNow(i.condition);
      if skip {
        SkipOperandsOf(i, op, size);
        return Success(());
      }
      r := DoBody(base, i, op, size);
    }

    // vm_execute
    method ExecuteNext() returns (r: Result<()>)
      requires Valid()
      modifies Repr()
      ensures Valid() && r.On(View()) == Execute(env, old(View()))
    {
      hide Load, Decoded, Dispatch, Wrap, Memory.Valid;
      var base := ip;
      var raw :- Read16(base);
      ipm := Wrap(base as int + 2);
      match Decoded(raw) {
        case None =>
          exop := raw;
          return Failure(BadOpcode);
        case Some((i, op, size)) =>
          var _ :- DispatchOp(base, i, op, size);
      }
      ip := ipm;
      r := Success(());
    }

    // The first half of vm_raise: the state to return to.
    method PushFrame()
      requires Valid()
      modifies Repr()
      ensures Valid() && View() == Framed(old(View()))
    {
      hide Write, Wrap, PackFlags, Memory.Valid;
      var flags := PackFlags(Flags(zero, carry, interrupt, swapSp));
      if swapSp {
        var oldStackPointer := sp;
        sp := esp;
        PushSized(Word, oldStackPointer);
        PushSized(Word, ip);
        PushSized(Byte, flags);
        swapSp := false;
      } else {
        PushSized(Word, ip);
        PushSized(Byte, flags);
      }
    }

    // vm_raise
    method RaiseVector(vector: u16) returns (r: Raised)
      requires Valid()
      modifies Repr()
      ensures Valid() && (View(), r) == Raise(env, old(View()), vector)
    {
      hide Read, Push, Framed, Memory.Valid;
      if !interrupt && vector < 256 {
        return NoInterrupts;
      }
      var handler := Read32(4 * vector);
      if handler.Failure? {
        return Failed(handler.err);
      }
      EnterHandler(handler.value, vector);
      r := Taken;
    }

    // The part of vm_raise that cannot fail.
    method EnterHandler(handler: u32, vector: u16)
      requires Valid()
      modifies Repr()
      ensures Valid()
      ensures var s2 := Framed(old(View()));
              var s3 := if vector >= 256 then Push(s2, Word, s2.exop).(exop := 0) else Push(s2, Word, vector);
              View() == s3.(ip := handler, f := s3.f.(interrupt := false), m := s3.m.(halted := true, softHalted := false))
    {
      hide Push, Framed, Memory.Valid;
      PushFrame();
      if vector >= 256 {
        PushSized(Word, exop);
        exop := 0;
      } else {
        PushSized(Word, vector);
      }
      GoTo(handler);
    }

    // The end of vm_raise
    method GoTo(handler: u32)
      requires Valid()
      modifies this
      ensures Valid()
      ensures View() == var s := old(View());
                        s.(ip := handler, f := s.f.(interrupt := false), m := s.m.(halted := true, softHalted := false))
    {
      ip := handler;
      halted := true;
      softHalted := false;
      interrupt := false;
    }

    // vm_resume, with *executed starting at 0 as in main
    method Resume(count: u32) returns (r: Result<()>, executed: nat)
      requires Valid()
      modifies Repr()
      ensures Valid() && Finished(View(), executed, r) == Run(env, old(View()), count)
    {
      hide Execute, Memory.Valid;
      halted := false;
      var remaining := count;
      executed := 0;
      ghost var start := View();
      while !halted && !softHalted && remaining > 0
        invariant Valid() && executed + remaining == count
        invariant RunFrom(env, View(), remaining, executed) == RunFrom(env, start, count, 0)
      {
        var step := ExecuteNext();
        if step.Failure? {
          halted := true;
          return Failure(step.err), executed;
        }
        remaining := remaining - 1;
        executed := executed + 1;
      }
      if softHalted {
        executed := count;
      }
      r := Success(());
    }
  }
}
