/** The fox32 processor on a flat memory: what vm_execute and vm_raise do to the fields of
    fox32_vm_t, as functions.  A panic is a result that keeps the state it was raised in, so that
    nothing is undone by the way these functions are written. */
module Machine {
  import opened Bytes
  import opened PageTables

  type Ram = s: seq<u8> | |s| == RAM witness seq(RAM, _ => 0)
  type Registers = s: seq<u32> | |s| == 32 witness seq(32, _ => 0)

  datatype Option<+T> = None | Some(value: T)

  datatype Err = Debugger | FaultRd | BadOpcode | BadCondition | BadRegister | BadImmediate | DivZero
               | IoRead | IoWrite

  datatype Size = Byte | Half | Word {
    function Width(): (w: nat)
      ensures 1 <= w <= 4
    {
      match this case Byte => 1 case Half => 2 case Word => 4
    }

    function Modulus(): (m: nat)
      ensures 0 < m <= WORD
    {
      match this case Byte => 0x100 case Half => 0x1_0000 case Word => WORD
    }

    // The cast to uint8_t, uint16_t or uint32_t.
    function Truncate(v: u32): (r: u32)
      ensures r < Modulus()
    {
      match this case Byte => v % 0x100 case Half => v % 0x1_0000 case Word => v
    }
  }

  datatype ByteFetch = GotByte(b: u8) | NoByte(operand: u32)

  datatype AluResult = AluResult(value: u32, carry: bool)

  // The world outside the fields of fox32_vm_t: what vm_read8 finds beyond RAM, the I/O callbacks,
  // and the arithmetic unit.  Module Fox32 gives the one environment of the emulator; the laws of
  // the instruction set hold in all of them.
  datatype Env = Env(
    beyond: u32 -> ByteFetch,
    ioRead: u32 -> Option<u32>,
    ioWrite: (u32, u32) -> bool,
    alu: (Op, Size, bool, u32, u32) -> AluResult)

  datatype Locals = Locals(sp: u32, esp: u32, fp: u32, regs: Registers)

  datatype Flags = Flags(zero: bool, carry: bool, interrupt: bool, swapSp: bool)

  datatype Modes = Modes(halted: bool, softHalted: bool, mmu: bool)

  // ip is pointer_instr, ipm the working copy pointer_instr_mut, exop exception_operand.
  datatype Cpu = Cpu(ipm: u32, ip: u32, exop: u32, l: Locals, f: Flags, m: Modes, mem: Ram)

  datatype Step<+T> = Ok(s: Cpu, value: T) | Panic(s: Cpu, err: Err) {
    predicate IsFailure() {
      Panic?
    }

    function PropagateFailure<U>(): Step<U>
      requires Panic?
    {
      Panic(s, err)
    }

    function Extract(): (Cpu, T)
      requires Ok?
    {
      (s, value)
    }
  }

  // ---------- memory ----------

  datatype Fetch = Got(value: u32) | Fault(operand: u32)

  // vm_read8
  function ReadByte(env: Env, mem: Ram, a: u32): ByteFetch {
    if a + 1 == WORD then NoByte(a) else if a < RAM then GotByte(mem[a]) else env.beyond(a)
  }

  // n bytes from a on, the lowest first; the first fault is the one reported.
  function ReadBytes(env: Env, mem: Ram, a: u32, n: nat): (f: Fetch)
    requires a + n <= WORD && n <= 4
    ensures f.Got? ==> f.value < (if n == 0 then 1 else if n == 1 then 0x100 else if n == 2 then 0x1_0000
                                  else if n == 3 then 0x100_0000 else WORD)
    decreases n
  {
    if n == 0 then Got(0)
    else
      match ReadByte(env, mem, a)
      case NoByte(operand) => Fault(operand)
      case GotByte(b) =>
        if n == 1 then Got(b)
        else
          var rest := ReadBytes(env, mem, a + 1, n - 1);
          if rest.Fault? then rest else Got(b + 0x100 * rest.value)
  }

  // vm_read8, vm_read16 and vm_read32
  function Read(env: Env, mem: Ram, size: Size, a: u32): (f: Fetch)
    ensures f.Got? ==> f.value < size.Modulus()
  {
    if a + size.Width() >= WORD then Fault(a) else ReadBytes(env, mem, a, size.Width())
  }

  function WriteByte(mem: Ram, a: u32, b: u8): Ram {
    mem[a % RAM := b]
  }

  function WritePair(mem: Ram, a: u32, v: u16): Ram {
    WriteByte(WriteByte(mem, a, v % 0x100), Wrap(a + 1), v / 0x100)
  }

  function Write(mem: Ram, size: Size, a: u32, v: u32): Ram
    requires v < size.Modulus()
  {
    match size
    case Byte => WriteByte(mem, a, v)
    case Half => WritePair(mem, a, v)
    case Word => WritePair(WritePair(mem, a, v % 0x1_0000), Wrap(a + 2), v / 0x1_0000)
  }

  function Load(env: Env, s: Cpu, size: Size, a: u32): (r: Step<u32>)
    ensures r.Ok? ==> r.s == s && r.value < size.Modulus()
    ensures r.Panic? ==> r.s == s.(exop := r.s.exop)
  {
    match Read(env, s.mem, size, a)
    case Got(v) => Ok(s, v)
    case Fault(operand) => Panic(s.(exop := operand), FaultRd)
  }

  function WithSp(s: Cpu, sp: u32): Cpu {
    s.(l := s.l.(sp := sp))
  }

  function Push(s: Cpu, size: Size, v: u32): Cpu
    requires v < size.Modulus()
  {
    var a := Wrap(s.l.sp - size.Width());
    s.(mem := Write(s.mem, size, a, v), l := s.l.(sp := a))
  }

  function Pop(env: Env, s: Cpu, size: Size): (r: Step<u32>)
    ensures r.Ok? ==> r.value < size.Modulus()
  {
    var (s1, v) :- Load(env, s, size, s.l.sp);
    Ok(WithSp(s1, Wrap(s.l.sp + size.Width())), v)
  }

  // ---------- instructions ----------

  datatype Instr = Instr(opcode: u8, condition: nat, offset: nat, target: nat, source: nat) {
    ghost predicate Valid() {
      condition < 8 && offset < 2 && target < 4 && source < 4
    }
  }

  function InstrFrom(half: u16): (i: Instr)
    ensures i.Valid()
  {
    Instr(half / 0x100, half / 0x10 % 8, half / 0x80 % 2, half / 4 % 4, half % 4)
  }

  const TY_REG := 0
  const TY_REGPTR := 1
  const TY_IMM := 2
  const TY_IMMPTR := 3

  datatype ShiftOp = Sla | Srl | Sra | Rol | Ror | Bse | Bcl
  datatype Arith = Add | Sub | Mul | Imul
  datatype Logic = And | Xor | Or

  datatype Op =
    | Nop | Halt | Brk | In | Out | Rta | Ret | Reti | Ise | Icl
    | Jmp(relative: bool) | Call(relative: bool) | Loop(relative: bool)
    | PopTo | PushFrom | Mov(zero: bool) | Not | Inc(sub: bool)
    | Arithmetic(a: Arith) | Divide(signed: bool, rem: bool) | Bitwise(l: Logic) | Shift(op: ShiftOp)
    | Cmp(signed: bool) | BitTest | Mse | Mcl | Int

  // The operation in the low six bits of an opcode, and whether it exists in the word size only.
  function DecodeOp(op: nat): Option<(Op, bool)> {
    match op
    case 0x00 => Some((Nop, false))
    case 0x01 => Some((Arithmetic(Add), false))
    case 0x02 => Some((Arithmetic(Mul), false))
    case 0x03 => Some((Bitwise(And), false))
    case 0x04 => Some((Shift(Sla), false))
    case 0x05 => Some((Shift(Sra), false))
    case 0x06 => Some((Shift(Bse), false))
    case 0x07 => Some((Cmp(false), false))
    case 0x08 => Some((Jmp(false), true))
    case 0x09 => Some((Jmp(true), false))
    case 0x0A => Some((PushFrom, false))
    case 0x0B => Some((In, true))
    case 0x0C => Some((Ise, true))
    case 0x0D => Some((Mse, true))
    case 0x10 => Some((Halt, false))
    case 0x11 => Some((Inc(false), false))
    case 0x13 => Some((Bitwise(Or), false))
    case 0x14 => Some((Arithmetic(Imul), false))
    case 0x15 => Some((Shift(Srl), false))
    case 0x16 => Some((Shift(Bcl), false))
    case 0x17 => Some((Mov(false), false))
    case 0x18 => Some((Call(false), true))
    case 0x19 => Some((Call(true), false))
    case 0x1A => Some((PopTo, false))
    case 0x1B => Some((Out, true))
    case 0x1C => Some((Icl, true))
    case 0x1D => Some((Mcl, true))
    case 0x20 => Some((Brk, false))
    case 0x21 => Some((Arithmetic(Sub), false))
    case 0x22 => Some((Divide(false, false), false))
    case 0x23 => Some((Bitwise(Xor), false))
    case 0x24 => Some((Shift(Rol), false))
    case 0x25 => Some((Shift(Ror), false))
    case 0x26 => Some((BitTest, false))
    case 0x27 => Some((Mov(true), false))
    case 0x28 => Some((Loop(false), true))
    case 0x29 => Some((Loop(true), false))
    case 0x2A => Some((Ret, true))
    case 0x2C => Some((Int, true))
    case 0x31 => Some((Inc(true), false))
    case 0x32 => Some((Divide(false, true), false))
    case 0x33 => Some((Not, false))
    case 0x34 => Some((Divide(true, false), false))
    case 0x35 => Some((Divide(true, true), false))
    case 0x37 => Some((Cmp(true), false))
    case 0x39 => Some((Rta, false))
    case 0x3A => Some((Reti, true))
    case _ => None
  }

  function Decode(opcode: u8): Option<(Op, Size)> {
    match DecodeOp(opcode % 0x40)
    case None => None
    case Some((op, wordOnly)) =>
      if opcode / 0x40 == 2 then Some((op, Word))
      else if wordOnly || opcode / 0x40 == 3 then None
      else Some((op, if opcode / 0x40 == 0 then Byte else Half))
  }

  // ---------- operands ----------

  function GetLocal(s: Cpu, local: u8): Step<u32> {
    if local < 32 then Ok(s, s.l.regs[local])
    else if local == 32 then Ok(s, s.l.sp)
    else if local == 33 then Ok(s, s.l.esp)
    else if local == 34 then Ok(s, s.l.fp)
    else Panic(s, BadRegister)
  }

  function SetLocal(l: Locals, local: u8, v: u32): Locals
    requires local <= 34
  {
    if local < 32 then l.(regs := l.regs[local := v])
    else if local == 32 then l.(sp := v)
    else if local == 33 then l.(esp := v)
    else l.(fp := v)
  }

  function Advance(s: Cpu, n: nat): Cpu {
    s.(ipm := Wrap(s.ipm + n))
  }

  // The register named by the byte at `a`.
  function LocalAt(env: Env, s: Cpu, a: u32): (r: Step<u32>)
    ensures r.Ok? ==> r.s == s
    ensures r.Panic? ==> r.s == s.(exop := r.s.exop)
  {
    var (s1, local) :- Load(env, s, Byte, a);
    GetLocal(s1, local)
  }

  // The displacement byte of a register pointer, when the instruction has one.
  function OffsetAt(env: Env, s: Cpu, offset: nat, a: u32): (r: Step<u32>)
    ensures r.Ok? ==> r.s == s
    ensures r.Panic? ==> r.s == s.(exop := r.s.exop)
  {
    if offset == 0 then Ok(s, 0) else Load(env, s, Byte, a)
  }

  // The length of one operand, as vm_skipparam counts it.
  function ParamLength(width: nat, ty: nat, offset: nat): nat {
    if ty < TY_IMM then (if offset != 0 && ty == TY_REGPTR then 2 else 1)
    else if ty == TY_IMMPTR then 4
    else width
  }

  // vm_skipparam
  function SkipParam(s: Cpu, width: nat, ty: nat, offset: nat): Cpu {
    Advance(s, ParamLength(width, ty, offset))
  }

  // t is s but for the working instruction pointer and the fault operand.
  ghost predicate OnlyScratch(s: Cpu, t: Cpu) {
    t == s.(ipm := t.ipm, exop := t.exop)
  }

  // t is s but for what an operand can name: memory and the numbered registers.
  ghost predicate OnlyAssigned(s: Cpu, t: Cpu) {
    t == s.(ipm := t.ipm, mem := t.mem, l := t.l)
  }

  // How far VM_SOURCE_BODY and VM_TARGET_BODY move over one operand.
  function OperandBytes(width: nat, ty: nat, offset: nat): nat {
    if ty == TY_REG then 1 else if ty == TY_REGPTR then 1 + offset else if ty == TY_IMM then width else 4
  }

  // The value of the operand encoded at `base`.
  function Operand(env: Env, s: Cpu, size: Size, ty: nat, offset: nat, base: u32): (r: Step<u32>)
    requires ty < 4 && offset < 2
    ensures r.Ok? ==> r.s == s && r.value < size.Modulus()
    ensures r.Panic? ==> r.s == s.(exop := r.s.exop)
  {
    if ty == TY_REG then
      var (s1, v) :- LocalAt(env, s, base);
      Ok(s1, size.Truncate(v))
    else if ty == TY_REGPTR then
      var (s1, p) :- LocalAt(env, s, base);
      var (s2, o) :- OffsetAt(env, s1, offset, Wrap(base + 1));
      Load(env, s2, size, Wrap(p + o))
    else if ty == TY_IMM then
      Load(env, s, size, base)
    else
      var (s1, p) :- Load(env, s, Word, base);
      Load(env, s1, size, p)
  }

  // VM_SOURCE_BODY
  function Source(env: Env, s: Cpu, size: Size, ty: nat, offset: nat, move: bool): (r: Step<u32>)
    requires ty < 4 && offset < 2
    ensures r.Ok? ==> r.value < size.Modulus()
    ensures r.Ok? ==> r.s == if move then Advance(s, OperandBytes(size.Width(), ty, offset)) else s
    ensures r.Panic? ==> OnlyScratch(s, r.s)
  {
    var moved := if move then Advance(s, OperandBytes(size.Width(), ty, offset)) else s;
    Operand(env, moved, size, ty, offset, s.ipm)
  }

  // The new value of a register when only its low part is assigned.
  function Merge(was: u32, size: Size, zero: bool, v: u32): u32
    requires v < size.Modulus()
  {
    if zero then v else was - size.Truncate(was) + v
  }

  // The assignment of v to the operand encoded at `base`; `zero` is the zero-extending variant,
  // which writes a whole word to memory.
  function Assign(env: Env, s: Cpu, size: Size, zero: bool, ty: nat, v: u32, offset: nat, base: u32): (r: Step<()>)
    requires ty < 4 && offset < 2 && v < size.Modulus() && ty != TY_IMM
    ensures r.Ok? ==> r.s.ipm == s.ipm && OnlyAssigned(s, r.s)
    ensures r.Panic? ==> r.s == s.(exop := r.s.exop)
  {
    var stored := if zero then Word else size;
    if ty == TY_REG then
      var (s1, local) :- Load(env, s, Byte, base);
      var (s2, was) :- GetLocal(s1, local);
      Ok(s2.(l := SetLocal(s2.l, local, Merge(was, size, zero, v))), ())
    else if ty == TY_REGPTR then
      var (s1, o) :- OffsetAt(env, s, offset, Wrap(base + 1));
      var (s2, p) :- LocalAt(env, s1, base);
      Ok(s2.(mem := Write(s2.mem, stored, Wrap(o + p), v)), ())
    else
      var (s1, p) :- Load(env, s, Word, base);
      Ok(s1.(mem := Write(s1.mem, stored, p, v)), ())
  }

  // VM_TARGET_BODY
  function Target(env: Env, s: Cpu, size: Size, zero: bool, ty: nat, v: u32, offset: nat): (r: Step<()>)
    requires ty < 4 && offset < 2 && v < size.Modulus()
    ensures r.Ok? ==> r.s.ipm == Advance(s, OperandBytes(size.Width(), ty, offset)).ipm
    ensures r.Ok? ==> ty != TY_IMM && OnlyAssigned(s, r.s)
    ensures r.Panic? ==> OnlyScratch(s, r.s)
  {
    if ty == TY_IMM then Panic(s, BadImmediate)
    else Assign(env, Advance(s, OperandBytes(size.Width(), ty, offset)), size, zero, ty, v, offset, s.ipm)
  }

  // vm_shouldskip
  function ShouldSkip(s: Cpu, condition: nat): Step<bool> {
    match condition
    case 0 => Ok(s, false)
    case 1 => Ok(s, !s.f.zero)
    case 2 => Ok(s, s.f.zero)
    case 3 => Ok(s, !s.f.carry)
    case 4 => Ok(s, s.f.carry)
    case 5 => Ok(s, s.f.zero || s.f.carry)
    case 6 => Ok(s, !s.f.zero && !s.f.carry)
    case _ => Panic(s, BadCondition)
  }

  // ---------- jump displacements ----------

  function Signed(size: Size, v: u32): int
    requires v < size.Modulus()
  {
    if 2 * v < size.Modulus() then v else v - size.Modulus()
  }

  // ---------- the instruction bodies ----------

  // vm_flags_get
  function PackFlags(f: Flags): u8 {
    (if f.swapSp then 8 else 0) + (if f.interrupt then 4 else 0) + (if f.carry then 2 else 0)
    + (if f.zero then 1 else 0)
  }

  // vm_flags_set
  function UnpackFlags(b: u8): Flags {
    Flags(b % 2 != 0, b / 2 % 2 != 0, b / 4 % 2 != 0, b / 8 % 2 != 0)
  }

  function JumpTarget(base: u32, relative: bool, size: Size, v: u32): u32
    requires v < size.Modulus()
  {
    if relative then Wrap(base + Signed(size, v)) else v
  }

  // OP_LOOP and OP_RLOOP
  function ExecLoop(env: Env, s: Cpu, base: u32, i: Instr, relative: bool, size: Size): Step<()>
    requires i.Valid()
  {
    var (s1, skip) :- ShouldSkip(s, i.condition);
    var count := Wrap(s1.l.regs[31] as int - 1);
    var s2 := if skip then s1 else s1.(l := s1.l.(regs := s1.l.regs[31 := count]));
    if skip || count == 0 then
      Ok(SkipParam(s2, size.Width(), i.source, i.offset), ())
    else
      var (s3, v) :- Source(env, s2, size, i.source, i.offset, true);
      Ok(s3.(ipm := JumpTarget(base, relative, size, v)), ())
  }

  // The instructions without operands, past their condition.
  function ExecPlain(env: Env, s: Cpu, op: Op): Step<()> {
    match op
    case Halt => Ok(s.(m := s.m.(softHalted := true)), ())
    case Brk => Panic(s.(ip := s.ipm), Debugger)
    case Ret =>
      var (s1, v) :- Pop(env, s, Word);
      Ok(s1.(ipm := v), ())
    case Reti =>
      var (s1, f) :- Pop(env, s, Byte);
      var (s2, v) :- Pop(env, s1.(f := UnpackFlags(f)), Word);
      var s3 := s2.(ipm := v);
      if s3.f.swapSp then
        var (s4, p) :- Pop(env, s3, Word);
        Ok(WithSp(s4, p), ())
      else Ok(s3, ())
    case Ise => Ok(s.(f := s.f.(interrupt := true)), ())
    case Icl => Ok(s.(f := s.f.(interrupt := false)), ())
    case Mse => Ok(s.(m := s.m.(mmu := true)), ())
    case Mcl => Ok(s.(m := s.m.(mmu := false)), ())
    case _ => Ok(s, ())
  }

  // The instructions that go elsewhere, past their condition.
  function ExecJump(env: Env, s: Cpu, base: u32, i: Instr, op: Op, size: Size): Step<()>
    requires i.Valid() && KindOf(op) == Jumps && !op.Loop?
  {
    var (s1, v) :- Source(env, s, size, i.source, i.offset, true);
    match op
    case Jmp(relative) => Ok(s1.(ipm := JumpTarget(base, relative, size, v)), ())
    case Call(relative) => Ok(Push(s1, Word, s1.ipm).(ipm := JumpTarget(base, relative, size, v)), ())
    case Int =>
      var (s2, _) := Raise(env, s1.(ip := s1.ipm), v % 0x1_0000);
      Ok(s2.(ipm := s2.ip), ())
  }

  // PUSH and POP, past their condition.
  function ExecStack(env: Env, s: Cpu, i: Instr, op: Op, size: Size): Step<()>
    requires i.Valid()
  {
    if op.PushFrom? then
      var (s1, v) :- Source(env, s, size, i.source, i.offset, true);
      Ok(Push(s1, size, v), ())
    else
      ExecPop(env, s, i, size)
  }

  // POP, past its condition: the stack pointer moves once the target is written.
  function ExecPop(env: Env, s: Cpu, i: Instr, size: Size): Step<()>
    requires i.Valid()
  {
    var (s1, v) :- Pop(env, s, size);
    var (s2, _) :- Target(env, WithSp(s1, s.l.sp), size, false, i.source, v, i.offset);
    Ok(WithSp(s2, s1.l.sp), ())
  }

  // The end of the arithmetic bodies: the target is written, then the flags are set.
  function Conclude(env: Env, s: Cpu, size: Size, ty: nat, offset: nat, r: AluResult, setCarry: bool): Step<()>
    requires ty < 4 && offset < 2
  {
    var x := size.Truncate(r.value);
    var (s1, _) :- Target(env, s, size, false, ty, x, offset);
    Ok(s1.(f := s1.f.(carry := if setCarry then r.carry else s1.f.carry, zero := x == 0)), ())
  }

  // NOT, INC and DEC, past their condition.
  function ExecUnary(env: Env, s: Cpu, i: Instr, op: Op, size: Size): Step<()>
    requires i.Valid()
  {
    var (s1, v) :- Source(env, s, size, i.source, i.offset, false);
    Conclude(env, s1, size, i.source, i.offset, UnaryResult(env, s1.f.carry, i, op, size, v), true)
  }

  function UnaryResult(env: Env, carry: bool, i: Instr, op: Op, size: Size, v: u32): AluResult
    requires i.Valid() && v < size.Modulus()
  {
    if op.Inc? then env.alu(Arithmetic(if op.sub then Sub else Add), size, carry, v, [1, 2, 4, 8][i.target])
    else AluResult(size.Modulus() - 1 - v, carry)
  }

  // The instructions with two operands that read both and assign the target, past their condition.
  function ExecAlu(env: Env, s: Cpu, i: Instr, op: Op, size: Size): Step<()>
    requires i.Valid() && KindOf(op) == Alu
  {
    var (s1, a) :- Source(env, s, if op.Shift? then Byte else size, i.source, i.offset, true);
    var (s2, b) :- Source(env, s1, size, i.target, i.offset, false);
    if op.Divide? && a == 0 then Panic(s2, DivZero)
    else
      Conclude(env, s2, size, i.target, i.offset, env.alu(op, size, s2.f.carry, b, a), op.Arithmetic?)
  }

  // The instructions that carry a value from the source to the target, past their condition.
  function ExecMove(env: Env, s: Cpu, base: u32, i: Instr, op: Op, size: Size): Step<()>
    requires i.Valid() && KindOf(op) == Moves
  {
    var (s1, a) :- Source(env, s, if op.In? then Word else size, i.source, if op.In? then 0 else i.offset, true);
    if op.In? && env.ioRead(a).None? then Panic(s1, IoRead)
    else
      var v := match op
        case Rta => Wrap(base + Signed(size, a))
        case In => env.ioRead(a).value
        case Mov(_) => a;
      Target(env, s1, if op.Mov? then size else Word, op == Mov(true), i.target, v, i.offset)
  }

  // The instructions that only read two operands, past their condition.
  function ExecCompare(env: Env, s: Cpu, i: Instr, op: Op, size: Size): Step<()>
    requires i.Valid() && KindOf(op) == Compares
  {
    var (s1, a) :- Source(env, s, if op.BitTest? then Byte else size, i.source, i.offset, true);
    var (s2, b) :- Source(env, s1, size, i.target, i.offset, true);
    if op.Out? then
      if env.ioWrite(b, a) then Ok(s2, ()) else Panic(s2, IoWrite)
    else Ok(Compared(env, s2, op, size, b, a), ())
  }

  function Compared(env: Env, s: Cpu, op: Op, size: Size, b: u32, a: u32): Cpu {
    var r := env.alu(op, size, s.f.carry, b, a);
    s.(f := s.f.(carry := if op.Cmp? then r.carry else s.f.carry, zero := size.Truncate(r.value) == 0))
  }

  datatype Kind = NoOperand | Jumps | Stack | Unary | Moves | Compares | Alu

  function KindOf(op: Op): Kind {
    match op
    case Nop | Halt | Brk | Ret | Reti | Ise | Icl | Mse | Mcl => NoOperand
    case Jmp(_) | Call(_) | Loop(_) | Int => Jumps
    case PopTo | PushFrom => Stack
    case Not | Inc(_) => Unary
    case Mov(_) | Rta | In => Moves
    case Out | Cmp(_) | BitTest => Compares
    case Arithmetic(_) | Divide(_, _) | Bitwise(_) | Shift(_) => Alu
  }

  // The width vm_skipparam is given for the source operand.
  function SourceWidth(op: Op, size: Size): nat {
    if op.Shift? || op.BitTest? then 1 else if op.In? then 4 else size.Width()
  }

  function SkipOperands(s: Cpu, i: Instr, op: Op, size: Size): Cpu {
    match KindOf(op)
    case NoOperand => s
    case Jumps | Stack | Unary => SkipParam(s, size.Width(), i.source, i.offset)
    case Moves | Compares | Alu =>
      SkipParam(SkipParam(s, size.Width(), i.target, i.offset), SourceWidth(op, size), i.source, i.offset)
  }

  // The body of an instruction, past its condition.
  function Body(env: Env, s: Cpu, base: u32, i: Instr, op: Op, size: Size): Step<()>
    requires i.Valid() && !op.Loop?
  {
    match KindOf(op)
    case NoOperand => ExecPlain(env, s, op)
    case Jumps => ExecJump(env, s, base, i, op, size)
    case Stack => ExecStack(env, s, i, op, size)
    case Unary => ExecUnary(env, s, i, op, size)
    case Moves => ExecMove(env, s, base, i, op, size)
    case Compares => ExecCompare(env, s, i, op, size)
    case Alu => ExecAlu(env, s, i, op, size)
  }

  function Dispatch(env: Env, s: Cpu, base: u32, i: Instr, op: Op, size: Size): Step<()>
    requires i.Valid()
  {
    if op.Nop? then Ok(s, ())
    else if op.Loop? then ExecLoop(env, s, base, i, op.relative, size)
    else
      var (s1, skip) :- ShouldSkip(s, i.condition);
      if skip then Ok(SkipOperands(s1, i, op, size), ()) else Body(env, s1, base, i, op, size)
  }

  // vm_execute
  function Execute(env: Env, s: Cpu): Step<()> {
    var (s1, raw) :- Load(env, s, Half, s.ip);
    ExecuteRaw(env, s1, raw)
  }

  // vm_execute past the fetch
  function ExecuteRaw(env: Env, s: Cpu, raw: u16): Step<()> {
    match Decoded(raw)
    case None => Panic(s.(ipm := Wrap(s.ip + 2), exop := raw), BadOpcode)
    case Some((i, op, size)) => ExecuteAs(env, s, i, op, size)
  }

  // The instruction encoded by a half word.
  function Decoded(raw: u16): (r: Option<(Instr, Op, Size)>)
    ensures r.Some? ==> r.value.0.Valid()
  {
    var i := InstrFrom(raw);
    match Decode(i.opcode)
    case None => None
    case Some((op, size)) => Some((i, op, size))
  }

  // vm_execute past the decoding
  function ExecuteAs(env: Env, s: Cpu, i: Instr, op: Op, size: Size): Step<()>
    requires i.Valid()
  {
    var (s1, _) :- Dispatch(env, s.(ipm := Wrap(s.ip + 2)), s.ip, i, op, size);
    Ok(s1.(ip := s1.ipm), ())
  }

  // ---------- exceptions and interrupts ----------

  datatype Raised = Taken | NoInterrupts | Failed(err: Err)

  // The state to return to, pushed on the stack that serves the exception.
  function Framed(s: Cpu): Cpu {
    var s1 := if s.f.swapSp then Push(WithSp(s, s.l.esp), Word, s.l.sp) else s;
    Push(Push(s1, Word, s.ip), Byte, PackFlags(s.f)).(f := s.f.(swapSp := false))
  }

  // vm_raise
  function Raise(env: Env, s: Cpu, vector: u16): (Cpu, Raised) {
    if !s.f.interrupt && vector < 256 then (s, NoInterrupts)
    else
      match Read(env, s.mem, Word, 4 * vector)
      case Fault(operand) => (s.(exop := operand), Failed(FaultRd))
      case Got(handler) =>
        var s2 := Framed(s);
        var s3 := if vector >= 256 then Push(s2, Word, s2.exop).(exop := 0) else Push(s2, Word, vector);
        (s3.(ip := handler, f := s3.f.(interrupt := false), m := s3.m.(halted := true, softHalted := false)), Taken)
  }
}
