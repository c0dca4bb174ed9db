/** What the instruction set keeps over every instruction. */
module MachineLaws {
  import opened Bytes
  import opened PageTables
  import opened Machine

  // The instruction at the instruction pointer.
  function Fetched(env: Env, s: Cpu): Option<(Instr, Op, Size)> {
    var f := Load(env, s, Half, s.ip);
    if f.Panic? then None else Decoded(f.value)
  }

  predicate NotSkipped(s: Cpu, i: Instr) {
    ShouldSkip(s, i.condition).Ok? && !ShouldSkip(s, i.condition).value
  }

  // The instruction at the instruction pointer is `op` and its condition holds.
  predicate Runs(env: Env, s: Cpu, op: Op) {
    var f := Fetched(env, s);
    f.Some? && f.value.1 == op && NotSkipped(s, f.value.0)
  }

  // The instructions whose effect begins before their last possible fault: BRK moves on before it
  // panics, a loop counts before it reads its target, and RETI pops the flags before the pointer.
  predicate CommitsEarlyAt(env: Env, s: Cpu, i: Instr, op: Op) {
    NotSkipped(s, i) && (op.Brk? || op.Loop? || (op.Reti? && Read(env, s.mem, Byte, s.l.sp).Got?))
  }

  predicate CommitsEarly(env: Env, s: Cpu) {
    var f := Fetched(env, s);
    f.Some? && CommitsEarlyAt(env, s, f.value.0, f.value.1)
  }

  // An instruction that panics has changed nothing but scratch state, unless it commits early.
  lemma PanicsAreAtomic(env: Env, s: Cpu)
    requires Execute(env, s).Panic?
    ensures OnlyScratch(s, Execute(env, s).s) <==> !CommitsEarly(env, s)
  {
    hide Read, ExecuteRaw;
    var f := Load(env, s, Half, s.ip);
    if f.Ok? {
      RawPanics(env, s, f.value);
    }
  }

  lemma RawPanics(env: Env, s: Cpu, raw: u16)
    requires ExecuteRaw(env, s, raw).Panic?
    ensures OnlyScratch(s, ExecuteRaw(env, s, raw).s)
            <==> !(Decoded(raw).Some? && CommitsEarlyAt(env, s, Decoded(raw).value.0, Decoded(raw).value.1))
  {
    hide Decode, ExecuteAs, Read;
    var d := Decoded(raw);
    if d.Some? {
      AsPanics(env, s, d.value.0, d.value.1, d.value.2);
    }
  }

  lemma AsPanics(env: Env, s: Cpu, i: Instr, op: Op, size: Size)
    requires i.Valid() && ExecuteAs(env, s, i, op, size).Panic?
    ensures OnlyScratch(s, ExecuteAs(env, s, i, op, size).s) <==> !CommitsEarlyAt(env, s, i, op)
  {
    hide Dispatch, Read;
    DispatchPanics(env, s.(ipm := Wrap(s.ip + 2)), s.ip, i, op, size);
  }

  lemma DispatchPanics(env: Env, s: Cpu, base: u32, i: Instr, op: Op, size: Size)
    requires i.Valid() && Dispatch(env, s, base, i, op, size).Panic?
    requires op.Brk? ==> s.ip != s.ipm
    ensures OnlyScratch(s, Dispatch(env, s, base, i, op, size).s) <==> !CommitsEarlyAt(env, s, i, op)
  {
    hide Read, ExecLoop, ExecPlain, ExecJump, ExecStack, ExecUnary, ExecMove, ExecCompare, ExecAlu;
    if op.Loop? {
      LoopPanics(env, s, base, i, op.relative, size);
    } else if NotSkipped(s, i) {
      match KindOf(op)
      case NoOperand => PlainPanics(env, s, op);
      case Jumps => JumpPanics(env, s, base, i, op, size);
      case Stack => StackPanics(env, s, i, op, size);
      case Unary => UnaryPanics(env, s, i, op, size);
      case Moves => MovePanics(env, s, base, i, op, size);
      case Compares => ComparePanics(env, s, i, op, size);
      case Alu => AluPanics(env, s, i, op, size);
    }
  }

  lemma LoopPanics(env: Env, s: Cpu, base: u32, i: Instr, relative: bool, size: Size)
    requires i.Valid()
    requires ExecLoop(env, s, base, i, relative, size).Panic?
    ensures OnlyScratch(s, ExecLoop(env, s, base, i, relative, size).s)
            <==> !NotSkipped(s, i)
  {
    if NotSkipped(s, i) {
      assert Wrap(s.l.regs[31] as int - 1) != s.l.regs[31];
    }
  }

  lemma PlainPanics(env: Env, s: Cpu, op: Op)
    requires ExecPlain(env, s, op).Panic?
    requires op.Brk? ==> s.ip != s.ipm
    ensures OnlyScratch(s, ExecPlain(env, s, op).s)
            <==> !(op.Brk? || (op.Reti? && Read(env, s.mem, Byte, s.l.sp).Got?))
  {
    if op.Reti? {
      RetiPanics(env, s);
    }
  }

  lemma RetiPanics(env: Env, s: Cpu)
    requires ExecPlain(env, s, Reti).Panic?
    ensures OnlyScratch(s, ExecPlain(env, s, Reti).s) <==> Read(env, s.mem, Byte, s.l.sp).Fault?
  {
    hide Read, UnpackFlags, Wrap;
    StackMoves(s.l.sp);
  }

  lemma StackMoves(sp: u32)
    ensures Wrap(sp + 1) != sp && Wrap(Wrap(sp + 1) + 4) != sp
  {
  }

  lemma JumpPanics(env: Env, s: Cpu, base: u32, i: Instr, op: Op, size: Size)
    requires i.Valid() && KindOf(op) == Jumps && !op.Loop? && ExecJump(env, s, base, i, op, size).Panic?
    ensures OnlyScratch(s, ExecJump(env, s, base, i, op, size).s)
  {
    hide Source, Target, Write, Read, Raise;
  }

  lemma StackPanics(env: Env, s: Cpu, i: Instr, op: Op, size: Size)
    requires i.Valid() && ExecStack(env, s, i, op, size).Panic?
    ensures OnlyScratch(s, ExecStack(env, s, i, op, size).s)
  {
    hide Source, Target, Write, Read, Raise;
  }

  lemma UnaryPanics(env: Env, s: Cpu, i: Instr, op: Op, size: Size)
    requires i.Valid() && ExecUnary(env, s, i, op, size).Panic?
    ensures OnlyScratch(s, ExecUnary(env, s, i, op, size).s)
  {
    hide Source, Target, Write, Read, Raise;
  }

  lemma MovePanics(env: Env, s: Cpu, base: u32, i: Instr, op: Op, size: Size)
    requires i.Valid() && KindOf(op) == Moves && ExecMove(env, s, base, i, op, size).Panic?
    ensures OnlyScratch(s, ExecMove(env, s, base, i, op, size).s)
  {
    hide Source, Target, Write, Read, Raise;
  }

  lemma ComparePanics(env: Env, s: Cpu, i: Instr, op: Op, size: Size)
    requires i.Valid() && KindOf(op) == Compares && ExecCompare(env, s, i, op, size).Panic?
    ensures OnlyScratch(s, ExecCompare(env, s, i, op, size).s)
  {
    hide Source, Target, Write, Read, Raise;
  }

  lemma AluPanics(env: Env, s: Cpu, i: Instr, op: Op, size: Size)
    requires i.Valid() && KindOf(op) == Alu && ExecAlu(env, s, i, op, size).Panic?
    ensures OnlyScratch(s, ExecAlu(env, s, i, op, size).s)
  {
    hide Source, Target, Write, Read, Raise;
  }

  // ---------- lengths ----------

  predicate Branches(op: Op) {
    op.Jmp? || op.Call? || op.Loop? || op.Ret? || op.Reti? || op.Int?
  }

  // The encoded length of the operands, in the order vm_execute reads them.
  function FirstLength(i: Instr, op: Op, size: Size): nat {
    match KindOf(op)
    case NoOperand => 0
    case Jumps | Stack | Unary => ParamLength(size.Width(), i.source, i.offset)
    case Moves | Compares | Alu => ParamLength(SourceWidth(op, size), i.source, i.offset)
  }

  function SecondLength(i: Instr, op: Op, size: Size): nat {
    match KindOf(op)
    case NoOperand | Jumps | Stack | Unary => 0
    case Moves | Compares | Alu => ParamLength(size.Width(), i.target, i.offset)
  }

  // IN reads its source without the displacement byte, so it falls short by one.
  predicate FallsShort(i: Instr, op: Op) {
    op.In? && i.source == TY_REGPTR && i.offset == 1
  }

  lemma WrapAgain(a: int, m: int, n: int)
    ensures Wrap(Wrap(a + m) + n) == Wrap(a + m + n)
  {
  }

  lemma WrapNothing(a: u32)
    ensures Wrap(a) == a
  {
  }

  lemma WrapIsInjective(a: u32, m: nat, n: nat)
    requires m < 0x100 && n < 0x100
    ensures Wrap(Wrap(a + 2) + m) == Wrap(a + n) <==> m + 2 == n
  {
  }

  // An instruction that does not branch ends right after its encoding, whether it was skipped or
  // executed; the one exception is an executed IN through a register pointer with displacement.
  lemma SkippingEqualsFallingThrough(env: Env, s: Cpu)
    requires Fetched(env, s).Some? && Execute(env, s).Ok?
    requires !Branches(Fetched(env, s).value.1)
    ensures var (i, op, size) := Fetched(env, s).value;
            Execute(env, s).s.ip == Wrap(s.ip + Length(i, op, size)) <==> !(Runs(env, s, op) && FallsShort(i, op))
  {
    hide Read, ExecuteRaw;
    RawLength(env, s, Load(env, s, Half, s.ip).value);
  }

  lemma RawLength(env: Env, s: Cpu, raw: u16)
    requires Decoded(raw).Some? && !Branches(Decoded(raw).value.1) && ExecuteRaw(env, s, raw).Ok?
    ensures var (i, op, size) := Decoded(raw).value;
            ExecuteRaw(env, s, raw).s.ip == Wrap(s.ip + Length(i, op, size))
            <==> !(NotSkipped(s, i) && FallsShort(i, op))
  {
    hide Decode, ExecuteAs, Read;
    var d := Decoded(raw);
    AsLength(env, s, d.value.0, d.value.1, d.value.2);
  }

  lemma AsLength(env: Env, s: Cpu, i: Instr, op: Op, size: Size)
    requires i.Valid() && !Branches(op) && ExecuteAs(env, s, i, op, size).Ok?
    ensures ExecuteAs(env, s, i, op, size).s.ip == Wrap(s.ip + Length(i, op, size))
            <==> !(NotSkipped(s, i) && FallsShort(i, op))
  {
    hide Dispatch, Wrap;
    var s1 := s.(ipm := Wrap(s.ip + 2));
    var n := OperandsLength(s1, i, op, size);
    DispatchLength(env, s1, s.ip, i, op, size);
    WrapIsInjective(s.ip, n, Length(i, op, size));
  }

  // The encoded length of an instruction.
  function Length(i: Instr, op: Op, size: Size): nat {
    2 + FirstLength(i, op, size) + SecondLength(i, op, size)
  }

  // What an instruction moves over, given whether it runs.
  function OperandsLength(s: Cpu, i: Instr, op: Op, size: Size): nat {
    FirstLength(i, op, size) + SecondLength(i, op, size)
    - (if NotSkipped(s, i) && FallsShort(i, op) then 1 else 0)
  }

  lemma DispatchLength(env: Env, s: Cpu, base: u32, i: Instr, op: Op, size: Size)
    requires i.Valid() && Dispatch(env, s, base, i, op, size).Ok? && !Branches(op)
    ensures Dispatch(env, s, base, i, op, size).s.ipm == Wrap(s.ipm + OperandsLength(s, i, op, size))
  {
    var m, n := FirstLength(i, op, size), SecondLength(i, op, size);
    if op.Nop? {
      WrapAgain(s.ipm, 0, 0);
    } else if !NotSkipped(s, i) {
      SkipLength(s, i, op, size);
    } else {
      ExecLength(env, s, base, i, op, size);
    }
  }

  lemma SkipLength(s: Cpu, i: Instr, op: Op, size: Size)
    ensures SkipOperands(s, i, op, size).ipm == Wrap(s.ipm + FirstLength(i, op, size) + SecondLength(i, op, size))
  {
    WrapAgain(s.ipm, SecondLength(i, op, size), FirstLength(i, op, size));
  }

  lemma ExecLength(env: Env, s: Cpu, base: u32, i: Instr, op: Op, size: Size)
    requires i.Valid() && Dispatch(env, s, base, i, op, size).Ok? && !Branches(op) && !op.Nop? && NotSkipped(s, i)
    ensures Dispatch(env, s, base, i, op, size).s.ipm == Wrap(s.ipm + OperandsLength(s, i, op, size))
  {
    hide ExecStack, ExecUnary, ExecMove, ExecCompare, ExecAlu, ExecJump, Wrap;
    match KindOf(op)
    case NoOperand => WrapNothing(s.ipm);
    case Jumps =>
    case Stack => StackLength(env, s, i, op, size);
    case Unary => UnaryLength(env, s, i, op, size);
    case Moves => MoveLength(env, s, base, i, op, size);
    case Compares => CompareLength(env, s, i, op, size);
    case Alu => AluLength(env, s, i, op, size);
  }

  lemma StackLength(env: Env, s: Cpu, i: Instr, op: Op, size: Size)
    requires i.Valid() && KindOf(op) == Stack && ExecStack(env, s, i, op, size).Ok?
    ensures ExecStack(env, s, i, op, size).s.ipm == Wrap(s.ipm + FirstLength(i, op, size))
  {
    hide Source, Target, Load, Write, Wrap;
  }

  lemma UnaryLength(env: Env, s: Cpu, i: Instr, op: Op, size: Size)
    requires i.Valid() && KindOf(op) == Unary && ExecUnary(env, s, i, op, size).Ok?
    ensures ExecUnary(env, s, i, op, size).s.ipm == Wrap(s.ipm + FirstLength(i, op, size))
  {
    hide Source, Target, UnaryResult, Wrap;
  }

  lemma MoveLength(env: Env, s: Cpu, base: u32, i: Instr, op: Op, size: Size)
    requires i.Valid() && KindOf(op) == Moves && ExecMove(env, s, base, i, op, size).Ok?
    ensures var first := if FallsShort(i, op) then 1 else FirstLength(i, op, size);
            ExecMove(env, s, base, i, op, size).s.ipm == Wrap(s.ipm + first + SecondLength(i, op, size))
  {
    hide Source, Target, Wrap, Signed;
    WrapAgain(s.ipm, if FallsShort(i, op) then 1 else FirstLength(i, op, size), SecondLength(i, op, size));
  }

  lemma CompareLength(env: Env, s: Cpu, i: Instr, op: Op, size: Size)
    requires i.Valid() && KindOf(op) == Compares && ExecCompare(env, s, i, op, size).Ok?
    ensures ExecCompare(env, s, i, op, size).s.ipm
            == Wrap(s.ipm + FirstLength(i, op, size) + SecondLength(i, op, size))
  {
    hide Source, Wrap;
    WrapAgain(s.ipm, FirstLength(i, op, size), SecondLength(i, op, size));
  }

  lemma AluLength(env: Env, s: Cpu, i: Instr, op: Op, size: Size)
    requires i.Valid() && KindOf(op) == Alu && ExecAlu(env, s, i, op, size).Ok?
    ensures ExecAlu(env, s, i, op, size).s.ipm
            == Wrap(s.ipm + FirstLength(i, op, size) + SecondLength(i, op, size))
  {
    hide Source, Target, Wrap;
    WrapAgain(s.ipm, FirstLength(i, op, size), SecondLength(i, op, size));
  }
}
