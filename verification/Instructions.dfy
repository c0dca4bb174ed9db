/** What every single instruction does, from the bytes at the instruction pointer to the state after it. */
module Instructions {
  import opened Bytes
  import opened PageTables
  import opened Machine
  import opened MachineLaws
  import opened StackLaws
  import opened Manual

  // ---------- memory ----------

  lemma {:induction false} ReadsLe(env: Env, m: Ram, a: nat, n: nat)
    requires a + n <= RAM && n <= 4
    ensures ReadBytes(env, m, a, n) == Got(Le(m, a, n))
    decreases n
  {
    if n > 0 {
      ReadsLe(env, m, a + 1, n - 1);
    }
  }

  lemma ReadsValue(env: Env, m: Ram, size: Size, a: nat)
    requires a + size.Width() <= RAM
    ensures Read(env, m, size, a) == Got(Le(m, a, size.Width()))
  {
    ReadsLe(env, m, a, size.Width());
  }

  lemma PutsByte(m: Ram, a: nat, w: nat, x: nat)
    requires a + w <= RAM && w > 0
    ensures Put(m, a, w, x) == Put(m[a := x % 0x100], a + 1, w - 1, x / 0x100)
  {
  }

  lemma PutsPair(m: Ram, a: nat, x: nat)
    requires a + 2 <= RAM
    ensures Put(m, a, 2, x) == m[a := x % 0x100][a + 1 := x / 0x100 % 0x100]
  {
    hide Put;
    PutsByte(m, a, 2, x);
    PutsByte(m[a := x % 0x100], a + 1, 1, x / 0x100);
    PutsNothing(m[a := x % 0x100][a + 1 := x / 0x100 % 0x100], a + 2, x / 0x100 / 0x100);
  }

  lemma PutsNothing(m: Ram, a: nat, x: nat)
    requires a <= RAM
    ensures Put(m, a, 0, x) == m
  {
  }

  lemma PutsWord(m: Ram, a: nat, x: nat)
    requires a + 4 <= RAM
    ensures Put(m, a, 4, x) == Put(Put(m, a, 2, x % 0x1_0000), a + 2, 2, x / 0x1_0000)
  {
    hide Put;
    PutsByte(m, a, 4, x);
    PutsByte(m[a := x % 0x100], a + 1, 3, x / 0x100);
    PutsPair(m, a, x % 0x1_0000);
    QuarterBytes(x);
  }

  lemma QuarterBytes(x: nat)
    ensures x % 0x1_0000 % 0x100 == x % 0x100 && x % 0x1_0000 / 0x100 % 0x100 == x / 0x100 % 0x100
    ensures x / 0x100 / 0x100 == x / 0x1_0000
  {
    var h, l := x / 0x1_0000, x % 0x1_0000;
    LowByte(h, l);
    MidByte(h, l);
    ByteOf(h, l / 0x100);
  }

  lemma LowByte(h: nat, l: nat)
    ensures (0x1_0000 * h + l) % 0x100 == l % 0x100
  {
  }

  lemma MidByte(h: nat, l: nat)
    ensures (0x1_0000 * h + l) / 0x100 == 0x100 * h + l / 0x100
  {
  }

  lemma ByteOf(h: nat, q: nat)
    ensures (0x100 * h + q) % 0x100 == q % 0x100
    ensures q < 0x100 ==> (0x100 * h + q) / 0x100 == h
  {
  }

  lemma PairPut(m: Ram, a: nat, v: u16)
    requires a + 2 <= RAM
    ensures WritePair(m, a, v) == Put(m, a, 2, v)
  {
    PutsPair(m, a, v);
  }

  lemma WritesValue(m: Ram, size: Size, a: nat, v: u32)
    requires a + size.Width() <= RAM && v < size.Modulus()
    ensures Write(m, size, a, v) == Put(m, a, size.Width(), v)
  {
    hide WritePair, Put;
    match size
    case Byte =>
      PutsByte(m, a, 1, v);
      PutsNothing(m[a := v % 0x100], a + 1, v / 0x100);
    case Half =>
      PairPut(m, a, v);
    case Word =>
      PairPut(m, a, v % 0x1_0000);
      WrapNothing(a + 2);
      PairPut(Put(m, a, 2, v % 0x1_0000), a + 2, v / 0x1_0000);
      PutsWord(m, a, v);
  }

  // ---------- fetching ----------

  function SizeOf(c: Code): Size {
    if c.size == 0 then Byte else if c.size == 1 then Half else Word
  }

  function InstrOf(c: Code): Instr
    requires c.op < 0x40 && c.size < 3
  {
    Instr(0x40 * c.size + c.op, c.condition, c.offset, c.target, c.source)
  }

  lemma FieldsOf(c: Code)
    requires c.Valid()
    ensures InstrFrom(0x80 * c.offset + 0x10 * c.condition + 4 * c.target + c.source + 0x100 * (0x40 * c.size + c.op))
            == InstrOf(c)
  {
    var hi := 0x40 * c.size + c.op;
    SourceField(0x40 * hi + 0x20 * c.offset + 4 * c.condition + c.target, c.source);
    TargetField(0x10 * hi + 8 * c.offset + c.condition, c.target, c.source);
    ConditionField(2 * hi + c.offset, c.condition, 4 * c.target + c.source);
    OffsetField(hi, c.offset, 0x10 * c.condition + 4 * c.target + c.source);
    OpcodeField(hi, 0x80 * c.offset + 0x10 * c.condition + 4 * c.target + c.source);
  }

  lemma SourceField(q: nat, n: nat)
    requires n < 4
    ensures (4 * q + n) / 4 == q && (4 * q + n) % 4 == n
  {
  }

  lemma TargetField(q: nat, n: nat, r: nat)
    requires n < 4 && r < 4
    ensures (0x10 * q + 4 * n + r) / 4 % 4 == n
  {
    SourceField(4 * q + n, r);
    SourceField(q, n);
  }

  lemma ConditionField(q: nat, n: nat, r: nat)
    requires n < 8 && r < 0x10
    ensures (0x80 * q + 0x10 * n + r) / 0x10 % 8 == n
  {
    assert (0x80 * q + 0x10 * n + r) / 0x10 == 8 * q + n;
    Remainder8(q, n);
  }

  lemma Remainder8(q: nat, n: nat)
    requires n < 8
    ensures (8 * q + n) % 8 == n
  {
  }

  lemma OffsetField(q: nat, n: nat, r: nat)
    requires n < 2 && r < 0x80
    ensures (0x100 * q + 0x80 * n + r) / 0x80 % 2 == n
  {
    assert (0x100 * q + 0x80 * n + r) / 0x80 == 2 * q + n;
    Remainder2(q, n);
  }

  lemma Remainder2(q: nat, n: nat)
    requires n < 2
    ensures (2 * q + n) % 2 == n
  {
  }

  lemma OpcodeField(q: nat, r: nat)
    requires r < 0x100
    ensures (0x100 * q + r) / 0x100 == q
  {
  }

  lemma OperationOf(c: Code, op: Op, wordOnly: bool)
    requires c.Valid() && DecodeOp(c.op) == Some((op, wordOnly)) && (wordOnly ==> c.size == 2)
    ensures Decode(0x40 * c.size + c.op) == Some((op, SizeOf(c)))
  {
    hide DecodeOp;
  }

  // An instruction whose bytes stand at the instruction pointer is fetched.
  lemma Fetches(env: Env, s: Cpu, c: Code, op: Op, wordOnly: bool)
    requires CodeAt(s, c) && DecodeOp(c.op) == Some((op, wordOnly)) && (wordOnly ==> c.size == 2)
    ensures Fetched(env, s) == Some((InstrOf(c), op, SizeOf(c)))
    ensures Execute(env, s) == ExecuteAs(env, s, InstrOf(c), op, SizeOf(c))
  {
    hide DecodeOp, Decode, InstrFrom, ExecuteAs, Read;
    FieldsOf(c);
    OperationOf(c, op, wordOnly);
    ReadsHalf(env, s.mem, s.ip);
  }

  lemma Conditions(s: Cpu, condition: nat)
    ensures condition < 7 ==> ShouldSkip(s, condition) == Ok(s, !Meets(condition, s.f))
    ensures condition >= 7 ==> ShouldSkip(s, condition) == Panic(s, BadCondition)
  {
  }

  // ---------- operands ----------

  lemma LocalIs(env: Env, s: Cpu, at: nat)
    requires at < RAM && s.mem[at] <= 34
    ensures LocalAt(env, s, at) == Ok(s, Register(s.l, s.mem[at]))
  {
    ReadsByte(env, s.mem, at);
  }

  lemma SpanIs(size: Size)
    ensures SpanOf(size.Width()) == size.Modulus()
  {
  }

  lemma OperandIs(env: Env, s: Cpu, size: Size, x: Arg)
    requires x.Plain(s, size.Width())
    ensures Operand(env, s, size, x.kind, x.offset, x.at) == Ok(s, x.Value(s, size.Width()))
    ensures x.Value(s, size.Width()) < size.Modulus()
  {
    hide Read, LocalAt, Le;
    var w := size.Width();
    SpanIs(size);
    if x.kind < 2 {
      LocalIs(env, s, x.at);
    }
    if x.kind == 1 {
      if x.offset == 1 {
        WrapNothing(x.at + 1);
        ReadsByte(env, s.mem, x.at + 1);
      }
      ReadsValue(env, s.mem, size, x.Address(s, w));
    } else if x.kind == 2 {
      ReadsValue(env, s.mem, size, x.at);
    } else if x.kind == 3 {
      ReadsValue(env, s.mem, Word, x.at);
      ReadsValue(env, s.mem, size, x.Address(s, w));
    }
  }

  // A register of which only the low part is assigned keeps the rest.
  lemma RegisterAssigned(env: Env, s: Cpu, size: Size, x: Arg, v: u32)
    requires x.Plain(s, size.Width()) && x.kind == 0 && v < size.Modulus()
    ensures v < SpanOf(size.Width())
    ensures Assign(env, s, size, false, x.kind, v, x.offset, x.at) == Ok(x.Stored(s, size.Width(), v), ())
  {
    hide Read, Le, Put, Arg.Address, Merge, GetLocal, SetLocal, Register, WithRegister;
    SpanIs(size);
    ReadsByte(env, s.mem, x.at);
    LocalsAre(s, s.mem[x.at]);
    MergeIs(Register(s.l, s.mem[x.at]), size, v);
  }

  lemma LocalsAre(s: Cpu, n: nat)
    requires n <= 34
    ensures n < 0x100 && GetLocal(s, n) == Ok(s, Register(s.l, n))
    ensures forall v: u32 :: SetLocal(s.l, n, v) == WithRegister(s.l, n, v)
  {
  }

  lemma MergeIs(was: u32, size: Size, v: u32)
    requires v < size.Modulus()
    ensures 0 <= was - was % SpanOf(size.Width()) + v < WORD
    ensures Merge(was, size, false, v) == was - was % SpanOf(size.Width()) + v
  {
  }

  // The address a pointer operand names, as the assignment finds it.
  lemma MemoryAssigned(env: Env, s: Cpu, size: Size, zero: bool, x: Arg, v: u32)
    requires x.Plain(s, size.Width()) && (x.kind == 1 || x.kind == 3) && v < size.Modulus()
    ensures Assign(env, s, size, zero, x.kind, v, x.offset, x.at)
            == Ok(s.(mem := Write(s.mem, if zero then Word else size, x.Address(s, size.Width()), v)), ())
  {
    hide Read, LocalAt, Le, Write;
    if x.kind == 1 {
      LocalIs(env, s, x.at);
      if x.offset == 1 {
        WrapNothing(x.at + 1);
        ReadsByte(env, s.mem, x.at + 1);
      }
    } else {
      ReadsValue(env, s.mem, Word, x.at);
    }
  }

  lemma AssignIs(env: Env, s: Cpu, size: Size, x: Arg, v: u32)
    requires x.Plain(s, size.Width()) && x.kind != 2 && v < size.Modulus()
    ensures v < SpanOf(size.Width())
    ensures Assign(env, s, size, false, x.kind, v, x.offset, x.at) == Ok(x.Stored(s, size.Width(), v), ())
  {
    hide Assign, Le, Write, Put;
    SpanIs(size);
    if x.kind == 0 {
      RegisterAssigned(env, s, size, x, v);
    } else {
      MemoryAssigned(env, s, size, false, x, v);
      WritesValue(s.mem, size, x.Address(s, size.Width()), v);
    }
  }

  // An operand does not see the instruction pointers.
  lemma Elsewhere(s: Cpu, p: u32, x: Arg, w: nat)
    ensures x.Plain(s.(ipm := p), w) == x.Plain(s, w)
    ensures x.Plain(s, w) ==> x.Value(s.(ipm := p), w) == x.Value(s, w)
    ensures x.Plain(s, w) && x.kind != 2 ==>
              forall v: u32 | v < SpanOf(w) :: x.Stored(s.(ipm := p), w, v) == x.Stored(s, w, v).(ipm := p)
  {
  }

  lemma SourceIs(env: Env, s: Cpu, size: Size, x: Arg, move: bool)
    requires x.Plain(s, size.Width()) && x.at == s.ipm
    ensures x.at + x.Length(size.Width()) < WORD && x.Value(s, size.Width()) < size.Modulus()
    ensures Source(env, s, size, x.kind, x.offset, move)
            == Ok(if move then s.(ipm := x.at + x.Length(size.Width())) else s, x.Value(s, size.Width()))
  {
    hide Operand, Arg.Value, Arg.Address;
    var w := size.Width();
    var moved := if move then Advance(s, OperandBytes(w, x.kind, x.offset)) else s;
    WrapNothing(x.at + x.Length(w));
    Elsewhere(s, moved.ipm, x, w);
    OperandIs(env, moved, size, x);
  }

  lemma TargetIs(env: Env, s: Cpu, size: Size, x: Arg, v: u32)
    requires x.Plain(s, size.Width()) && x.at == s.ipm && x.kind != 2 && v < size.Modulus()
    ensures v < SpanOf(size.Width()) && x.at + x.Length(size.Width()) < WORD
    ensures Target(env, s, size, false, x.kind, v, x.offset)
            == Ok(x.Stored(s, size.Width(), v).(ipm := x.at + x.Length(size.Width())), ())
  {
    hide Assign, Arg.Stored, Arg.Address;
    var w := size.Width();
    var moved := Advance(s, OperandBytes(w, x.kind, x.offset));
    SpanIs(size);
    WrapNothing(x.at + x.Length(w));
    Elsewhere(s, moved.ipm, x, w);
    AssignIs(env, moved, size, x, v);
  }

  // ---------- one instruction ----------

  // The operands of an instruction at the instruction pointer; the source, which is first, is for values
  // of w bytes.
  function FirstArg(s: Cpu, c: Code): Arg {
    Arg(c.source, c.offset, s.ip + 2)
  }

  function SecondArg(s: Cpu, c: Code, w: nat): Arg {
    Arg(c.target, c.offset, s.ip + 2 + FirstArg(s, c).Length(w))
  }

  // An instruction whose condition is met is its body between fetch and commit.
  lemma BodyRuns(env: Env, s: Cpu, c: Code, op: Op, wordOnly: bool)
    requires CodeAt(s, c) && Meets(c.condition, s.f) && !op.Nop? && !op.Loop?
    requires DecodeOp(c.op) == Some((op, wordOnly)) && (wordOnly ==> c.size == 2)
    ensures InstrOf(c).Valid()
    ensures Execute(env, s)
            == match Body(env, s.(ipm := s.ip + 2), s.ip, InstrOf(c), op, SizeOf(c))
               case Ok(s1, _) => Ok(s1.(ip := s1.ipm), ())
               case Panic(s1, err) => Panic(s1, err)
  {
    hide DecodeOp, Fetched, Execute, Body;
    Fetches(env, s, c, op, wordOnly);
    Conditions(s, c.condition);
    RunsBody(env, s, InstrOf(c), op, SizeOf(c));
    WrapNothing(s.ip + 2);
  }

  // Both operands, as an instruction reads them; the second one is passed over, or stays to be written.
  lemma ReadsBoth(env: Env, s: Cpu, c: Code, first: Size, move: bool)
    requires CodeAt(s, c) && FirstArg(s, c).Plain(s, first.Width()) && SecondArg(s, c, first.Width()).Plain(s, c.Width())
    ensures var n, w := first.Width(), c.Width();
            var source, target := FirstArg(s, c), SecondArg(s, c, n);
            && source.Value(s, n) < first.Modulus() && target.Value(s, w) < SizeOf(c).Modulus()
            && target.at < WORD && target.at + target.Length(w) < WORD
            && Source(env, s.(ipm := s.ip + 2), first, c.source, c.offset, true)
               == Ok(s.(ipm := target.at), source.Value(s, n))
            && Source(env, s.(ipm := target.at), SizeOf(c), c.target, c.offset, move)
               == Ok(s.(ipm := if move then target.at + target.Length(w) else target.at), target.Value(s, w))
  {
    hide Source, Arg.Value, Arg.Plain;
    var size, n, w := SizeOf(c), first.Width(), c.Width();
    var source, target := FirstArg(s, c), SecondArg(s, c, n);
    var s0 := s.(ipm := s.ip + 2);
    Elsewhere(s, s0.ipm, source, n);
    SourceIs(env, s0, first, source, true);
    var s1 := s.(ipm := target.at);
    Elsewhere(s, s1.ipm, target, w);
    SourceIs(env, s1, size, target, move);
  }

  lemma WritesTarget(env: Env, s: Cpu, c: Code, n: nat, v: u32)
    requires CodeAt(s, c) && SecondArg(s, c, n).Plain(s, c.Width()) && c.target != 2 && v < SizeOf(c).Modulus()
    ensures var w, target := c.Width(), SecondArg(s, c, n);
            && v < SpanOf(w) && target.at + target.Length(w) < WORD
            && var t := target.Stored(s, w, v);
               && t == s.(l := t.l, mem := t.mem)
               && Target(env, s.(ipm := target.at), SizeOf(c), false, c.target, v, c.offset)
                  == Ok(t.(ipm := target.at + target.Length(w)), ())
  {
    hide Target, Arg.Stored, Arg.Address;
    var size, w, target := SizeOf(c), c.Width(), SecondArg(s, c, n);
    var s1 := s.(ipm := target.at);
    Elsewhere(s, s1.ipm, target, w);
    SpanIs(size);
    TargetIs(env, s1, size, target, v);
    StoredKeeps(s, target, w, v);
  }

  lemma AluRuns(env: Env, s: Cpu, c: Code, op: Op)
    requires CodeAt(s, c) && Meets(c.condition, s.f) && DecodeOp(c.op) == Some((op, false)) && KindOf(op) == Alu
    requires var n := if op.Shift? then 1 else c.Width();
             && FirstArg(s, c).Plain(s, n) && SecondArg(s, c, n).Plain(s, c.Width()) && c.target != 2
             && (op.Divide? ==> FirstArg(s, c).Value(s, n) != 0)
    ensures var n, w := if op.Shift? then 1 else c.Width(), c.Width();
            var source, target := FirstArg(s, c), SecondArg(s, c, n);
            && source.Value(s, n) < WORD && target.Value(s, w) < WORD && target.at + target.Length(w) < WORD
            && var r := env.alu(op, SizeOf(c), s.f.carry, target.Value(s, w), source.Value(s, n));
               var x := SizeOf(c).Truncate(r.value);
               && x < SpanOf(w)
               && Execute(env, s) == Ok(target.Stored(s, w, x).(ip := target.at + target.Length(w),
                    ipm := target.at + target.Length(w),
                    f := s.f.(zero := x == 0, carry := if op.Arithmetic? then r.carry else s.f.carry)), ())
  {
    hide DecodeOp, Execute, Source, Target, Arg.Value, Arg.Stored, Arg.Plain, Size.Truncate, CodeAt;
    BodyRuns(env, s, c, op, false);
    var size, w := SizeOf(c), c.Width();
    var first := if op.Shift? then Byte else size;
    var source, target := FirstArg(s, c), SecondArg(s, c, first.Width());
    ReadsBoth(env, s, c, first, false);
    var r := env.alu(op, size, s.f.carry, target.Value(s, w), source.Value(s, first.Width()));
    WritesTarget(env, s, c, first.Width(), size.Truncate(r.value));
  }

  // A division by zero panics once both operands are read.
  lemma DivisionPanics(env: Env, s: Cpu, c: Code, op: Op)
    requires CodeAt(s, c) && Meets(c.condition, s.f) && DecodeOp(c.op) == Some((op, false)) && op.Divide?
    requires FirstArg(s, c).Plain(s, c.Width()) && SecondArg(s, c, c.Width()).Plain(s, c.Width())
    requires FirstArg(s, c).Value(s, c.Width()) == 0
    ensures SecondArg(s, c, c.Width()).at < WORD
    ensures Execute(env, s) == Panic(s.(ipm := SecondArg(s, c, c.Width()).at), DivZero)
  {
    hide DecodeOp, Execute, Source, Target, Arg.Value, Arg.Plain, CodeAt;
    BodyRuns(env, s, c, op, false);
    ReadsBoth(env, s, c, SizeOf(c), false);
  }

  lemma StoredKeeps(s: Cpu, x: Arg, w: nat, v: u32)
    requires x.Plain(s, w) && x.kind != 2 && v < SpanOf(w)
    ensures var t := x.Stored(s, w, v); t == s.(l := t.l, mem := t.mem)
  {
  }

  lemma UnaryRuns(env: Env, s: Cpu, c: Code, op: Op)
    requires CodeAt(s, c) && Meets(c.condition, s.f) && DecodeOp(c.op) == Some((op, false)) && KindOf(op) == Unary
    requires FirstArg(s, c).Plain(s, c.Width()) && c.source != 2
    ensures var w, x := c.Width(), FirstArg(s, c);
            && x.Value(s, w) < SizeOf(c).Modulus() && x.at + x.Length(w) < WORD && InstrOf(c).Valid()
            && var r := UnaryResult(env, s.f.carry, InstrOf(c), op, SizeOf(c), x.Value(s, w));
               var v := SizeOf(c).Truncate(r.value);
               && v < SpanOf(w)
               && Execute(env, s) == Ok(x.Stored(s, w, v).(ip := x.at + x.Length(w), ipm := x.at + x.Length(w),
                    f := s.f.(zero := v == 0, carry := r.carry)), ())
  {
    hide DecodeOp, Execute, Source, Target, Arg.Value, Arg.Stored, Arg.Plain, Size.Truncate, UnaryResult;
    BodyRuns(env, s, c, op, false);
    var size, w, x := SizeOf(c), c.Width(), FirstArg(s, c);
    var s0 := s.(ipm := s.ip + 2);
    Elsewhere(s, s0.ipm, x, w);
    SourceIs(env, s0, size, x, false);
    var v := size.Truncate(UnaryResult(env, s.f.carry, InstrOf(c), op, size, x.Value(s, w)).value);
    SpanIs(size);
    TargetIs(env, s0, size, x, v);
    StoredKeeps(s, x, w, v);
  }

  // MOV (0x17)
  lemma MovWorks(env: Env, s: Cpu, c: Code)
    requires CodeAt(s, c) && Meets(c.condition, s.f) && c.op == 0x17 && c.target != 2
    requires FirstArg(s, c).Plain(s, c.Width()) && SecondArg(s, c, c.Width()).Plain(s, c.Width())
    ensures var w := c.Width();
            var source, target := FirstArg(s, c), SecondArg(s, c, w);
            && source.Value(s, w) < SpanOf(w) && target.at + target.Length(w) < WORD
            && Execute(env, s) == Ok(target.Stored(s, w, source.Value(s, w)).(ip := target.at + target.Length(w),
                 ipm := target.at + target.Length(w)), ())
  {
    hide Execute, Source, Target, Arg.Value, Arg.Stored, Arg.Plain, CodeAt;
    BodyRuns(env, s, c, Mov(false), false);
    SpanIs(SizeOf(c));
    ReadsBoth(env, s, c, SizeOf(c), false);
    WritesTarget(env, s, c, c.Width(), FirstArg(s, c).Value(s, c.Width()));
  }

  // A zero-extending assignment writes a whole word to memory.
  lemma ZeroAssigned(env: Env, s: Cpu, size: Size, x: Arg, v: u32)
    requires x.Plain(s, size.Width()) && x.Plain(s, 4) && x.kind != 2 && v < size.Modulus()
    ensures Assign(env, s, size, true, x.kind, v, x.offset, x.at) == Ok(x.Stored(s, 4, v), ())
  {
    hide Assign, Le, Write, Put;
    if x.kind == 0 {
      ZeroRegister(env, s, size, x, v);
    } else {
      MemoryAssigned(env, s, size, true, x, v);
      WritesValue(s.mem, Word, x.Address(s, 4), v);
    }
  }

  lemma ZeroRegister(env: Env, s: Cpu, size: Size, x: Arg, v: u32)
    requires x.Plain(s, 4) && x.kind == 0 && v < size.Modulus()
    ensures Assign(env, s, size, true, x.kind, v, x.offset, x.at) == Ok(x.Stored(s, 4, v), ())
  {
    hide Read, Le;
    ReadsByte(env, s.mem, x.at);
  }

  lemma ZeroTargetIs(env: Env, s: Cpu, size: Size, x: Arg, v: u32)
    requires x.Plain(s, size.Width()) && x.Plain(s, 4) && x.at == s.ipm && x.kind != 2 && v < size.Modulus()
    ensures x.at + x.Length(4) < WORD && x.Length(4) == x.Length(size.Width())
    ensures Target(env, s, size, true, x.kind, v, x.offset) == Ok(x.Stored(s, 4, v).(ipm := x.at + x.Length(4)), ())
  {
    hide Assign, Arg.Stored, Arg.Address;
    var w := size.Width();
    var moved := Advance(s, OperandBytes(w, x.kind, x.offset));
    WrapNothing(x.at + x.Length(w));
    Elsewhere(s, moved.ipm, x, w);
    Elsewhere(s, moved.ipm, x, 4);
    ZeroAssigned(env, moved, size, x, v);
  }

  // MOVZ (0x27) fills the rest of a register with zeros, and writes four bytes to memory.
  lemma MovzWorks(env: Env, s: Cpu, c: Code)
    requires CodeAt(s, c) && Meets(c.condition, s.f) && c.op == 0x27 && c.target != 2
    requires FirstArg(s, c).Plain(s, c.Width()) && SecondArg(s, c, c.Width()).Plain(s, c.Width())
    requires SecondArg(s, c, c.Width()).Plain(s, 4)
    ensures var w := c.Width();
            var source, target := FirstArg(s, c), SecondArg(s, c, w);
            && source.Value(s, w) < WORD && target.at + target.Length(4) < WORD
            && Execute(env, s) == Ok(target.Stored(s, 4, source.Value(s, w)).(ip := target.at + target.Length(4),
                 ipm := target.at + target.Length(4)), ())
  {
    hide Execute, Source, Target, Arg.Value, Arg.Stored, Arg.Plain;
    BodyRuns(env, s, c, Mov(true), false);
    var size, w := SizeOf(c), c.Width();
    var source, target := FirstArg(s, c), SecondArg(s, c, w);
    var s0 := s.(ipm := s.ip + 2);
    Elsewhere(s, s0.ipm, source, w);
    SourceIs(env, s0, size, source, true);
    var s1 := s0.(ipm := target.at);
    Elsewhere(s, s1.ipm, target, w);
    Elsewhere(s, s1.ipm, target, 4);
    ZeroTargetIs(env, s1, size, target, source.Value(s, w));
    StoredKeeps(s, target, 4, source.Value(s, w));
  }

  // RTA (0x39): the instruction's own address plus the signed operand
  lemma RtaWorks(env: Env, s: Cpu, c: Code)
    requires CodeAt(s, c) && Meets(c.condition, s.f) && c.op == 0x39 && c.target != 2
    requires FirstArg(s, c).Plain(s, c.Width()) && SecondArg(s, c, c.Width()).Plain(s, 4)
    ensures var w := c.Width();
            var source, target := FirstArg(s, c), SecondArg(s, c, w);
            && source.Value(s, w) < SpanOf(w) && target.at + target.Length(4) < WORD
            && Execute(env, s) == Ok(target.Stored(s, 4, (s.ip + Integer(source.Value(s, w), SpanOf(w))) % WORD).(
                 ip := target.at + target.Length(4), ipm := target.at + target.Length(4)), ())
  {
    hide Execute, Source, Target, Arg.Value, Arg.Stored, Arg.Plain, Signed, Integer;
    BodyRuns(env, s, c, Rta, false);
    var size, w := SizeOf(c), c.Width();
    var source, target := FirstArg(s, c), SecondArg(s, c, w);
    var s0 := s.(ipm := s.ip + 2);
    Elsewhere(s, s0.ipm, source, w);
    SourceIs(env, s0, size, source, true);
    var s1 := s0.(ipm := target.at);
    Elsewhere(s, s1.ipm, target, 4);
    SpanIs(size);
    SignedIs(size, source.Value(s, w));
    var v: u32 := (s.ip + Integer(source.Value(s, w), SpanOf(w))) % WORD;
    TargetIs(env, s1, Word, target, v);
    StoredKeeps(s, target, 4, v);
  }

  lemma SignedIs(size: Size, v: u32)
    requires v < size.Modulus()
    ensures Signed(size, v) == Integer(v, SpanOf(size.Width()))
  {
  }

  // IN (0x0B), whose source is read without its displacement.  A port that cannot be read panics.
  lemma InWorks(env: Env, s: Cpu, c: Code)
    requires CodeAt(s, c) && Meets(c.condition, s.f) && c.op == 0x0B && c.size == 2 && c.target != 2
    requires var source := Arg(c.source, 0, s.ip + 2);
             source.Plain(s, 4) && Arg(c.target, c.offset, source.at + source.Length(4)).Plain(s, 4)
    ensures var source := Arg(c.source, 0, s.ip + 2);
            var target := Arg(c.target, c.offset, source.at + source.Length(4));
            && target.at < WORD && target.at + target.Length(4) < WORD && source.Value(s, 4) < WORD
            && Execute(env, s) ==
                 match env.ioRead(source.Value(s, 4))
                 case None => Panic(s.(ipm := target.at), IoRead)
                 case Some(x) => Ok(target.Stored(s, 4, x).(ip := target.at + target.Length(4),
                                                            ipm := target.at + target.Length(4)), ())
  {
    hide Execute, Source, Target, Arg.Value, Arg.Stored, Arg.Plain;
    BodyRuns(env, s, c, In, true);
    var source := Arg(c.source, 0, s.ip + 2);
    var target := Arg(c.target, c.offset, source.at + source.Length(4));
    var s0 := s.(ipm := s.ip + 2);
    Elsewhere(s, s0.ipm, source, 4);
    SourceIs(env, s0, Word, source, true);
    var s1 := s0.(ipm := target.at);
    Elsewhere(s, s1.ipm, target, 4);
    var read := env.ioRead(source.Value(s, 4));
    var x: u32 := if read.Some? then read.value else 0;
    TargetIs(env, s1, Word, target, x);
    StoredKeeps(s, target, 4, x);
  }

  // CMP, ICMP, BTS and OUT read both operands.
  lemma CompareReads(env: Env, s: Cpu, c: Code, op: Op, wordOnly: bool)
    requires CodeAt(s, c) && Meets(c.condition, s.f) && DecodeOp(c.op) == Some((op, wordOnly)) && (wordOnly ==> c.size == 2)
    requires KindOf(op) == Compares
    requires var n := if op.BitTest? then 1 else c.Width();
             FirstArg(s, c).Plain(s, n) && SecondArg(s, c, n).Plain(s, c.Width())
    ensures var n, w := if op.BitTest? then 1 else c.Width(), c.Width();
            var source, target := FirstArg(s, c), SecondArg(s, c, n);
            var next := target.at + target.Length(w);
            && source.Value(s, n) < WORD && target.Value(s, w) < WORD && next < WORD
            && var a, b := source.Value(s, n), target.Value(s, w);
               Execute(env, s) ==
                 if op.Out? then
                   if env.ioWrite(b, a) then Ok(s.(ip := next, ipm := next), ()) else Panic(s.(ipm := next), IoWrite)
                 else
                   var r := env.alu(op, SizeOf(c), s.f.carry, b, a);
                   Ok(s.(ip := next, ipm := next, f := s.f.(carry := if op.Cmp? then r.carry else s.f.carry,
                                                            zero := SizeOf(c).Truncate(r.value) == 0)), ())
  {
    hide DecodeOp, Execute, Source, Arg.Value, Arg.Plain, Size.Truncate, CodeAt;
    BodyRuns(env, s, c, op, wordOnly);
    ReadsBoth(env, s, c, if op.BitTest? then Byte else SizeOf(c), true);
  }

  // ---------- the stack ----------

  // PUSH (0x0A)
  lemma PushWorks(env: Env, s: Cpu, c: Code)
    requires CodeAt(s, c) && Meets(c.condition, s.f) && c.op == 0x0A
    requires FirstArg(s, c).Plain(s, c.Width()) && c.Width() <= s.l.sp <= RAM
    ensures var w, x := c.Width(), FirstArg(s, c);
            var sp := s.l.sp - w;
            && x.at + x.Length(w) < WORD
            && Execute(env, s) == Ok(s.(l := s.l.(sp := sp), mem := Put(s.mem, sp, w, x.Value(s, w)),
                 ip := x.at + x.Length(w), ipm := x.at + x.Length(w)), ())
  {
    hide Execute, Source, Arg.Value, Arg.Plain, Write, Put;
    BodyRuns(env, s, c, PushFrom, false);
    var size, w, x := SizeOf(c), c.Width(), FirstArg(s, c);
    var s0 := s.(ipm := s.ip + 2);
    Elsewhere(s, s0.ipm, x, w);
    SourceIs(env, s0, size, x, true);
    WrapNothing(s.l.sp - w);
    WritesValue(s.mem, size, s.l.sp - w, x.Value(s, w));
  }

  // POP (0x1A), whose target is found with the old stack pointer
  lemma PopWorks(env: Env, s: Cpu, c: Code)
    requires CodeAt(s, c) && Meets(c.condition, s.f) && c.op == 0x1A && c.source != 2
    requires FirstArg(s, c).Plain(s, c.Width()) && s.l.sp + c.Width() <= RAM
    ensures var w, x := c.Width(), FirstArg(s, c);
            && x.at + x.Length(w) < WORD && Le(s.mem, s.l.sp, w) < SpanOf(w)
            && var t := x.Stored(s, w, Le(s.mem, s.l.sp, w));
               Execute(env, s) == Ok(t.(l := t.l.(sp := s.l.sp + w),
                                        ip := x.at + x.Length(w), ipm := x.at + x.Length(w)), ())
  {
    hide Execute, Target, Arg.Stored, Arg.Plain, Read, Le;
    BodyRuns(env, s, c, PopTo, false);
    var size, w, x := SizeOf(c), c.Width(), FirstArg(s, c);
    var s0 := s.(ipm := s.ip + 2);
    SpanIs(size);
    ReadsValue(env, s.mem, size, s.l.sp);
    WrapNothing(s.l.sp + w);
    Elsewhere(s, s0.ipm, x, w);
    TargetIs(env, s0, size, x, Le(s.mem, s.l.sp, w));
    StoredKeeps(s, x, w, Le(s.mem, s.l.sp, w));
  }

  // ---------- jumps ----------

  // Where a jump, a call or a loop goes: to the value of its operand, or that far from the instruction.
  function Destination(s: Cpu, relative: bool, v: nat, m: nat): u32 {
    if relative then (s.ip + Integer(v, m)) % WORD else v % WORD
  }

  lemma DestinationIs(s: Cpu, relative: bool, size: Size, v: u32)
    requires v < size.Modulus()
    ensures JumpTarget(s.ip, relative, size, v) == Destination(s, relative, v, SpanOf(size.Width()))
  {
    SignedIs(size, v);
  }

  // JMP (0x08) and RJMP (0x09)
  lemma JumpWorks(env: Env, s: Cpu, c: Code, relative: bool)
    requires CodeAt(s, c) && Meets(c.condition, s.f) && c.op == (if relative then 0x09 else 0x08)
    requires (relative || c.size == 2) && FirstArg(s, c).Plain(s, c.Width())
    ensures var w := c.Width();
            var to := Destination(s, relative, FirstArg(s, c).Value(s, w), SpanOf(w));
            Execute(env, s) == Ok(s.(ip := to, ipm := to), ())
  {
    hide Execute, Source, Arg.Value, Arg.Plain, Destination, JumpTarget;
    BodyRuns(env, s, c, Jmp(relative), !relative);
    var size, w, x := SizeOf(c), c.Width(), FirstArg(s, c);
    var s0 := s.(ipm := s.ip + 2);
    Elsewhere(s, s0.ipm, x, w);
    SourceIs(env, s0, size, x, true);
    DestinationIs(s, relative, size, x.Value(s, w));
  }

  // CALL (0x18) and RCALL (0x19)
  lemma CallWorks(env: Env, s: Cpu, c: Code, relative: bool)
    requires CodeAt(s, c) && Meets(c.condition, s.f) && c.op == (if relative then 0x19 else 0x18)
    requires (relative || c.size == 2) && FirstArg(s, c).Plain(s, c.Width()) && 4 <= s.l.sp <= RAM
    ensures var w, x := c.Width(), FirstArg(s, c);
            var to, sp := Destination(s, relative, x.Value(s, w), SpanOf(w)), s.l.sp - 4;
            Execute(env, s) == Ok(s.(l := s.l.(sp := sp), mem := Put(s.mem, sp, 4, x.at + x.Length(w)),
                                     ip := to, ipm := to), ())
  {
    hide Execute, Source, Arg.Value, Arg.Plain, Destination, JumpTarget, Write, Put;
    BodyRuns(env, s, c, Call(relative), !relative);
    var size, w, x := SizeOf(c), c.Width(), FirstArg(s, c);
    var s0 := s.(ipm := s.ip + 2);
    Elsewhere(s, s0.ipm, x, w);
    SourceIs(env, s0, size, x, true);
    DestinationIs(s, relative, size, x.Value(s, w));
    WrapNothing(s.l.sp - 4);
    WritesValue(s.mem, Word, s.l.sp - 4, x.at + x.Length(w));
  }

  // LOOP (0x28) and RLOOP (0x29): the counter drops first, and the operand is read with its new value.
  lemma LoopWorks(env: Env, s: Cpu, c: Code, relative: bool)
    requires CodeAt(s, c) && Meets(c.condition, s.f) && c.op == (if relative then 0x29 else 0x28)
    requires relative || c.size == 2
    requires var s1 := s.(l := s.l.(regs := s.l.regs[31 := (s.l.regs[31] - 1) % WORD]));
             FirstArg(s, c).Plain(s1, c.Width())
    ensures var w, x, count := c.Width(), FirstArg(s, c), (s.l.regs[31] - 1) % WORD;
            var s1 := s.(l := s.l.(regs := s.l.regs[31 := count]));
            && x.at + x.Length(w) < WORD
            && var to := if count == 0 then x.at + x.Length(w) else Destination(s, relative, x.Value(s1, w), SpanOf(w));
               Execute(env, s) == Ok(s1.(ip := to, ipm := to), ())
  {
    hide Execute, Fetched, Source, Arg.Value, Arg.Plain, Destination, JumpTarget;
    Fetches(env, s, c, Loop(relative), !relative);
    var size, w, x, count := SizeOf(c), c.Width(), FirstArg(s, c), (s.l.regs[31] - 1) % WORD;
    var s0 := s.(ipm := s.ip + 2);
    WrapNothing(s.ip + 2);
    Conditions(s0, c.condition);
    var s1 := s.(l := s.l.(regs := s.l.regs[31 := count]));
    var s2 := s1.(ipm := s.ip + 2);
    Elsewhere(s1, s2.ipm, x, w);
    SourceIs(env, s2, size, x, true);
    DestinationIs(s, relative, size, x.Value(s1, w));
    SkipsOver(s2, x, w);
  }

  lemma SkipsOver(s: Cpu, x: Arg, w: nat)
    requires x.Plain(s, w) && x.at == s.ipm
    ensures x.at + x.Length(w) < WORD && SkipParam(s, w, x.kind, x.offset) == s.(ipm := x.at + x.Length(w))
  {
    WrapNothing(x.at + x.Length(w));
  }

  // ---------- skipped instructions ----------

  // An instruction whose condition is not met moves past its operands and does nothing else.
  lemma Skipped(env: Env, s: Cpu, c: Code, op: Op, wordOnly: bool)
    requires CodeAt(s, c) && c.condition < 7 && !Meets(c.condition, s.f) && !op.Nop?
    requires DecodeOp(c.op) == Some((op, wordOnly)) && (wordOnly ==> c.size == 2)
    ensures var next := Wrap(s.ip + Length(InstrOf(c), op, SizeOf(c)));
            Execute(env, s) == Ok(s.(ip := next, ipm := next), ())
  {
    hide DecodeOp, Execute, Fetched, FirstLength, SecondLength, SkipOperands;
    Fetches(env, s, c, op, wordOnly);
    var i, size, s0 := InstrOf(c), SizeOf(c), s.(ipm := s.ip + 2);
    WrapNothing(s.ip + 2);
    Conditions(s0, c.condition);
    SkipLength(s0, i, op, size);
    SkipsOnly(s0, i, op, size);
    SkipsAsLoop(s0, i, op, size);
  }

  lemma SkipsAsLoop(s: Cpu, i: Instr, op: Op, size: Size)
    ensures op.Loop? ==> SkipOperands(s, i, op, size) == SkipParam(s, size.Width(), i.source, i.offset)
  {
    hide SkipParam;
  }

  lemma SkipsOnly(s: Cpu, i: Instr, op: Op, size: Size)
    ensures SkipOperands(s, i, op, size) == s.(ipm := SkipOperands(s, i, op, size).ipm)
  {
    hide ParamLength, Wrap;
  }

  // A condition of 7 panics.
  lemma BadConditions(env: Env, s: Cpu, c: Code, op: Op, wordOnly: bool)
    requires CodeAt(s, c) && c.condition == 7 && !op.Nop?
    requires DecodeOp(c.op) == Some((op, wordOnly)) && (wordOnly ==> c.size == 2)
    ensures Execute(env, s) == Panic(s.(ipm := s.ip + 2), BadCondition)
  {
    hide DecodeOp, Execute, Fetched;
    Fetches(env, s, c, op, wordOnly);
    WrapNothing(s.ip + 2);
    Conditions(s.(ipm := s.ip + 2), 7);
  }
}
