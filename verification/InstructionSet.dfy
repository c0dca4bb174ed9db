/** The instruction set, one opcode after the other: what an instruction does to registers, memory, flags and
    the instruction pointer, read off the bytes at the instruction pointer and computed in the numbers
    themselves.  What is stored is described by module Manual; the steps of the interpreter are not named. */
module InstructionSet {
  import opened Bytes
  import opened PageTables
  import opened Machine
  import opened MachineLaws
  import opened Fox32
  import opened Manual
  import opened AluLaws
  import opened Instructions
  import opened StackLaws

  // What the emulator is connected to.
  datatype Board = Board(rom: Rom, ioRead: u32 -> Option<u32>, ioWrite: (u32, u32) -> bool, shift: Shifter) {
    function Env(): Env {
      Environment(rom, ioRead, ioWrite, shift)
    }
  }

  // s with the instruction pointer at `next`.
  function GoneTo(s: Cpu, next: u32): Cpu {
    s.(ip := next, ipm := next)
  }

  lemma SizesAgree(c: Code)
    requires c.Valid()
    ensures SizeOf(c).Width() == c.Width() && SizeOf(c).Modulus() == c.Span()
  {
  }

  lemma AluIs(board: Board, op: Op, size: Size, carry: bool, b: u32, a: u32)
    ensures board.Env().alu(op, size, carry, b, a) == Fox32.Alu(board.shift, op, size, carry, b, a)
  {
  }

  // ---------- two operands ----------

  // Both operands of an instruction can be read, the first one for n bytes.
  ghost predicate Reads(s: Cpu, c: Code, n: nat) {
    && CodeAt(s, c) && Meets(c.condition, s.f)
    && FirstArg(s, c).Plain(s, n) && SecondArg(s, c, n).Plain(s, c.Width())
  }

  lemma OneAlu(board: Board, s: Cpu, c: Code, op: Op) returns (r: AluResult, x: u32, carry: bool)
    requires DecodeOp(c.op) == Some((op, false)) && KindOf(op) == Machine.Alu && !op.Shift?
    requires Reads(s, c, c.Width()) && c.target != 2
    requires op.Divide? ==> FirstArg(s, c).Value(s, c.Width()) != 0
    ensures var w, source := c.Width(), FirstArg(s, c);
            var target := SecondArg(s, c, w);
            var a, b := source.Value(s, w), target.Value(s, w);
            && a < c.Span() && b < c.Span() && c.Span() <= WORD && x < c.Span()
            && r == Fox32.Alu(board.shift, op, SizeOf(c), s.f.carry, b, a) && x == SizeOf(c).Truncate(r.value)
            && carry == (if op.Arithmetic? then r.carry else s.f.carry)
            && target.at + target.Length(w) < WORD
            && Execute(board.Env(), s)
               == Ok(GoneTo(target.Stored(s, w, x), target.at + target.Length(w)).(
                    f := s.f.(zero := x == 0, carry := carry)), ())
  {
    hide DecodeOp, Execute, Arg.Value, Arg.Stored, Arg.Plain, Fox32.Alu, Size.Truncate, Board.Env;
    var w := c.Width();
    var source, target := FirstArg(s, c), SecondArg(s, c, w);
    SizesAgree(c);
    AluRuns(board.Env(), s, c, op);
    ValueFits(s, source, w);
    ValueFits(s, target, w);
    AluIs(board, op, SizeOf(c), s.f.carry, target.Value(s, w), source.Value(s, w));
    r := Fox32.Alu(board.shift, op, SizeOf(c), s.f.carry, target.Value(s, w), source.Value(s, w));
    x := SizeOf(c).Truncate(r.value);
    carry := if op.Arithmetic? then r.carry else s.f.carry;
  }

  lemma ValueFits(s: Cpu, x: Arg, w: nat)
    requires x.Plain(s, w) && (w == 1 || w == 2 || w == 4)
    ensures x.Value(s, w) < SpanOf(w) <= WORD
  {
    hide Arg.Address;
  }

  // The state after an instruction that leaves x in its target, and says so in its flags.
  ghost predicate Becomes(env: Env, s: Cpu, c: Code, n: nat, x: u32, carry: bool)
    requires Reads(s, c, n) && c.target != 2
  {
    var w, target := c.Width(), SecondArg(s, c, n);
    && x < SpanOf(w) && target.at + target.Length(w) < WORD
    && Execute(env, s)
       == Ok(GoneTo(target.Stored(s, w, x), target.at + target.Length(w)).(f := s.f.(zero := x == 0, carry := carry)), ())
  }

  // ADD (0x01): the carry says that the sum does not fit
  lemma AddWorks(board: Board, s: Cpu, c: Code) returns (x: u32)
    requires c.op == 0x01 && Reads(s, c, c.Width()) && c.target != 2
    ensures var m, a, b := c.Span(), FirstArg(s, c).Value(s, c.Width()), SecondArg(s, c, c.Width()).Value(s, c.Width());
            x == (b + a) % m && Becomes(board.Env(), s, c, c.Width(), x, b + a >= m)
  {
    hide Execute, Arg.Value, Arg.Stored, Arg.Plain, Fox32.Alu, Size.Truncate, Board.Env, Integer;
    SizesAgree(c);
    var r, carry;
    r, x, carry := OneAlu(board, s, c, Arithmetic(Add));
    Adds(board.shift, SizeOf(c), s.f.carry,
      SecondArg(s, c, c.Width()).Value(s, c.Width()), FirstArg(s, c).Value(s, c.Width()));
    InSize(SizeOf(c), r.value);
  }

  // SUB (0x21): the carry is the borrow
  lemma SubWorks(board: Board, s: Cpu, c: Code) returns (x: u32)
    requires c.op == 0x21 && Reads(s, c, c.Width()) && c.target != 2
    ensures var m, a, b := c.Span(), FirstArg(s, c).Value(s, c.Width()), SecondArg(s, c, c.Width()).Value(s, c.Width());
            x == (b - a) % m && Becomes(board.Env(), s, c, c.Width(), x, b < a)
  {
    hide Execute, Arg.Value, Arg.Stored, Arg.Plain, Fox32.Alu, Size.Truncate, Board.Env, Integer;
    SizesAgree(c);
    var r, carry;
    r, x, carry := OneAlu(board, s, c, Arithmetic(Sub));
    Subtracts(board.shift, SizeOf(c), s.f.carry,
      SecondArg(s, c, c.Width()).Value(s, c.Width()), FirstArg(s, c).Value(s, c.Width()));
    InSize(SizeOf(c), r.value);
  }

  // MUL (0x02)
  lemma MulWorks(board: Board, s: Cpu, c: Code) returns (x: u32)
    requires c.op == 0x02 && Reads(s, c, c.Width()) && c.target != 2
    ensures var m, a, b := c.Span(), FirstArg(s, c).Value(s, c.Width()), SecondArg(s, c, c.Width()).Value(s, c.Width());
            x == b * a % m && Becomes(board.Env(), s, c, c.Width(), x, b * a >= m)
  {
    hide Execute, Arg.Value, Arg.Stored, Arg.Plain, Fox32.Alu, Size.Truncate, Board.Env, Integer;
    SizesAgree(c);
    var r, carry;
    r, x, carry := OneAlu(board, s, c, Arithmetic(Mul));
    Multiplies(board.shift, SizeOf(c), s.f.carry,
      SecondArg(s, c, c.Width()).Value(s, c.Width()), FirstArg(s, c).Value(s, c.Width()));
    InSize(SizeOf(c), r.value);
  }

  // IMUL (0x14): the product of two's complement integers
  lemma ImulWorks(board: Board, s: Cpu, c: Code) returns (x: u32)
    requires c.op == 0x14 && Reads(s, c, c.Width()) && c.target != 2
    ensures var m, a, b := c.Span(), FirstArg(s, c).Value(s, c.Width()), SecondArg(s, c, c.Width()).Value(s, c.Width());
            var p := Integer(b, m) * Integer(a, m);
            x == p % m && Becomes(board.Env(), s, c, c.Width(), x, !(0 <= 2 * p + m < 2 * m))
  {
    hide Execute, Arg.Value, Arg.Stored, Arg.Plain, Fox32.Alu, Size.Truncate, Board.Env, Integer;
    SizesAgree(c);
    var r, carry;
    r, x, carry := OneAlu(board, s, c, Arithmetic(Imul));
    MultipliesSigned(board.shift, SizeOf(c), s.f.carry,
      SecondArg(s, c, c.Width()).Value(s, c.Width()), FirstArg(s, c).Value(s, c.Width()));
    InSize(SizeOf(c), r.value);
  }

  // DIV (0x22)
  lemma DivWorks(board: Board, s: Cpu, c: Code) returns (x: u32)
    requires c.op == 0x22 && Reads(s, c, c.Width()) && c.target != 2
    requires FirstArg(s, c).Value(s, c.Width()) != 0
    ensures var m, a, b := c.Span(), FirstArg(s, c).Value(s, c.Width()), SecondArg(s, c, c.Width()).Value(s, c.Width());
            a > 0 && x == b / a && Becomes(board.Env(), s, c, c.Width(), x, s.f.carry)
  {
    hide Execute, Arg.Value, Arg.Stored, Arg.Plain, Fox32.Alu, Size.Truncate, Board.Env, Integer;
    SizesAgree(c);
    var r, carry;
    r, x, carry := OneAlu(board, s, c, Divide(false, false));
    Divides(board.shift, SizeOf(c), s.f.carry,
      SecondArg(s, c, c.Width()).Value(s, c.Width()), FirstArg(s, c).Value(s, c.Width()));
    InSize(SizeOf(c), r.value);
  }

  // REM (0x32)
  lemma RemWorks(board: Board, s: Cpu, c: Code) returns (x: u32)
    requires c.op == 0x32 && Reads(s, c, c.Width()) && c.target != 2
    requires FirstArg(s, c).Value(s, c.Width()) != 0
    ensures var m, a, b := c.Span(), FirstArg(s, c).Value(s, c.Width()), SecondArg(s, c, c.Width()).Value(s, c.Width());
            a > 0 && x == b % a && Becomes(board.Env(), s, c, c.Width(), x, s.f.carry)
  {
    hide Execute, Arg.Value, Arg.Stored, Arg.Plain, Fox32.Alu, Size.Truncate, Board.Env, Integer;
    SizesAgree(c);
    var r, carry;
    r, x, carry := OneAlu(board, s, c, Divide(false, true));
    Divides(board.shift, SizeOf(c), s.f.carry,
      SecondArg(s, c, c.Width()).Value(s, c.Width()), FirstArg(s, c).Value(s, c.Width()));
    InSize(SizeOf(c), r.value);
  }

  // IDIV (0x34): the quotient of the magnitudes, negative when one operand is
  lemma IdivWorks(board: Board, s: Cpu, c: Code) returns (x: u32)
    requires c.op == 0x34 && Reads(s, c, c.Width()) && c.target != 2
    requires FirstArg(s, c).Value(s, c.Width()) != 0
    ensures var m, a, b := c.Span(), FirstArg(s, c).Value(s, c.Width()), SecondArg(s, c, c.Width()).Value(s, c.Width());
            var u, v := Integer(b, m), Integer(a, m);
            && Magnitude(v) > 0 && var q := Magnitude(u) / Magnitude(v);
               x == (if (u < 0) == (v < 0) then q else -q) % m && Becomes(board.Env(), s, c, c.Width(), x, s.f.carry)
  {
    hide Execute, Arg.Value, Arg.Stored, Arg.Plain, Fox32.Alu, Size.Truncate, Board.Env, Integer;
    SizesAgree(c);
    var r, carry;
    r, x, carry := OneAlu(board, s, c, Divide(true, false));
    DividesSigned(board.shift, SizeOf(c), s.f.carry,
      SecondArg(s, c, c.Width()).Value(s, c.Width()), FirstArg(s, c).Value(s, c.Width()));
    NotZero(c.Span(), FirstArg(s, c).Value(s, c.Width()));
    InSize(SizeOf(c), r.value);
  }

  // IREM (0x35): the remainder of the magnitudes, with the sign of the dividend
  lemma IremWorks(board: Board, s: Cpu, c: Code) returns (x: u32)
    requires c.op == 0x35 && Reads(s, c, c.Width()) && c.target != 2
    requires FirstArg(s, c).Value(s, c.Width()) != 0
    ensures var m, a, b := c.Span(), FirstArg(s, c).Value(s, c.Width()), SecondArg(s, c, c.Width()).Value(s, c.Width());
            var u, v := Integer(b, m), Integer(a, m);
            && Magnitude(v) > 0 && var q := Magnitude(u) % Magnitude(v);
               x == (if u < 0 then -q else q) % m && Becomes(board.Env(), s, c, c.Width(), x, s.f.carry)
  {
    hide Execute, Arg.Value, Arg.Stored, Arg.Plain, Fox32.Alu, Size.Truncate, Board.Env, Integer;
    SizesAgree(c);
    var r, carry;
    r, x, carry := OneAlu(board, s, c, Divide(true, true));
    DividesSigned(board.shift, SizeOf(c), s.f.carry,
      SecondArg(s, c, c.Width()).Value(s, c.Width()), FirstArg(s, c).Value(s, c.Width()));
    NotZero(c.Span(), FirstArg(s, c).Value(s, c.Width()));
    InSize(SizeOf(c), r.value);
  }

  // AND (0x03)
  lemma AndWorks(board: Board, s: Cpu, c: Code) returns (x: u32)
    requires c.op == 0x03 && Reads(s, c, c.Width()) && c.target != 2
    ensures var m, a, b := c.Span(), FirstArg(s, c).Value(s, c.Width()), SecondArg(s, c, c.Width()).Value(s, c.Width());
            && (forall j: nat | j < 8 * c.Width() :: Bit(x, j) <==> Bit(b, j) && Bit(a, j))
            && Becomes(board.Env(), s, c, c.Width(), x, s.f.carry)
  {
    hide Execute, Arg.Value, Arg.Stored, Arg.Plain, Fox32.Alu, Size.Truncate, Board.Env, Integer;
    SizesAgree(c);
    var r, carry;
    r, x, carry := OneAlu(board, s, c, Bitwise(And));
    Combines(board.shift, And, SizeOf(c), s.f.carry, SecondArg(s, c, c.Width()).Value(s, c.Width()),
      FirstArg(s, c).Value(s, c.Width()));
    InSize(SizeOf(c), r.value);
  }

  // OR (0x13)
  lemma OrWorks(board: Board, s: Cpu, c: Code) returns (x: u32)
    requires c.op == 0x13 && Reads(s, c, c.Width()) && c.target != 2
    ensures var m, a, b := c.Span(), FirstArg(s, c).Value(s, c.Width()), SecondArg(s, c, c.Width()).Value(s, c.Width());
            && (forall j: nat | j < 8 * c.Width() :: Bit(x, j) <==> Bit(b, j) || Bit(a, j))
            && Becomes(board.Env(), s, c, c.Width(), x, s.f.carry)
  {
    hide Execute, Arg.Value, Arg.Stored, Arg.Plain, Fox32.Alu, Size.Truncate, Board.Env, Integer;
    SizesAgree(c);
    var r, carry;
    r, x, carry := OneAlu(board, s, c, Bitwise(Or));
    Combines(board.shift, Or, SizeOf(c), s.f.carry, SecondArg(s, c, c.Width()).Value(s, c.Width()),
      FirstArg(s, c).Value(s, c.Width()));
    InSize(SizeOf(c), r.value);
  }

  // XOR (0x23)
  lemma XorWorks(board: Board, s: Cpu, c: Code) returns (x: u32)
    requires c.op == 0x23 && Reads(s, c, c.Width()) && c.target != 2
    ensures var m, a, b := c.Span(), FirstArg(s, c).Value(s, c.Width()), SecondArg(s, c, c.Width()).Value(s, c.Width());
            && (forall j: nat | j < 8 * c.Width() :: Bit(x, j) <==> Bit(b, j) != Bit(a, j))
            && Becomes(board.Env(), s, c, c.Width(), x, s.f.carry)
  {
    hide Execute, Arg.Value, Arg.Stored, Arg.Plain, Fox32.Alu, Size.Truncate, Board.Env, Integer;
    SizesAgree(c);
    var r, carry;
    r, x, carry := OneAlu(board, s, c, Bitwise(Xor));
    Combines(board.shift, Xor, SizeOf(c), s.f.carry, SecondArg(s, c, c.Width()).Value(s, c.Width()),
      FirstArg(s, c).Value(s, c.Width()));
    InSize(SizeOf(c), r.value);
  }

  // DIV, REM, IDIV and IREM by zero
  lemma DivisionByZero(board: Board, s: Cpu, c: Code)
    requires (c.op == 0x22 || c.op == 0x32 || c.op == 0x34 || c.op == 0x35) && Reads(s, c, c.Width())
    requires FirstArg(s, c).Value(s, c.Width()) == 0
    ensures var r := Execute(board.Env(), s); r == Panic(s.(ipm := r.s.ipm), DivZero)
  {
    hide Execute, Arg.Value, Arg.Plain, Board.Env;
    if c.op == 0x22 {
      DivisionPanics(board.Env(), s, c, Divide(false, false));
    } else if c.op == 0x32 {
      DivisionPanics(board.Env(), s, c, Divide(false, true));
    } else if c.op == 0x34 {
      DivisionPanics(board.Env(), s, c, Divide(true, false));
    } else {
      DivisionPanics(board.Env(), s, c, Divide(true, true));
    }
  }

  // SLA (0x04), SRL (0x15), SRA (0x05), ROL (0x24), ROR (0x25), BSE (0x06) and BCL (0x16)
  function ShiftWith(op: nat): (o: ShiftOp)
    requires op in {0x04, 0x15, 0x05, 0x24, 0x25, 0x06, 0x16}
  {
    if op == 0x04 then Sla else if op == 0x15 then Srl else if op == 0x05 then Sra else if op == 0x24 then Rol
    else if op == 0x25 then Ror else if op == 0x06 then Bse else Bcl
  }

  // They read a byte for the count, and leave the carry alone.
  lemma ShiftsWork(board: Board, s: Cpu, c: Code) returns (x: u32)
    requires c.op in {0x04, 0x15, 0x05, 0x24, 0x25, 0x06, 0x16} && Reads(s, c, 1) && c.target != 2
    requires Plainly(ShiftWith(c.op), 8 * c.Width(), FirstArg(s, c).Value(s, 1))
    ensures var k, b := FirstArg(s, c).Value(s, 1), SecondArg(s, c, 1).Value(s, c.Width());
            && (forall j: nat | j < 8 * c.Width() :: Bit(x, j) <==> ShiftedBit(ShiftWith(c.op), 8 * c.Width(), b, k, j))
            && Becomes(board.Env(), s, c, 1, x, s.f.carry)
  {
    hide Execute, Arg.Value, Arg.Stored, Arg.Plain, Fox32.Alu, Size.Truncate, Board.Env, Plainly, ShiftedBit;
    var w, op := c.Width(), ShiftWith(c.op);
    var source, target := FirstArg(s, c), SecondArg(s, c, 1);
    SizesAgree(c);
    ValueFits(s, source, 1);
    ValueFits(s, target, w);
    AluRuns(board.Env(), s, c, Shift(op));
    AluIs(board, Shift(op), SizeOf(c), s.f.carry, target.Value(s, w), source.Value(s, 1));
    ShiftsBits(board.shift, op, SizeOf(c), s.f.carry, target.Value(s, w), source.Value(s, 1));
    x := Fox32.Alu(board.shift, Shift(op), SizeOf(c), s.f.carry, target.Value(s, w), source.Value(s, 1)).value;
    InSize(SizeOf(c), x);
  }

  // ---------- one operand ----------

  ghost predicate ReadsOne(s: Cpu, c: Code) {
    CodeAt(s, c) && Meets(c.condition, s.f) && FirstArg(s, c).Plain(s, c.Width())
  }

  ghost predicate BecomesOne(env: Env, s: Cpu, c: Code, x: u32, carry: bool)
    requires ReadsOne(s, c) && c.source != 2
  {
    var w, place := c.Width(), FirstArg(s, c);
    && x < SpanOf(w) && place.at + place.Length(w) < WORD
    && Execute(env, s)
       == Ok(GoneTo(place.Stored(s, w, x), place.at + place.Length(w)).(f := s.f.(zero := x == 0, carry := carry)), ())
  }

  // NOT (0x33)
  lemma NotWorks(board: Board, s: Cpu, c: Code) returns (x: u32)
    requires c.op == 0x33 && ReadsOne(s, c) && c.source != 2
    ensures x == c.Span() - 1 - FirstArg(s, c).Value(s, c.Width()) && BecomesOne(board.Env(), s, c, x, s.f.carry)
  {
    hide Execute, Arg.Value, Arg.Stored, Arg.Plain, Size.Truncate, Board.Env;
    SizesAgree(c);
    ValueFits(s, FirstArg(s, c), c.Width());
    UnaryRuns(board.Env(), s, c, Not);
    x := c.Span() - 1 - FirstArg(s, c).Value(s, c.Width());
    InSize(SizeOf(c), x);
  }

  // INC (0x11) by 1, 2, 4 or 8, as the target field says
  lemma IncWorks(board: Board, s: Cpu, c: Code) returns (x: u32)
    requires c.op == 0x11 && ReadsOne(s, c) && c.source != 2
    ensures var m, v, n := c.Span(), FirstArg(s, c).Value(s, c.Width()), Pow2(c.target);
            x == (v + n) % m && BecomesOne(board.Env(), s, c, x, v + n >= m)
  {
    hide Execute, Arg.Value, Arg.Stored, Arg.Plain, Size.Truncate, Board.Env, Fox32.Alu, Pow2;
    var v, n := FirstArg(s, c).Value(s, c.Width()), Pow2(c.target);
    SizesAgree(c);
    ValueFits(s, FirstArg(s, c), c.Width());
    Steps(c.target);
    UnaryRuns(board.Env(), s, c, Inc(false));
    AluIs(board, Arithmetic(Add), SizeOf(c), s.f.carry, v, n);
    Adds(board.shift, SizeOf(c), s.f.carry, v, n);
    x := (v + n) % c.Span();
    InSize(SizeOf(c), x);
  }

  // DEC (0x31)
  lemma DecWorks(board: Board, s: Cpu, c: Code) returns (x: u32)
    requires c.op == 0x31 && ReadsOne(s, c) && c.source != 2
    ensures var m, v, n := c.Span(), FirstArg(s, c).Value(s, c.Width()), Pow2(c.target);
            x == (v - n) % m && BecomesOne(board.Env(), s, c, x, v < n)
  {
    hide Execute, Arg.Value, Arg.Stored, Arg.Plain, Size.Truncate, Board.Env, Fox32.Alu, Pow2;
    var v, n := FirstArg(s, c).Value(s, c.Width()), Pow2(c.target);
    SizesAgree(c);
    ValueFits(s, FirstArg(s, c), c.Width());
    Steps(c.target);
    UnaryRuns(board.Env(), s, c, Inc(true));
    AluIs(board, Arithmetic(Sub), SizeOf(c), s.f.carry, v, n);
    Subtracts(board.shift, SizeOf(c), s.f.carry, v, n);
    x := (v - n) % c.Span();
    InSize(SizeOf(c), x);
  }

  lemma Steps(t: nat)
    requires t < 4
    ensures Pow2(t) == [1, 2, 4, 8][t] < 0x100
  {
  }

  // ---------- comparisons ----------

  // The state after an instruction that reads two operands and changes at most these two flags.
  ghost predicate OnlyFlags(env: Env, s: Cpu, c: Code, n: nat, zero: bool, carry: bool)
    requires Reads(s, c, n)
  {
    var target := SecondArg(s, c, n);
    && target.at + target.Length(c.Width()) < WORD
    && Execute(env, s)
       == Ok(GoneTo(s, target.at + target.Length(c.Width())).(f := s.f.(zero := zero, carry := carry)), ())
  }

  // CMP (0x07) and ICMP (0x37): zero says that the operands are equal.  The carry of CMP says that the target is
  // less; the carry of ICMP says that the difference of the signed numbers overflows.
  lemma CmpWorks(board: Board, s: Cpu, c: Code)
    requires (c.op == 0x07 || c.op == 0x37) && Reads(s, c, c.Width())
    ensures var m, a, b := c.Span(), FirstArg(s, c).Value(s, c.Width()), SecondArg(s, c, c.Width()).Value(s, c.Width());
            var difference := Integer(b, m) - Integer(a, m);
            OnlyFlags(board.Env(), s, c, c.Width(), b == a,
                   if c.op == 0x07 then b < a else !(0 <= 2 * difference + m < 2 * m))
  {
    hide Execute, Arg.Value, Arg.Plain, Fox32.Alu, Size.Truncate, Board.Env, Integer;
    var w, signed := c.Width(), c.op == 0x37;
    var a, b := FirstArg(s, c).Value(s, w), SecondArg(s, c, w).Value(s, w);
    SizesAgree(c);
    ValueFits(s, FirstArg(s, c), w);
    ValueFits(s, SecondArg(s, c, w), w);
    CompareReads(board.Env(), s, c, Cmp(signed), false);
    AluIs(board, Cmp(signed), SizeOf(c), s.f.carry, b, a);
    AluLaws.Compares(board.shift, SizeOf(c), signed, s.f.carry, b, a);
  }

  // BTS (0x26): zero says that the bit is clear.
  lemma BtsWorks(board: Board, s: Cpu, c: Code)
    requires c.op == 0x26 && Reads(s, c, 1) && FirstArg(s, c).Value(s, 1) < 15
    ensures var k, b := FirstArg(s, c).Value(s, 1), SecondArg(s, c, 1).Value(s, c.Width());
            OnlyFlags(board.Env(), s, c, 1, !Bit(b, k), s.f.carry)
  {
    hide Execute, Arg.Value, Arg.Plain, Fox32.Alu, Size.Truncate, Board.Env, Bit;
    var w := c.Width();
    var k, b := FirstArg(s, c).Value(s, 1), SecondArg(s, c, 1).Value(s, w);
    SizesAgree(c);
    ValueFits(s, SecondArg(s, c, 1), w);
    CompareReads(board.Env(), s, c, BitTest, false);
    AluIs(board, BitTest, SizeOf(c), s.f.carry, b, k);
    TestsBit(board.shift, SizeOf(c), s.f.carry, b, k);
  }

  // OUT (0x1B): the source is the value, the target the port.
  lemma OutWorks(env: Env, s: Cpu, c: Code)
    requires c.op == 0x1B && c.size == 2 && Reads(s, c, 4)
    ensures var source := FirstArg(s, c);
            var target := SecondArg(s, c, 4);
            var next := target.at + target.Length(4);
            && source.Value(s, 4) < WORD && target.Value(s, 4) < WORD && next < WORD
            && Execute(env, s) == if env.ioWrite(target.Value(s, 4), source.Value(s, 4)) then Ok(GoneTo(s, next), ())
                                  else Panic(s.(ipm := next), IoWrite)
  {
    hide Execute, Arg.Value, Arg.Plain;
    CompareReads(env, s, c, Out, true);
  }

  // ---------- no operand ----------

  // NOP (0x00), whatever its condition
  lemma NopWorks(env: Env, s: Cpu, c: Code)
    requires c.op == 0x00 && CodeAt(s, c)
    ensures Execute(env, s) == Ok(GoneTo(s, s.ip + 2), ())
  {
    hide Execute, Fetched;
    Fetches(env, s, c, Nop, false);
    WrapNothing(s.ip + 2);
  }

  lemma PlainOpcodes()
    ensures DecodeOp(0x10) == Some((Halt, false)) && DecodeOp(0x20) == Some((Brk, false))
    ensures DecodeOp(0x0C) == Some((Ise, true)) && DecodeOp(0x1C) == Some((Icl, true))
    ensures DecodeOp(0x0D) == Some((Mse, true)) && DecodeOp(0x1D) == Some((Mcl, true))
  {
  }

  // HALT (0x10)
  lemma HaltWorks(env: Env, s: Cpu, c: Code)
    requires c.op == 0x10 && CodeAt(s, c) && Meets(c.condition, s.f)
    ensures Execute(env, s) == Ok(GoneTo(s, s.ip + 2).(m := s.m.(softHalted := true)), ())
  {
    hide Execute, DecodeOp, ExecJump, ExecStack, ExecUnary, ExecMove, ExecCompare, ExecAlu, CodeAt;
    PlainOpcodes();
    BodyRuns(env, s, c, Halt, false);
  }

  // ISE (0x0C)
  lemma IseWorks(env: Env, s: Cpu, c: Code)
    requires c.op == 0x0C && c.size == 2 && CodeAt(s, c) && Meets(c.condition, s.f)
    ensures Execute(env, s) == Ok(GoneTo(s, s.ip + 2).(f := s.f.(interrupt := true)), ())
  {
    hide Execute, DecodeOp, ExecJump, ExecStack, ExecUnary, ExecMove, ExecCompare, ExecAlu, CodeAt;
    PlainOpcodes();
    BodyRuns(env, s, c, Ise, true);
  }

  // ICL (0x1C)
  lemma IclWorks(env: Env, s: Cpu, c: Code)
    requires c.op == 0x1C && c.size == 2 && CodeAt(s, c) && Meets(c.condition, s.f)
    ensures Execute(env, s) == Ok(GoneTo(s, s.ip + 2).(f := s.f.(interrupt := false)), ())
  {
    hide Execute, DecodeOp, ExecJump, ExecStack, ExecUnary, ExecMove, ExecCompare, ExecAlu, CodeAt;
    PlainOpcodes();
    BodyRuns(env, s, c, Icl, true);
  }

  // MSE (0x0D)
  lemma MseWorks(env: Env, s: Cpu, c: Code)
    requires c.op == 0x0D && c.size == 2 && CodeAt(s, c) && Meets(c.condition, s.f)
    ensures Execute(env, s) == Ok(GoneTo(s, s.ip + 2).(m := s.m.(mmu := true)), ())
  {
    hide Execute, DecodeOp, ExecJump, ExecStack, ExecUnary, ExecMove, ExecCompare, ExecAlu, CodeAt;
    PlainOpcodes();
    BodyRuns(env, s, c, Mse, true);
  }

  // MCL (0x1D)
  lemma MclWorks(env: Env, s: Cpu, c: Code)
    requires c.op == 0x1D && c.size == 2 && CodeAt(s, c) && Meets(c.condition, s.f)
    ensures Execute(env, s) == Ok(GoneTo(s, s.ip + 2).(m := s.m.(mmu := false)), ())
  {
    hide Execute, DecodeOp, ExecJump, ExecStack, ExecUnary, ExecMove, ExecCompare, ExecAlu, CodeAt;
    PlainOpcodes();
    BodyRuns(env, s, c, Mcl, true);
  }

  // BRK (0x20)
  lemma BrkWorks(env: Env, s: Cpu, c: Code)
    requires c.op == 0x20 && CodeAt(s, c) && Meets(c.condition, s.f)
    ensures Execute(env, s) == Panic(GoneTo(s, s.ip + 2), Debugger)
  {
    hide Execute, DecodeOp, ExecJump, ExecStack, ExecUnary, ExecMove, ExecCompare, ExecAlu, CodeAt;
    PlainOpcodes();
    BodyRuns(env, s, c, Brk, false);
  }

  // RET (0x2A)
  lemma RetWorks(env: Env, s: Cpu, c: Code)
    requires c.op == 0x2A && c.size == 2 && CodeAt(s, c) && Meets(c.condition, s.f) && s.l.sp + 4 <= RAM
    ensures Execute(env, s) == Ok(GoneTo(s, Le(s.mem, s.l.sp, 4)).(l := s.l.(sp := s.l.sp + 4)), ())
  {
    hide Execute, Read, Le;
    BodyRuns(env, s, c, Ret, true);
    ReadsValue(env, s.mem, Word, s.l.sp);
    WrapNothing(s.l.sp + 4);
  }

  // RETI (0x3A): zero, carry, interrupt and swap in the four low bits of the first byte, then the instruction
  // pointer, and with the swap bit the stack pointer.
  lemma RetiWorks(env: Env, s: Cpu, c: Code)
    requires c.op == 0x3A && c.size == 2 && CodeAt(s, c) && Meets(c.condition, s.f)
    requires s.l.sp + 5 <= RAM && (Bit(s.mem[s.l.sp], 3) ==> s.l.sp + 9 <= RAM)
    ensures var sp, b := s.l.sp, s.mem[s.l.sp];
            Execute(env, s) == Ok(GoneTo(s, Le(s.mem, sp + 1, 4)).(
              l := s.l.(sp := if Bit(b, 3) then Le(s.mem, sp + 5, 4) else sp + 5),
              f := Flags(Bit(b, 0), Bit(b, 1), Bit(b, 2), Bit(b, 3))), ())
  {
    hide Execute, Read, Le, UnpackFlags, Bit;
    var sp, b := s.l.sp, s.mem[s.l.sp];
    FlagBits(b);
    BodyRuns(env, s, c, Reti, true);
    ReadsByte(env, s.mem, sp);
    WrapNothing(sp + 1);
    ReadsValue(env, s.mem, Word, sp + 1);
    WrapNothing(sp + 5);
    if Bit(b, 3) {
      ReadsValue(env, s.mem, Word, sp + 5);
      WrapNothing(sp + 9);
    }
  }

  // INT (0x2C): the low half of the operand is the vector.  Exceptions, from 256 on, are never masked.
  lemma IntWorks(env: Env, s: Cpu, c: Code)
    requires c.op == 0x2C && c.size == 2 && ReadsOne(s, c)
    ensures var vector, next := FirstArg(s, c).Value(s, 4) % 0x1_0000, FirstArg(s, c).at + FirstArg(s, c).Length(4);
            && next < WORD && Execute(env, s).Ok?
            && var t := Execute(env, s).s;
               if s.f.interrupt || vector >= 256 then
                 && t == GoneTo(Raise(env, GoneTo(s, next), vector).0, Le(s.mem, 4 * vector, 4))
                 && t.m.halted && !t.f.interrupt && !t.f.swapSp
               else t == GoneTo(s, next)
  {
    hide Execute, Source, Arg.Value, Arg.Plain, Raise, Le;
    var x := FirstArg(s, c);
    BodyRuns(env, s, c, Int, true);
    var s0 := s.(ipm := s.ip + 2);
    Elsewhere(s, s0.ipm, x, 4);
    SourceIs(env, s0, Word, x, true);
    var next, vector := x.at + x.Length(4), x.Value(s, 4) % 0x1_0000;
    var s1 := GoneTo(s, next);
    if s.f.interrupt || vector >= 256 {
      RaiseEnters(env, s1, vector);
      LeOfWord(s.mem, 4 * vector);
    } else {
      RaiseMasked(env, s1, vector);
    }
  }

  lemma LeOfWord(m: Ram, a: nat)
    requires a + 4 <= RAM
    ensures var b0: int, b1: int, b2: int, b3: int := m[a], m[a + 1], m[a + 2], m[a + 3];
            Le(m, a, 4) == b0 + 0x100 * b1 + 0x1_0000 * b2 + 0x100_0000 * b3
  {
    var b1: int, b2: int, b3: int := m[a + 1], m[a + 2], m[a + 3];
    assert Le(m, a + 4, 0) == 0;
    assert Le(m, a + 3, 1) == b3;
    assert Le(m, a + 2, 2) == b2 + 0x100 * b3;
    assert Le(m, a + 1, 3) == b1 + 0x100 * b2 + 0x1_0000 * b3;
  }

  // ---------- instructions that do not run ----------

  predicate WordOnly(op: nat) {
    op in {0x08, 0x0B, 0x0C, 0x0D, 0x18, 0x1B, 0x1C, 0x1D, 0x28, 0x2A, 0x2C, 0x3A}
  }

  predicate NoOperands(op: nat) {
    op in {0x00, 0x0C, 0x0D, 0x10, 0x1C, 0x1D, 0x20, 0x2A, 0x3A}
  }

  predicate OneOperand(op: nat) {
    op in {0x08, 0x09, 0x0A, 0x11, 0x18, 0x19, 0x1A, 0x28, 0x29, 0x2C, 0x31, 0x33}
  }

  predicate TwoOperands(op: nat) {
    || op in {0x01, 0x02, 0x03, 0x07, 0x0B, 0x13, 0x14, 0x17, 0x1B, 0x21, 0x22, 0x23, 0x27, 0x32, 0x34, 0x35, 0x37, 0x39}
    || ReadsCount(op)
  }

  // The ones with a byte for their first operand.
  predicate ReadsCount(op: nat) {
    op in {0x04, 0x05, 0x06, 0x15, 0x16, 0x24, 0x25, 0x26}
  }

  predicate Exists(op: nat, size: nat) {
    (NoOperands(op) || OneOperand(op) || TwoOperands(op)) && size < 3 && (WordOnly(op) ==> size == 2)
  }

  lemma OperationExists(c: Code)
    requires c.Valid()
    ensures Exists(c.op, c.size) <==> Decode(0x40 * c.size + c.op).Some?
    ensures DecodeOp(c.op).Some? <==> NoOperands(c.op) || OneOperand(c.op) || TwoOperands(c.op)
    ensures DecodeOp(c.op).Some? ==> (DecodeOp(c.op).value.1 <==> WordOnly(c.op))
  {
    hide DecodeOp;
    OperationListed(c.op);
    OpcodeParts(c.size, c.op);
  }

  lemma OpcodeParts(size: nat, op: nat)
    requires op < 0x40
    ensures (0x40 * size + op) % 0x40 == op && (0x40 * size + op) / 0x40 == size
  {
  }

  lemma OperationListed(op: nat)
    requires op < 0x40
    ensures DecodeOp(op).Some? <==> NoOperands(op) || OneOperand(op) || TwoOperands(op)
    ensures DecodeOp(op).Some? ==> (DecodeOp(op).value.1 <==> WordOnly(op))
    ensures DecodeOp(op).Some? ==> (DecodeOp(op).value.0.Nop? <==> op == 0)
  {
  }

  // An opcode that is not in the list, or not in that size, panics.
  lemma NoSuchOpcode(env: Env, s: Cpu)
    requires s.ip + 2 <= RAM
    requires var hi: int := s.mem[s.ip + 1]; !Exists(hi % 0x40, hi / 0x40)
    ensures var lo: int, hi: int := s.mem[s.ip], s.mem[s.ip + 1];
            Execute(env, s) == Panic(s.(ipm := s.ip + 2, exop := lo + 0x100 * hi), BadOpcode)
  {
    hide Read, DecodeOp, Decode;
    var lo: int, hi: int := s.mem[s.ip], s.mem[s.ip + 1];
    ReadsHalf(env, s.mem, s.ip);
    WrapNothing(s.ip + 2);
    HighByte(lo, hi);
    Unlisted(hi);
  }

  lemma HighByte(lo: nat, hi: nat)
    requires lo < 0x100
    ensures (lo + 0x100 * hi) / 0x100 == hi
  {
  }

  lemma Unlisted(opcode: u8)
    requires !Exists(opcode % 0x40, opcode / 0x40)
    ensures Decode(opcode).None?
  {
    hide DecodeOp;
    OperationListed(opcode % 0x40);
  }

  // The bytes of the operands, of which the first is the source.
  function EncodedOperands(c: Code): nat {
    var source, target := Arg(c.source, c.offset, 0), Arg(c.target, c.offset, 0);
    if NoOperands(c.op) then 0
    else if OneOperand(c.op) then source.Length(c.Width())
    else source.Length(if ReadsCount(c.op) then 1 else c.Width()) + target.Length(c.Width())
  }

  // An instruction whose condition is not met is passed over.
  lemma SkipWorks(env: Env, s: Cpu, c: Code)
    requires CodeAt(s, c) && Exists(c.op, c.size) && c.op != 0 && c.condition < 7 && !Meets(c.condition, s.f)
    ensures Execute(env, s) == Ok(GoneTo(s, (s.ip + 2 + EncodedOperands(c)) % WORD), ())
  {
    hide DecodeOp, Execute, Length, EncodedOperands, Exists;
    OperationExists(c);
    OperationListed(c.op);
    var (op, wordOnly) := DecodeOp(c.op).value;
    LengthIs(c, op, wordOnly);
    Skipped(env, s, c, op, wordOnly);
  }

  lemma LengthIs(c: Code, op: Op, wordOnly: bool)
    requires c.Valid() && Exists(c.op, c.size) && DecodeOp(c.op) == Some((op, wordOnly))
    ensures Length(InstrOf(c), op, SizeOf(c)) == 2 + EncodedOperands(c)
  {
    hide DecodeOp, NoOperands, OneOperand, TwoOperands, ReadsCount, KindOf;
    KindListed(c.op);
    WordOperands(c.op);
  }

  lemma KindListed(op: nat)
    requires DecodeOp(op).Some?
    ensures var o := DecodeOp(op).value.0;
            && (NoOperands(op) <==> KindOf(o) == NoOperand)
            && (OneOperand(op) <==> KindOf(o) == Jumps || KindOf(o) == Stack || KindOf(o) == Unary)
            && (ReadsCount(op) <==> o.Shift? || o.BitTest?) && (o.In? ==> op == 0x0B)
  {
  }

  lemma WordOperands(op: nat)
    ensures op == 0x0B ==> WordOnly(op)
  {
  }

  // The condition 7 does not exist.
  lemma NoSuchCondition(env: Env, s: Cpu, c: Code)
    requires CodeAt(s, c) && Exists(c.op, c.size) && c.op != 0 && c.condition == 7
    ensures Execute(env, s) == Panic(s.(ipm := s.ip + 2), BadCondition)
  {
    hide DecodeOp, Execute;
    OperationExists(c);
    OperationListed(c.op);
    var (op, wordOnly) := DecodeOp(c.op).value;
    BadConditions(env, s, c, op, wordOnly);
  }

  // A first operand that names a register above 34 panics.
  lemma NoSuchRegister(env: Env, s: Cpu, c: Code)
    requires CodeAt(s, c) && Exists(c.op, c.size) && Meets(c.condition, s.f) && !NoOperands(c.op)
    requires !(c.op in {0x1A, 0x28, 0x29}) && c.source < 2 && s.ip + 2 < RAM && s.mem[s.ip + 2] > 34
    ensures var r := Execute(env, s); r == Panic(s.(ipm := r.s.ipm), BadRegister)
  {
    hide DecodeOp, Execute, Source, Exists, NoOperands, Target, Conclude, Push, Compared;
    OperationExists(c);
    OperationListed(c.op);
    NotPopOrLoop(c.op);
    var (op, wordOnly) := DecodeOp(c.op).value;
    BodyRuns(env, s, c, op, wordOnly);
    var s0 := s.(ipm := s.ip + 2);
    BadSource(env, s0, SizeOf(c), c.source, c.offset);
    BadSource(env, s0, Byte, c.source, c.offset);
    BadSource(env, s0, Word, c.source, 0);
  }

  lemma NotPopOrLoop(op: nat)
    requires DecodeOp(op).Some? && !NoOperands(op) && !(op in {0x1A, 0x28, 0x29})
    ensures var o := DecodeOp(op).value.0; !o.PopTo? && !o.Loop? && KindOf(o) != NoOperand && (o.In? ==> op == 0x0B)
  {
  }

  lemma BadSource(env: Env, s: Cpu, size: Size, kind: nat, offset: nat)
    requires kind < 2 && offset < 2 && s.ipm < RAM && s.mem[s.ipm] > 34
    ensures forall move: bool :: Source(env, s, size, kind, offset, move).Panic?
    ensures forall move: bool :: var r := Source(env, s, size, kind, offset, move);
                                 r == Panic(s.(ipm := r.s.ipm), BadRegister)
  {
    ReadsByte(env, s.mem, s.ipm);
    hide Read;
  }

  // A literal cannot be assigned to.
  lemma LiteralTarget(board: Board, s: Cpu, c: Code)
    requires c.op in {0x01, 0x21, 0x02, 0x14, 0x03, 0x13, 0x23, 0x17} && Reads(s, c, c.Width()) && c.target == 2
    ensures var r := Execute(board.Env(), s); r == Panic(s.(ipm := r.s.ipm), BadImmediate)
  {
    hide DecodeOp, Execute, Source, Arg.Value, Arg.Plain, Board.Env, CodeAt;
    AluOrMove(c.op);
    var (op, wordOnly) := DecodeOp(c.op).value;
    BodyRuns(board.Env(), s, c, op, false);
    ReadsBoth(board.Env(), s, c, SizeOf(c), false);
  }

  lemma AluOrMove(op: nat)
    requires op in {0x01, 0x21, 0x02, 0x14, 0x03, 0x13, 0x23, 0x17}
    ensures DecodeOp(op).Some? && !DecodeOp(op).value.1
    ensures var o := DecodeOp(op).value.0; o == Mov(false) || o.Arithmetic? || o.Bitwise?
  {
  }

  // ADD of the word 5 to register 0, which holds 7: the bytes 02 81, the literal, the register.
  lemma FiveAndSeven(board: Board, s: Cpu)
    requires FiveIsAdded(s) && s.l.regs[0] == 7
    ensures var r := Execute(board.Env(), s);
            r.Ok? && r.s.l.regs == s.l.regs[0 := 12] && r.s.ip == s.ip + 7 && !r.s.f.zero && !r.s.f.carry
  {
    hide Execute, Board.Env, FiveIsAdded, Arg.Plain, CodeAt, Reads, Arg.Value;
    FiveIsRead(s);
    var x := AddWorks(board, s, AddWord);
  }

  const AddWord := Code(0x01, 2, 0, 0, 0, 2)

  ghost predicate FiveIsAdded(s: Cpu) {
    s.ip + 7 <= RAM && s.mem[s.ip..s.ip + 7] == [0x02, 0x81, 5, 0, 0, 0, 0]
  }

  lemma FiveIsRead(s: Cpu)
    requires FiveIsAdded(s)
    ensures Reads(s, AddWord, 4) && s.mem[s.ip + 6] == 0
    ensures FirstArg(s, AddWord).Value(s, 4) == 5 && SecondArg(s, AddWord, 4).Value(s, 4) == s.l.regs[0]
  {
    hide Le;
    var code := s.mem[s.ip..s.ip + 7];
    assert s.mem[s.ip] == code[0] && s.mem[s.ip + 1] == code[1] && s.mem[s.ip + 2] == code[2];
    assert s.mem[s.ip + 3] == code[3] && s.mem[s.ip + 4] == code[4] && s.mem[s.ip + 5] == code[5];
    assert s.mem[s.ip + 6] == code[6];
    LeOfWord(s.mem, s.ip + 2);
  }
}
