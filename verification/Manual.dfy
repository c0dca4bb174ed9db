/** The encoding of instructions and operands, read off the bytes of memory: an independent account of
    what the interpreter decodes, against which the laws of the single instructions are stated. */
module Manual {
  import opened Bytes
  import opened PageTables
  import opened Machine

  // The number in w bytes from a on, the lowest first.
  function Le(m: Ram, a: nat, w: nat): (n: nat)
    requires a + w <= RAM && w <= 4
    ensures n < (if w == 0 then 1 else if w == 1 then 0x100 else if w == 2 then 0x1_0000
                 else if w == 3 then 0x100_0000 else WORD)
    decreases w
  {
    if w == 0 then 0
    else
      var b: int := m[a];
      b + 0x100 * Le(m, a + 1, w - 1)
  }

  // m with the w lowest bytes of x put at a.
  function Put(m: Ram, a: nat, w: nat, x: nat): Ram
    requires a + w <= RAM
    decreases w
  {
    if w == 0 then m else Put(m[a := x % 0x100], a + 1, w - 1, x / 0x100)
  }

  // The fields of an instruction's half word: six bits of operation, the size (0 for a byte, 1 for two, 2
  // for four), condition, displacement bit and the kinds of target and source.
  datatype Code = Code(op: nat, size: nat, condition: nat, offset: nat, target: nat, source: nat) {
    ghost predicate Valid() {
      op < 0x40 && size < 3 && condition < 8 && offset < 2 && target < 4 && source < 4
    }

    function Width(): (w: nat)
      ensures w == 1 || w == 2 || w == 4
    {
      if size == 0 then 1 else if size == 1 then 2 else 4
    }

    // One more than the largest number of that size.
    function Span(): (m: nat)
      ensures m > 0
    {
      SpanOf(Width())
    }
  }

  function SpanOf(w: nat): (m: nat)
    ensures m > 0
  {
    if w == 1 then 0x100 else if w == 2 then 0x1_0000 else WORD
  }

  // A number below m as a two's complement integer.
  function Integer(v: nat, m: nat): int {
    if 2 * v < m then v else v - m
  }

  // The instruction at the instruction pointer.
  ghost predicate CodeAt(s: Cpu, c: Code) {
    && c.Valid() && s.ip + 2 <= RAM
    && s.mem[s.ip] == 0x80 * c.offset + 0x10 * c.condition + 4 * c.target + c.source
    && s.mem[s.ip + 1] == 0x40 * c.size + c.op
  }

  // The flags in which an instruction with this condition runs: always, zero, not zero, carry (less), no
  // carry (not less), greater, less or equal.
  predicate Meets(condition: nat, f: Flags) {
    || condition == 0 || (condition == 1 && f.zero) || (condition == 2 && !f.zero) || (condition == 3 && f.carry)
    || (condition == 4 && !f.carry) || (condition == 5 && !f.zero && !f.carry)
    || (condition == 6 && (f.zero || f.carry))
  }

  // Registers 0 to 31, and behind them the stack pointer, the exception stack pointer and the frame pointer.
  function Register(l: Locals, n: nat): u32
    requires n <= 34
  {
    if n < 32 then l.regs[n] else if n == 32 then l.sp else if n == 33 then l.esp else l.fp
  }

  function WithRegister(l: Locals, n: nat, v: u32): Locals
    requires n <= 34
  {
    if n < 32 then l.(regs := l.regs[n := v])
    else if n == 32 then l.(sp := v) else if n == 33 then l.(esp := v) else l.(fp := v)
  }

  // An operand encoded at address `at`.  Its kind is 0 for a register, 1 for a register pointer, which has
  // a displacement byte when offset is 1, 2 for a literal and 3 for an address.
  datatype Arg = Arg(kind: nat, offset: nat, at: nat) {
    // The bytes it takes, for a value of w bytes.
    function Length(w: nat): nat {
      if kind == 0 then 1 else if kind == 1 then 1 + offset else if kind == 2 then w else 4
    }

    // Its bytes lie in RAM and name a register that exists.
    ghost predicate Encoded(s: Cpu, w: nat) {
      kind < 4 && w <= 4 && offset < 2 && at + Length(w) <= RAM && (kind < 2 ==> s.mem[at] <= 34)
    }

    // The address it names.
    ghost function Address(s: Cpu, w: nat): nat
      requires Encoded(s, w) && (kind == 1 || kind == 3)
    {
      if kind == 1 then
        var displacement: int := if offset == 1 then s.mem[at + 1] else 0;
        (Register(s.l, s.mem[at]) + displacement) % WORD
      else Le(s.mem, at, 4)
    }

    // What it names lies in RAM.
    ghost predicate Plain(s: Cpu, w: nat) {
      Encoded(s, w) && (kind == 1 || kind == 3 ==> Address(s, w) + w <= RAM)
    }

    // Its value, of w bytes.
    ghost function Value(s: Cpu, w: nat): nat
      requires Plain(s, w)
    {
      if kind == 0 then Register(s.l, s.mem[at]) % SpanOf(w)
      else if kind == 2 then Le(s.mem, at, w)
      else Le(s.mem, Address(s, w), w)
    }

    // s with the w lowest bytes of x stored in it: the upper bytes of a register are kept.
    ghost function Stored(s: Cpu, w: nat, x: u32): Cpu
      requires Plain(s, w) && kind != 2 && x < SpanOf(w)
    {
      if kind == 0 then
        var n, was := s.mem[at], Register(s.l, s.mem[at]);
        s.(l := WithRegister(s.l, n, was - was % SpanOf(w) + x))
      else s.(mem := Put(s.mem, Address(s, w), w, x))
    }
  }
}
