/** What the arithmetic unit computes, in the numbers themselves: sums, differences, products and quotients
    modulo the size, and the single bits of the logical operations and the shifts. */
module AluLaws {
  import opened Bytes
  import opened Machine
  import opened Fox32
  import opened Shifts
  import opened Manual

  lemma InSize(size: Size, v: u32)
    requires v < size.Modulus()
    ensures size.Truncate(v) == v && Signed(size, v) == Integer(v, size.Modulus())
    ensures size.Modulus() % 2 == 0
  {
  }

  // ADD, SUB, MUL: the carry says that the exact result does not fit.
  lemma Adds(shift: Shifter, size: Size, carry: bool, b: u32, a: u32)
    requires b < size.Modulus() && a < size.Modulus()
    ensures var m := size.Modulus();
            Fox32.Alu(shift, Arithmetic(Add), size, carry, b, a) == AluResult((b + a) % m, b + a >= m)
  {
    InSize(size, b);
    InSize(size, a);
    hide Size.Modulus, Size.Truncate;
  }

  lemma Subtracts(shift: Shifter, size: Size, carry: bool, b: u32, a: u32)
    requires b < size.Modulus() && a < size.Modulus()
    ensures var m := size.Modulus();
            Fox32.Alu(shift, Arithmetic(Sub), size, carry, b, a) == AluResult((b - a) % m, b < a)
  {
    InSize(size, b);
    InSize(size, a);
    hide Size.Modulus, Size.Truncate;
  }

  lemma Multiplies(shift: Shifter, size: Size, carry: bool, b: u32, a: u32)
    requires b < size.Modulus() && a < size.Modulus()
    ensures var m := size.Modulus();
            && b * a >= 0
            && Fox32.Alu(shift, Arithmetic(Mul), size, carry, b, a) == AluResult(b * a % m, b * a >= m)
  {
    InSize(size, b);
    InSize(size, a);
    hide Size.Modulus, Size.Truncate;
    NotNegative(b, a);
  }

  lemma NotNegative(x: nat, y: nat)
    ensures x * y >= 0
  {
  }

  // IMUL: as two's complement integers.
  lemma MultipliesSigned(shift: Shifter, size: Size, carry: bool, b: u32, a: u32)
    requires b < size.Modulus() && a < size.Modulus()
    ensures var m := size.Modulus();
            var p := Integer(b, m) * Integer(a, m);
            Fox32.Alu(shift, Arithmetic(Imul), size, carry, b, a) == AluResult(p % m, !(0 <= 2 * p + m < 2 * m))
  {
    InSize(size, b);
    InSize(size, a);
    hide Size.Modulus, Size.Truncate, Signed, Integer;
  }

  // CMP and ICMP: equality, and the order of unsigned numbers; for signed ones the overflow of the difference.
  lemma Compares(shift: Shifter, size: Size, signed: bool, carry: bool, b: u32, a: u32)
    requires b < size.Modulus() && a < size.Modulus()
    ensures var m, r := size.Modulus(), Fox32.Alu(shift, Cmp(signed), size, carry, b, a);
            var difference := Integer(b, m) - Integer(a, m);
            && (size.Truncate(r.value) == 0 <==> b == a)
            && (r.carry <==> if signed then !(0 <= 2 * difference + m < 2 * m) else b < a)
  {
    InSize(size, b);
    InSize(size, a);
    DifferenceIsZero(size.Modulus(), b, a);
    InSize(size, (b - a) % size.Modulus());
    hide Size.Modulus, Size.Truncate, Signed, Integer;
  }

  lemma DifferenceIsZero(m: nat, b: nat, a: nat)
    requires b < m && a < m
    ensures (b - a) % m == 0 <==> b == a
    ensures 0 <= (b - a) % m < m
  {
    if b >= a {
      Small(b - a, m);
    } else {
      Small(b - a + m, m);
      RemainderOfNegative(b - a, m);
    }
  }

  lemma Small(x: nat, m: nat)
    requires x < m
    ensures x % m == x
  {
  }

  lemma RemainderOfNegative(x: int, m: nat)
    requires x < 0 < x + m
    ensures x % m == x + m
  {
  }

  // DIV and REM
  lemma Divides(shift: Shifter, size: Size, carry: bool, b: u32, a: u32)
    requires b < size.Modulus() && 0 < a < size.Modulus()
    ensures var r := Fox32.Alu(shift, Divide(false, false), size, carry, b, a);
            r.value == b / a < size.Modulus() && r.carry == carry
    ensures var r := Fox32.Alu(shift, Divide(false, true), size, carry, b, a);
            r.value == b % a < size.Modulus() && r.carry == carry
  {
    InSize(size, b);
    InSize(size, a);
    hide Size.Modulus, Size.Truncate;
    QuotientFits(b, a);
    Small(b / a, size.Modulus());
    Small(b % a, size.Modulus());
  }

  // IDIV and IREM: the quotient of the magnitudes, negative when one operand is; the remainder has the sign
  // of the dividend.
  lemma DividesSigned(shift: Shifter, size: Size, carry: bool, b: u32, a: u32)
    requires b < size.Modulus() && 0 < a < size.Modulus()
    ensures var m := size.Modulus();
            var x, y := Integer(b, m), Integer(a, m);
            var q, r := Magnitude(x) / Magnitude(y), Magnitude(x) % Magnitude(y);
            var quotient, remainder := Fox32.Alu(shift, Divide(true, false), size, carry, b, a),
                                       Fox32.Alu(shift, Divide(true, true), size, carry, b, a);
            && quotient.value == (if (x < 0) == (y < 0) then q else -q) % m && quotient.carry == carry
            && remainder.value == (if x < 0 then -r else r) % m && remainder.carry == carry
  {
    InSize(size, b);
    InSize(size, a);
    NotZero(size.Modulus(), a);
    var x, y := Integer(b, size.Modulus()), Integer(a, size.Modulus());
    hide Size.Modulus, Size.Truncate, Signed, Integer;
    TruncatedIs(x, y);
  }

  lemma NotZero(m: nat, a: nat)
    requires 0 < a < m
    ensures Integer(a, m) != 0
  {
  }

  function Magnitude(x: int): nat {
    if x < 0 then -x else x
  }

  lemma TruncatedIs(x: int, y: int)
    requires y != 0
    ensures Truncated(x, y) == (if (x < 0) == (y < 0) then Magnitude(x) / Magnitude(y) else -(Magnitude(x) / Magnitude(y)))
    ensures x - Truncated(x, y) * y == if x < 0 then -(Magnitude(x) % Magnitude(y)) else Magnitude(x) % Magnitude(y)
  {
    var n, d := Magnitude(x), Magnitude(y);
    var q, r := n / d, n % d;
    assert n == d * q + r;
    if y < 0 {
      NegativeDivisor(n, d);
    }
    Signs(q, d);
  }

  lemma NegativeDivisor(n: nat, d: int)
    requires d > 0
    ensures n / -d == -(n / d)
  {
  }

  lemma Signs(q: int, d: int)
    ensures -q * d == -(q * d) && q * -d == -(q * d) && -q * -d == q * d && d * q == q * d
  {
  }

  lemma QuotientFits(b: nat, a: nat)
    requires a > 0
    ensures 0 <= b / a <= b && b % a < a && b - b / a * a == b % a
    ensures b % a <= b
  {
    var q, r := b / a, b % a;
    assert b == a * q + r;
    if q > 0 {
      assert a * q == q + (a - 1) * q;
      NotNegative(a - 1, q);
    }
  }

  // AND, XOR and OR, bit by bit: XOR as its name says.
  lemma {:induction false} BitOfLogic(op: Logic, n: nat, b: nat, a: nat, j: nat)
    requires n <= 32
    ensures Bit(BitsOf(op, n, b, a), j) <==>
              j < n && if op.And? then Bit(b, j) && Bit(a, j) else if op.Xor? then Bit(b, j) != Bit(a, j)
                       else Bit(b, j) || Bit(a, j)
  {
    if n == 0 {
      ZeroHasNoBit(j);
    } else if j > 0 {
      BitOfLogic(op, n - 1, b / 2, a / 2, j - 1);
    }
  }

  lemma Combines(shift: Shifter, op: Logic, size: Size, carry: bool, b: u32, a: u32)
    requires b < size.Modulus() && a < size.Modulus()
    ensures var r := Fox32.Alu(shift, Bitwise(op), size, carry, b, a);
            && r.value < size.Modulus() && r.carry == carry
            && forall j: nat | j < 8 * size.Width() ::
                 Bit(r.value, j) <==> if op.And? then Bit(b, j) && Bit(a, j) else if op.Xor? then Bit(b, j) != Bit(a, j)
                                      else Bit(b, j) || Bit(a, j)
  {
    InSize(size, b);
    InSize(size, a);
    BitsOfSize(size);
    var n := 8 * size.Width();
    Small(BitsOf(op, n, b, a), size.Modulus());
    hide BitsOf, Size.Truncate, Size.Modulus, Bit, Pow2;
    forall j: nat {
      BitOfLogic(op, n, b, a, j);
    }
  }

  // The counts at which the shifts are the same whatever the width of the host's int.
  predicate Plainly(op: ShiftOp, n: nat, k: nat) {
    match op
    case Sla | Srl | Sra => k < n
    case Rol | Ror => 0 < k < n
    case Bse | Bcl => k < 15
  }

  // Bit j of a number of n bits that is shifted, rotated or masked by k.
  ghost predicate ShiftedBit(op: ShiftOp, n: nat, b: nat, k: nat, j: nat)
    requires j < n && Plainly(op, n, k)
  {
    match op
    case Sla => k <= j && Bit(b, j - k)
    case Srl => j + k < n && Bit(b, j + k)
    case Sra => Bit(b, if j + k < n then j + k else n - 1)
    case Rol => Bit(b, if k <= j then j - k else j - k + n)
    case Ror => Bit(b, if j + k < n then j + k else j + k - n)
    case Bse => j == k || Bit(b, j)
    case Bcl => j != k && Bit(b, j)
  }

  // SLA, SRL, SRA, ROL, ROR, BSE and BCL, bit by bit.
  lemma ShiftsBits(shift: Shifter, op: ShiftOp, size: Size, carry: bool, b: u32, k: u32)
    requires b < size.Modulus() && k < 0x100 && Plainly(op, 8 * size.Width(), k)
    ensures var r := Fox32.Alu(shift, Shift(op), size, carry, b, k);
            && r.value < size.Modulus() && r.carry == carry
            && forall j: nat | j < 8 * size.Width() :: Bit(r.value, j) <==> ShiftedBit(op, 8 * size.Width(), b, k, j)
  {
    InSize(size, b);
    InSize(size, k);
    hide Size.Truncate, ShiftedBy;
    forall j: nat | j < 8 * size.Width()
      ensures Bit(ShiftedBy(op, size, b, k), j) <==> ShiftedBit(op, 8 * size.Width(), b, k, j)
    {
      BitOfShifted(op, size, b, k, j);
    }
  }

  lemma BitOfShifted(op: ShiftOp, size: Size, b: u32, k: nat, j: nat)
    requires b < size.Modulus() && Plainly(op, 8 * size.Width(), k) && j < 8 * size.Width()
    ensures Portable(Shift(op), size, k)
    ensures Bit(ShiftedBy(op, size, b, k), j) <==> ShiftedBit(op, 8 * size.Width(), b, k, j)
  {
    hide ShiftLeft, ShiftRight, ShiftSigned, RotateLeft, RotateRight, Pow2, Bit;
    BitsOfSize(size);
    var n := 8 * size.Width();
    match op
    case Sla => BitsShiftedLeft(b, k, n, j);
    case Srl =>
      BitsShiftedRight(b, k, j);
      if j + k >= n {
        NoBitAbove(b, n, j + k);
      }
    case Sra => BitsShiftedSigned(b, k, n, j);
    case Rol => BitsRotatedLeft(b, k, n, j);
    case Ror => BitsRotatedRight(b, k, n, j);
    case Bse =>
      if k < n && !Bit(b, k) {
        AddedBits(b, k);
      }
    case Bcl =>
      if Bit(b, k) {
        RemovedBits(b, k);
      }
  }

  // BTS
  lemma TestsBit(shift: Shifter, size: Size, carry: bool, b: u32, k: u32)
    requires b < size.Modulus() && k < 15
    ensures size.Truncate(Fox32.Alu(shift, BitTest, size, carry, b, k).value) == 0 <==> !Bit(b, k)
  {
    InSize(size, b);
    InSize(size, k);
    BitsOfSize(size);
    if Bit(b, k) {
      RemovedBits(b, k);
      InSize(size, Pow2(k));
    }
    InSize(size, 0);
  }
}
