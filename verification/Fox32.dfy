/** The environment of the emulator: its ROM windows and its arithmetic unit. */
module Fox32 {
  import opened Bytes
  import opened Machine
  import opened PageTables
  import opened Shifts

  const ROM_START: u32 := 0xF000_0000
  const ROM_SIZE := 0x4000

  type Rom = s: seq<u8> | |s| == ROM_SIZE witness seq(ROM_SIZE, _ => 0)

  // The jump table windows of ROM.
  function Alias(a: u32): u32 {
    if ROM_START + 0x40000 <= a <= ROM_START + 0x40FFF then a - (0x40000 - 0x3000)
    else if ROM_START + 0x45000 <= a <= ROM_START + 0x45FFF then a - (0x45000 - 0x3100)
    else if ROM_START + 0x46000 <= a <= ROM_START + 0x46FFF then a - (0x46000 - 0x3200)
    else if ROM_START + 0x47000 <= a <= ROM_START + 0x47FFF then a - (0x47000 - 0x3300)
    else a
  }

  // The part of vm_read8 beyond RAM.  A fault past the end of ROM reports a ROM-relative address.
  function ReadRom(rom: Rom, a: u32): ByteFetch {
    var b := Alias(a);
    if b < ROM_START then NoByte(b)
    else if b - ROM_START + 1 <= ROM_SIZE then GotByte(rom[b - ROM_START])
    else NoByte(b - ROM_START)
  }

  function InRange(size: Size, x: int): bool {
    -(size.Modulus() as int) <= 2 * x < size.Modulus()
  }

  // The wrapped result and whether the exact one did not fit.
  function Compute(op: Arith, size: Size, b: u32, a: u32): (r: (u32, bool))
    requires a < size.Modulus() && b < size.Modulus()
    ensures r.0 < size.Modulus()
  {
    var m := size.Modulus();
    var exact := match op
      case Add => b + a
      case Sub => b - a
      case Mul => b * a
      case Imul => Signed(size, b) * Signed(size, a);
    (exact % m, if op == Imul then !InRange(size, exact) else !(0 <= exact < m))
  }

  // C division truncates toward zero.
  function Truncated(b: int, a: int): int
    requires a != 0
  {
    if b >= 0 then b / a else -((-b) / a)
  }

  function DivideBy(signed: bool, rem: bool, size: Size, b: u32, a: u32): (r: u32)
    requires a < size.Modulus() && b < size.Modulus() && a != 0
    ensures r < size.Modulus()
  {
    var (x, y) := if signed then (Signed(size, b), Signed(size, a)) else (b, a);
    var q := Truncated(x, y);
    (if rem then x - q * y else q) % size.Modulus()
  }

  function BitsOf(op: Logic, n: nat, b: nat, a: nat): (r: nat)
    requires n <= 32
    ensures r < Pow2(n)
  {
    if n == 0 then 0
    else
      var x, y := b % 2, a % 2;
      var bit := match op
        case And => if x == 1 && y == 1 then 1 else 0
        case Xor => if x == y then 0 else 1
        case Or => if x == 0 && y == 0 then 0 else 1;
      bit + 2 * BitsOf(op, n - 1, b / 2, a / 2)
  }

  function Combine(op: Logic, size: Size, b: u32, a: u32): (r: u32)
    ensures r < size.Modulus()
  {
    BitsOf(op, 8 * size.Width(), b, a) % size.Modulus()
  }

  // The counts at which a shift, a rotation or a bit mask does not depend on the width of the host's int.
  predicate Portable(op: Op, size: Size, k: nat) {
    match op
    case Shift(o) =>
      if o.Rol? || o.Ror? then 0 < k < 8 * size.Width() else if o.Bse? || o.Bcl? then k < 15 else k < 8 * size.Width()
    case _ => k < 15
  }

  lemma BitsOfSize(size: Size)
    ensures Pow2(8 * size.Width()) == size.Modulus()
  {
    Pow2Of32();
    assert Pow2(8) == 0x100;
    assert Pow2(16) == 0x100 * Pow2(8);
  }

  // The shifts at these counts.
  function ShiftedBy(op: ShiftOp, size: Size, b: u32, k: nat): (r: u32)
    requires Portable(Shift(op), size, k) && b < size.Modulus()
    ensures r < size.Modulus()
  {
    BitsOfSize(size);
    var n := 8 * size.Width();
    match op
    case Sla => ShiftLeft(b, k, n)
    case Srl => ShiftRight(b, k)
    case Sra => ShiftSigned(b, k, n)
    case Rol => RotateLeft(b, k, n)
    case Ror => RotateRight(b, k, n)
    case Bse =>
      if k >= n || Bit(b, k) then b
      else
        AddedBitFits(b, k, n);
        b + Pow2(k)
    case Bcl =>
      if Bit(b, k) then
        RemovedBits(b, k);
        b - Pow2(k)
      else b
  }

  // b & (1 << k)
  function MaskedBit(b: u32, k: nat): (r: u32) {
    if Bit(b, k) then
      RemovedBits(b, k);
      Pow2(k)
    else 0
  }

  // The results at all other counts, which depend on the width of the host's int.
  type Shifter = (Op, Size, u32, u32) -> u32

  function Alu(shift: Shifter, op: Op, size: Size, carry: bool, b: u32, a: u32): AluResult {
    var b: u32, a: u32 := size.Truncate(b), size.Truncate(a);
    match op
    case Arithmetic(o) => var (x, c) := Compute(o, size, b, a); AluResult(x, c)
    case Cmp(signed) =>
      var (x, borrow) := Compute(Sub, size, b, a);
      AluResult(x, if signed then !InRange(size, Signed(size, b) - Signed(size, a)) else borrow)
    case Divide(signed, rem) => AluResult(if a == 0 then 0 else DivideBy(signed, rem, size, b, a), carry)
    case Bitwise(l) => AluResult(Combine(l, size, b, a), carry)
    case Shift(o) => AluResult(if Portable(op, size, a) then ShiftedBy(o, size, b, a) else shift(op, size, b, a), carry)
    case BitTest => AluResult(if Portable(op, size, a) then MaskedBit(b, a) else shift(op, size, b, a), carry)
    case _ => AluResult(shift(op, size, b, a), carry)
  }

  function Environment(rom: Rom, ioRead: u32 -> Option<u32>, ioWrite: (u32, u32) -> bool, shift: Shifter): Env {
    Env((a: u32) => ReadRom(rom, a), ioRead, ioWrite,
        (op: Op, size: Size, carry: bool, b: u32, a: u32) => Alu(shift, op, size, carry, b, a))
  }

  // The offsets from ROM_START at which something answers: ROM itself and the four jump table windows,
  // of which all but the first end where their image in ROM does.
  predicate Answers(o: int) {
    || 0 <= o < ROM_SIZE || 0x40000 <= o < 0x41000 || 0x45000 <= o < 0x45F00 || 0x46000 <= o < 0x46E00
    || 0x47000 <= o < 0x47D00
  }

  // Beyond RAM exactly these addresses answer, and the windows show ROM from 0x3000, 0x3100, 0x3200 and
  // 0x3300 on.
  lemma OnlyRomBeyondRam(rom: Rom, ioRead: u32 -> Option<u32>, ioWrite: (u32, u32) -> bool, shift: Shifter, a: u32)
    ensures var beyond, o := Environment(rom, ioRead, ioWrite, shift).beyond, a - ROM_START;
            && (beyond(a).GotByte? <==> Answers(o)) && beyond(RAM).NoByte?
            && (0 <= o < ROM_SIZE ==> beyond(a) == GotByte(rom[o]))
            && (0x40000 <= o < 0x41000 ==> beyond(a) == GotByte(rom[0x3000 + o - 0x40000]))
            && (0x45000 <= o < 0x45F00 ==> beyond(a) == GotByte(rom[0x3100 + o - 0x45000]))
            && (0x46000 <= o < 0x46E00 ==> beyond(a) == GotByte(rom[0x3200 + o - 0x46000]))
            && (0x47000 <= o < 0x47D00 ==> beyond(a) == GotByte(rom[0x3300 + o - 0x47000]))
  {
  }
}
