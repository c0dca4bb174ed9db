/** Machine integers, and bytes seen as arrays of eight bits.

    Bit operations with a one-bit mask are written arithmetically: setting bit k of b adds 2^k
    when the bit is clear, clearing it subtracts 2^k when it is set.  The lemmas below are all
    that the bitmap modules use. */
module Bytes {
  type u8 = x: int | 0 <= x < 0x100
  type u16 = x: int | 0 <= x < 0x1_0000
  type u32 = x: int | 0 <= x < 0x1_0000_0000

  const WORD := 0x1_0000_0000

  function Wrap(x: int): u32 {
    x % WORD
  }

  // The four bytes of a word.
  lemma Digits(v: u32)
    ensures v == v % 0x100 + 0x100 * (v / 0x100 % 0x100) + 0x1_0000 * (v / 0x1_0000 % 0x100) + 0x100_0000 * (v / 0x100_0000)
  {
    assert v / 0x1_0000 == v / 0x100 / 0x100 && v / 0x100_0000 == v / 0x1_0000 / 0x100;
  }

  function Pow2(k: nat): (p: nat)
    ensures p > 0
  {
    if k == 0 then 1 else 2 * Pow2(k - 1)
  }

  lemma Pow2Of32()
    ensures Pow2(32) == WORD
  {
    assert Pow2(8) == 0x100;
    assert Pow2(16) == 0x100 * Pow2(8);
    assert Pow2(24) == 0x100 * Pow2(16);
    assert Pow2(32) == 0x100 * Pow2(24);
  }

  predicate Bit(b: nat, k: nat) {
    if k == 0 then b % 2 == 1 else Bit(b / 2, k - 1)
  }

  lemma {:induction false} ZeroHasNoBit(k: nat)
    ensures !Bit(0, k)
  {
    if k > 0 {
      ZeroHasNoBit(k - 1);
    }
  }

  // b | (1 << k)
  function SetBit(b: u8, k: nat): (r: u8)
    requires k < 8
    ensures forall j: nat :: Bit(r, j) == (j == k || Bit(b, j))
  {
    if Bit(b, k) then b
    else
      AddedBitFits(b, k, 8);
      AddedBits(b, k);
      b + Pow2(k)
  }

  // b & ~(1 << k)
  function ClearBit(b: u8, k: nat): (r: u8)
    requires k < 8
    ensures forall j: nat :: Bit(r, j) == (j != k && Bit(b, j))
  {
    if !Bit(b, k) then b
    else
      RemovedBits(b, k);
      b - Pow2(k)
  }

  lemma {:induction false} AddedBitFits(b: nat, k: nat, m: nat)
    requires k < m && b < Pow2(m) && !Bit(b, k)
    ensures b + Pow2(k) < Pow2(m)
  {
    if k == 0 {
      assert b == 2 * (b / 2) && b / 2 < Pow2(m - 1);
    } else {
      AddedBitFits(b / 2, k - 1, m - 1);
      assert b <= 2 * (b / 2) + 1 && Pow2(m) == 2 * Pow2(m - 1) && Pow2(k) == 2 * Pow2(k - 1);
    }
  }

  lemma {:induction false} AddedBit(b: nat, k: nat, j: nat)
    requires !Bit(b, k)
    ensures Bit(b + Pow2(k), j) == (j == k || Bit(b, j))
  {
    if k > 0 && j > 0 {
      assert (b + Pow2(k)) / 2 == b / 2 + Pow2(k - 1);
      AddedBit(b / 2, k - 1, j - 1);
    } else if k > 0 {
      assert (b + Pow2(k)) % 2 == b % 2;
    } else if j > 0 {
      assert (b + 1) / 2 == b / 2;
    }
  }

  lemma AddedBits(b: nat, k: nat)
    requires !Bit(b, k)
    ensures forall j: nat :: Bit(b + Pow2(k), j) == (j == k || Bit(b, j))
  {
    forall j: nat {
      AddedBit(b, k, j);
    }
  }

  // Removing a set bit is undone by adding it, so the facts about adding carry over.
  lemma {:induction false} RemovedBit(b: nat, k: nat)
    requires Bit(b, k)
    ensures b >= Pow2(k) && !Bit(b - Pow2(k), k)
  {
    if k > 0 {
      RemovedBit(b / 2, k - 1);
      assert (b - Pow2(k)) / 2 == b / 2 - Pow2(k - 1);
    }
  }

  lemma RemovedBits(b: nat, k: nat)
    requires Bit(b, k)
    ensures b >= Pow2(k)
    ensures forall j: nat :: Bit(b - Pow2(k), j) == (j != k && Bit(b, j))
  {
    RemovedBit(b, k);
    AddedBits(b - Pow2(k), k);
  }

  // The position of the lowest clear bit.
  function FirstClear(b: nat): nat {
    if b % 2 == 0 then 0 else 1 + FirstClear(b / 2)
  }

  lemma {:induction false} FirstClearIsLeastClear(b: nat)
    ensures !Bit(b, FirstClear(b))
    ensures forall j: nat | j < FirstClear(b) :: Bit(b, j)
  {
    if b % 2 == 1 {
      FirstClearIsLeastClear(b / 2);
    }
  }

  lemma {:induction false} FirstClearBound(b: nat, m: nat)
    requires b < Pow2(m)
    ensures FirstClear(b) <= m
    ensures FirstClear(b) == m <==> b == Pow2(m) - 1
  {
    if b % 2 == 1 && m > 0 {
      FirstClearBound(b / 2, m - 1);
    }
  }

  // The position of the lowest clear bit of a byte, or 0xFF for a byte that has none.
  method FindFirstClear(byte: u8) returns (firstClear: u8)
    ensures firstClear == 0xFF ==> forall j: nat | j < 8 :: Bit(byte, j)
    ensures firstClear != 0xFF ==>
              firstClear < 8 && !Bit(byte, firstClear) && forall j: nat | j < firstClear :: Bit(byte, j)
  {
    assert Pow2(8) == 0x100;
    FirstClearIsLeastClear(byte);
    FirstClearBound(byte, 8);
    if byte == 0xFF {
      return 0xFF;
    }
    firstClear := 0;
    var b := byte;
    while b % 2 == 1
      invariant firstClear + FirstClear(b) == FirstClear(byte)
      decreases b
    {
      firstClear := firstClear + 1;
      b := b / 2;
    }
  }
}
