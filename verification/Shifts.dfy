/** Shifts and rotations of numbers of n bits, and what they do to the bits. */
module Shifts {
  import opened Bytes

  // b * 2^k
  function Doubled(b: nat, k: nat): nat {
    if k == 0 then b else 2 * Doubled(b, k - 1)
  }

  // b / 2^k, rounded down
  function Halved(b: nat, k: nat): (r: nat)
    ensures r <= b
  {
    if k == 0 then b else Halved(b / 2, k - 1)
  }

  // The n lowest bits of b.
  function Low(b: nat, n: nat): (r: nat)
    ensures r < Pow2(n)
  {
    if n == 0 then 0 else b % 2 + 2 * Low(b / 2, n - 1)
  }

  // b << k in n bits
  function ShiftLeft(b: nat, k: nat, n: nat): (r: nat)
    ensures r < Pow2(n)
  {
    Low(Doubled(b, k), n)
  }

  // b >> k of an unsigned number
  function ShiftRight(b: nat, k: nat): (r: nat)
    ensures r <= b
  {
    Halved(b, k)
  }

  // b >> k of a signed number: the sign bit fills the places that become free.
  function ShiftSigned(b: nat, k: nat, n: nat): (r: nat)
    requires 0 < n && k <= n && b < Pow2(n)
    ensures r < Pow2(n)
  {
    HalvedBound(b, k, n);
    DoubledBound(Pow2(k) - 1, n - k, k);
    Halved(b, k) + if Bit(b, n - 1) then Doubled(Pow2(k) - 1, n - k) else 0
  }

  // (b << k) | (b >> (n - k)), whose parts have no bit in common
  function RotateLeft(b: nat, k: nat, n: nat): (r: nat)
    requires k <= n && b < Pow2(n)
    ensures r < Pow2(n)
  {
    HalvedBound(b, n - k, n);
    LowDoubled(b, k, n);
    DoubledBound(Low(b, n - k), k, n - k);
    ShiftLeft(b, k, n) + Halved(b, n - k)
  }

  // (b >> k) | (b << (n - k))
  function RotateRight(b: nat, k: nat, n: nat): (r: nat)
    requires k <= n && b < Pow2(n)
    ensures r < Pow2(n)
  {
    RotateLeft(b, n - k, n)
  }

  lemma {:induction false} HalvedBound(b: nat, k: nat, n: nat)
    requires k <= n && b < Pow2(n)
    ensures Halved(b, k) < Pow2(n - k)
  {
    if k > 0 {
      HalvedBound(b / 2, k - 1, n - 1);
    }
  }

  // Room for k more bits below a number of m bits.
  lemma {:induction false} DoubledBound(h: nat, k: nat, m: nat)
    requires h < Pow2(m)
    ensures Doubled(h, k) + Pow2(k) <= Pow2(m + k)
  {
    if k > 0 {
      DoubledBound(h, k - 1, m);
    }
  }

  lemma {:induction false} LowDoubled(b: nat, k: nat, n: nat)
    requires k <= n
    ensures Low(Doubled(b, k), n) == Doubled(Low(b, n - k), k)
    decreases k
  {
    if k > 0 {
      var x := Doubled(b, k - 1);
      assert 2 * x / 2 == x && 2 * x % 2 == 0;
      LowDoubled(b, k - 1, n - 1);
    }
  }

  // ---------- bits ----------

  lemma {:induction false} BitOfHalved(b: nat, k: nat, j: nat)
    ensures Bit(Halved(b, k), j) == Bit(b, k + j)
  {
    if k > 0 {
      BitOfHalved(b / 2, k - 1, j);
    }
  }

  lemma {:induction false} BitOfLow(b: nat, n: nat, j: nat)
    ensures Bit(Low(b, n), j) == (j < n && Bit(b, j))
  {
    if n == 0 {
      ZeroHasNoBit(j);
    } else {
      var x := Low(b / 2, n - 1);
      assert (b % 2 + 2 * x) / 2 == x && (b % 2 + 2 * x) % 2 == b % 2;
      if j > 0 {
        BitOfLow(b / 2, n - 1, j - 1);
      }
    }
  }

  // The bits of l below place k, and those of h from there on.
  lemma {:induction false} BitOfSum(h: nat, l: nat, k: nat, j: nat)
    requires l < Pow2(k)
    ensures Bit(Doubled(h, k) + l, j) == if j < k then Bit(l, j) else Bit(h, j - k)
    decreases k
  {
    if k > 0 {
      var x := Doubled(h, k - 1);
      assert (2 * x + l) / 2 == x + l / 2 && (2 * x + l) % 2 == l % 2;
      if j > 0 {
        BitOfSum(h, l / 2, k - 1, j - 1);
      }
    }
  }

  lemma {:induction false} NoBitAbove(b: nat, n: nat, j: nat)
    requires b < Pow2(n) && n <= j
    ensures !Bit(b, j)
  {
    if n == 0 {
      ZeroHasNoBit(j);
    } else {
      NoBitAbove(b / 2, n - 1, j - 1);
    }
  }

  lemma {:induction false} BitOfOnes(k: nat, j: nat)
    ensures Bit(Pow2(k) - 1, j) == (j < k)
  {
    if k == 0 {
      ZeroHasNoBit(j);
    } else {
      assert (Pow2(k) - 1) / 2 == Pow2(k - 1) - 1 && (Pow2(k) - 1) % 2 == 1;
      if j > 0 {
        BitOfOnes(k - 1, j - 1);
      }
    }
  }

  lemma BitsShiftedLeft(b: nat, k: nat, n: nat, j: nat)
    requires j < n
    ensures Bit(ShiftLeft(b, k, n), j) <==> k <= j && Bit(b, j - k)
  {
    BitOfLow(Doubled(b, k), n, j);
    BitOfSum(b, 0, k, j);
    ZeroHasNoBit(j);
  }

  lemma BitsShiftedRight(b: nat, k: nat, j: nat)
    ensures Bit(ShiftRight(b, k), j) <==> Bit(b, j + k)
  {
    BitOfHalved(b, k, j);
  }

  lemma BitsShiftedSigned(b: nat, k: nat, n: nat, j: nat)
    requires b < Pow2(n) && k <= n && j < n
    ensures Bit(ShiftSigned(b, k, n), j) <==> Bit(b, if j + k < n then j + k else n - 1)
  {
    HalvedBound(b, k, n);
    BitOfHalved(b, k, j);
    if Bit(b, n - 1) {
      BitOfSum(Pow2(k) - 1, Halved(b, k), n - k, j);
      if j >= n - k {
        BitOfOnes(k, j - (n - k));
      }
    } else if j + k >= n {
      if j + k > n - 1 {
        NoBitAbove(b, n, j + k);
      }
    }
  }

  lemma BitsRotatedLeft(b: nat, k: nat, n: nat, j: nat)
    requires b < Pow2(n) && 0 < k <= n && j < n
    ensures Bit(RotateLeft(b, k, n), j) <==> Bit(b, if j >= k then j - k else j + n - k)
  {
    HalvedBound(b, n - k, n);
    LowDoubled(b, k, n);
    BitOfSum(Low(b, n - k), Halved(b, n - k), k, j);
    if j < k {
      BitOfHalved(b, n - k, j);
    } else {
      BitOfLow(b, n - k, j - k);
    }
  }

  lemma BitsRotatedRight(b: nat, k: nat, n: nat, j: nat)
    requires b < Pow2(n) && 0 <= k < n && j < n
    ensures Bit(RotateRight(b, k, n), j) <==> Bit(b, if j + k < n then j + k else j + k - n)
  {
    BitsRotatedLeft(b, n - k, n, j);
  }
}
