/** A bitmap, an array of bytes with bit n at position n % 8 of byte n / 8, seen as a set. */
module Bitmaps {
  import opened Bytes

  predicate MapBit(bits: seq<u8>, n: nat)
    requires n < 8 * |bits|
  {
    Bit(bits[n / 8], n % 8)
  }

  function Members(bits: seq<u8>): set<nat> {
    set n: nat | n < 8 * |bits| && MapBit(bits, n)
  }

  lemma SetBitAdds(bits: seq<u8>, n: nat)
    requires n < 8 * |bits|
    ensures Members(bits[n / 8 := SetBit(bits[n / 8], n % 8)]) == Members(bits) + {n}
  {
    var r := bits[n / 8 := SetBit(bits[n / 8], n % 8)];
    forall m: nat | m < 8 * |bits| ensures MapBit(r, m) == (m == n || MapBit(bits, m)) {
      if m / 8 == n / 8 {
        assert Bit(r[m / 8], m % 8) == (m % 8 == n % 8 || Bit(bits[m / 8], m % 8));
      }
    }
  }

  lemma ClearBitRemoves(bits: seq<u8>, n: nat)
    requires n < 8 * |bits|
    ensures Members(bits[n / 8 := ClearBit(bits[n / 8], n % 8)]) == Members(bits) - {n}
  {
    var r := bits[n / 8 := ClearBit(bits[n / 8], n % 8)];
    forall m: nat | m < 8 * |bits| ensures MapBit(r, m) == (m != n && MapBit(bits, m)) {
      if m / 8 == n / 8 {
        assert Bit(r[m / 8], m % 8) == (m % 8 != n % 8 && Bit(bits[m / 8], m % 8));
      }
    }
  }

  lemma ZeroBytesAreEmpty(bits: seq<u8>)
    requires forall k | 0 <= k < |bits| :: bits[k] == 0
    ensures Members(bits) == {}
  {
    forall n: nat | n < 8 * |bits| ensures !MapBit(bits, n) {
      ZeroHasNoBit(n % 8);
    }
  }

  // bits[n / 8] |= 1 << (n % 8)
  method Mark(bits: array<u8>, n: nat)
    requires n < 8 * bits.Length
    modifies bits
    ensures Members(bits[..]) == Members(old(bits[..])) + {n}
  {
    SetBitAdds(bits[..], n);
    bits[n / 8] := SetBit(bits[n / 8], n % 8);
    assert bits[..] == old(bits[..])[n / 8 := SetBit(old(bits[n / 8]), n % 8)];
  }

  // bits[n / 8] &= ~(1 << (n % 8))
  method Unmark(bits: array<u8>, n: nat)
    requires n < 8 * bits.Length
    modifies bits
    ensures Members(bits[..]) == Members(old(bits[..])) - {n}
  {
    ClearBitRemoves(bits[..], n);
    bits[n / 8] := ClearBit(bits[n / 8], n % 8);
    assert bits[..] == old(bits[..])[n / 8 := ClearBit(old(bits[n / 8]), n % 8)];
  }
}
