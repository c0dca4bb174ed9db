/** The RYFS on-disk format as values: sector headers, the directory sector, the bitmap and chains,
    and the invariant that ties them to a table of files. */
module RyfsDisk {
  import opened Bytes
  import opened Bitmaps
  import opened Devices

  const HEADER := 6
  const PAYLOAD := 506
  const BITS := 4096          // sectors covered by one bitmap sector
  const ENTRIES := 32         // slot 0 of the directory sector is its header
  const NAME := 11

  type Disk = seq<seq<u8>>
  type Name = s: seq<u8> | |s| == NAME witness [0, 0, 0, 0, 0, 0, 0, 0, 0, 0, 0]

  const NO_NAME: Name := [0, 0, 0, 0, 0, 0, 0, 0, 0, 0, 0]

  // GETSHORT
  function Short(s: seq<u8>, o: nat): u16
    requires o + 1 < |s|
  {
    var lo: int, hi: int := s[o], s[o + 1];
    lo + 0x100 * hi
  }

  function Link(s: seq<u8>): u16
    requires |s| == SECTOR
  {
    Short(s, 2)
  }

  function LastSize(s: seq<u8>): u16
    requires |s| == SECTOR
  {
    Short(s, 4)
  }

  function First(dir: seq<u8>, e: nat): u16
    requires |dir| == SECTOR && e < ENTRIES
  {
    Short(dir, 16 * e)
  }

  function Count(dir: seq<u8>, e: nat): u16
    requires |dir| == SECTOR && e < ENTRIES
  {
    Short(dir, 16 * e + 2)
  }

  function NameAt(dir: seq<u8>, e: nat): Name
    requires |dir| == SECTOR && e < ENTRIES
  {
    dir[16 * e + 4..16 * e + 15]
  }

  // ---------- rounding ----------

  // ryfs_ceil
  function Ceil(number: nat, to: nat): nat
    requires to > 0
  {
    if number == 0 then 0
    else
      var remainder := number % to;
      if remainder == 0 then number else number + to - remainder
  }

  // The number of sectors a file of `size` bytes takes.
  function Sectors(size: nat): nat {
    (size + 505) / 506
  }

  lemma CeilCountsSectors(size: nat)
    ensures Ceil(size, PAYLOAD) / PAYLOAD == Sectors(size)
  {
  }

  lemma CeilOfNext(n: nat)
    ensures Ceil(n + 1, BITS) / BITS == n / BITS + 1
    ensures Ceil(n + 1, 8) / 8 == n / 8 + 1
  {
  }

  // Rounded up, the bitmap covers the disk, and counts in one byte.
  lemma CeilCovers(total: nat)
    requires 0 < total < 0x1_0000
    ensures var nb := Ceil(total, BITS) / BITS; 1 <= nb <= 16 && total <= BITS * nb
  {
  }

  // Where mark_used and mark_free look for sector n.
  lemma CeilFindsBit(n: nat)
    ensures Ceil(n + 1, BITS) / BITS + 1 == 2 + n / BITS
    ensures (Ceil(n + 1, 8) / 8 - 1) % 512 == n % BITS / 8
    ensures n % 8 == n % BITS % 8
  {
    CeilOfNext(n);
    SplitBits(n / BITS, n % BITS);
  }

  lemma SplitBits(a: nat, r: nat)
    requires r < BITS
    ensures var n := BITS * a + r; n / 8 % 512 == r / 8 && n % 8 == r % 8
  {
    ByteOfBit(512 * a, r);
    ByteOfSector(a, r / 8);
  }

  lemma ByteOfBit(b: nat, r: nat)
    ensures (8 * b + r) / 8 == b + r / 8 && (8 * b + r) % 8 == r % 8
  {
  }

  lemma ByteOfSector(a: nat, q: nat)
    requires q < 512
    ensures (512 * a + q) % 512 == q
  {
  }

  // ---------- the bitmap ----------

  ghost predicate Covers(d: Disk, nb: nat) {
    2 + nb <= |d| && forall k | 2 <= k < 2 + nb :: |d[k]| == SECTOR
  }

  // The set bits of the nb bitmap sectors, as sector numbers.
  ghost function Used(d: Disk, nb: nat): set<nat>
    requires Covers(d, nb)
  {
    set n: nat | n < BITS * nb && n % BITS in Members(d[2 + n / BITS])
  }

  // d and d' differ at most in bitmap sectors.
  ghost predicate OnlyBitmap(d: Disk, d': Disk, nb: nat) {
    |d| == |d'| && forall k | 0 <= k < |d| && !(2 <= k < 2 + nb) :: d[k] == d'[k]
  }

  lemma UsedAfter(d: Disk, nb: nat, n: nat, s: seq<u8>, add: bool)
    requires Covers(d, nb) && n < BITS * nb && |s| == SECTOR
    requires var was := Members(d[2 + n / BITS]);
             Members(s) == if add then was + {n % BITS} else was - {n % BITS}
    ensures var d' := d[2 + n / BITS := s];
            && Covers(d', nb) && OnlyBitmap(d, d', nb)
            && Used(d', nb) == if add then Used(d, nb) + {n} else Used(d, nb) - {n}
  {
    var d' := d[2 + n / BITS := s];
    var used := if add then Used(d, nb) + {n} else Used(d, nb) - {n};
    forall m: nat | m < BITS * nb ensures m in Used(d', nb) <==> m in used {
      if m / BITS == n / BITS {
        assert m % BITS == n % BITS <==> m == n;
      }
    }
  }

  // n is the least sector number the bitmap does not have.
  predicate IsLeastFree(used: set<nat>, limit: nat, n: nat) {
    n < limit && n !in used && forall m: nat | m < n :: m in used
  }

  // The bit found in byte `byte` of bitmap sector b is the least free sector when all before it are set.
  lemma FoundFree(d: Disk, nb: nat, b: nat, s: seq<u8>, byte: nat, bit: nat)
    requires Covers(d, nb) && b < nb && s == d[2 + b] && byte < 512 && bit < 8
    requires var x := s[byte]; !Bit(x, bit) && forall j: nat | j < bit :: Bit(x, j)
    requires forall m: nat | m < 8 * byte :: MapBit(s, m)
    requires forall n: nat | n < BITS * b :: n in Used(d, nb)
    ensures IsLeastFree(Used(d, nb), BITS * nb, BITS * b + 8 * byte + bit)
  {
    var n := BITS * b + 8 * byte + bit;
    assert n / BITS == b && n % BITS == 8 * byte + bit;
    assert !MapBit(s, n % BITS);
    forall m: nat | BITS * b <= m < n ensures m in Used(d, nb) {
      assert m / BITS == b && m % BITS < 8 * byte + bit;
      assert MapBit(s, m % BITS);
    }
  }

  // The first byte of the bitmap sector in which the least free sector n is found: all ones exactly when
  // n is past the eight sectors of that byte.
  lemma FirstByteFull(d: Disk, nb: nat, n: nat)
    requires Covers(d, nb) && IsLeastFree(Used(d, nb), BITS * nb, n)
    ensures n / BITS < nb && (d[2 + n / BITS][0] == 0xFF <==> n % BITS >= 8)
  {
    var b, s := n / BITS, d[2 + n / BITS];
    assert Pow2(8) == 0x100;
    FirstClearIsLeastClear(s[0]);
    FirstClearBound(s[0], 8);
    if n % BITS >= 8 {
      forall j: nat | j < 8 ensures Bit(s[0], j) {
        var m := BITS * b + j;
        assert m < n && m in Used(d, nb) && m / BITS == b && m % BITS == j;
        assert MapBit(s, j);
      }
    } else {
      assert !MapBit(s, n % BITS);
    }
  }

  lemma NoneFree(d: Disk, nb: nat, b: nat, s: seq<u8>)
    requires Covers(d, nb) && b < nb && s == d[2 + b]
    requires forall m: nat | m < BITS :: MapBit(s, m)
    requires forall n: nat | n < BITS * b :: n in Used(d, nb)
    ensures forall n: nat | n < BITS * (b + 1) :: n in Used(d, nb)
  {
    forall n: nat | BITS * b <= n < BITS * (b + 1) ensures n in Used(d, nb) {
      assert n / BITS == b && MapBit(s, n % BITS);
    }
  }
}
