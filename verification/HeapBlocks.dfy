/** The blocks of the kernel heap as values: a 12-byte header (size, previous, next) in front of each
    block, the free ones linked in a list, all of them side by side in two regions of memory. */
module HeapBlocks {
  import opened Bytes
  import opened Sequences

  const MEMORY := 0x10_0000
  const LOW := 0x1000
  const LOW_TOP := 0x1_6FFF
  const HIGH := 0x2_0000
  const HEAP_BYTES := 0x1_5FFF + 0xE_0000

  // ---------- words ----------

  function Word(m: seq<u8>, a: nat): u32
    requires a + 4 <= |m|
  {
    var b0: int, b1: int, b2: int, b3: int := m[a], m[a + 1], m[a + 2], m[a + 3];
    b0 + 0x100 * b1 + 0x1_0000 * b2 + 0x100_0000 * b3
  }

  function SetWord(m: seq<u8>, a: nat, v: u32): (r: seq<u8>)
    requires a + 4 <= |m|
    ensures |r| == |m| && Word(r, a) == v
    ensures forall i | 0 <= i < |m| && !(a <= i < a + 4) :: r[i] == m[i]
  {
    Digits(v);
    m[a := v % 0x100][a + 1 := v / 0x100 % 0x100][a + 2 := v / 0x1_0000 % 0x100][a + 3 := v / 0x100_0000]
  }

  function SizeOf(m: seq<u8>, b: nat): u32
    requires b + 12 <= |m|
  {
    Word(m, b)
  }

  function PrevOf(m: seq<u8>, b: nat): u32
    requires b + 12 <= |m|
  {
    Word(m, b + 4)
  }

  function NextOf(m: seq<u8>, b: nat): u32
    requires b + 12 <= |m|
  {
    Word(m, b + 8)
  }

  // ---------- blocks ----------

  // The free list in order, the blocks handed out, and the size of each block, header included.
  datatype Blocks = Blocks(free: seq<nat>, live: set<nat>, size: map<nat, nat>)

  predicate InHeap(i: int) {
    LOW <= i < LOW_TOP || HIGH <= i < MEMORY
  }

  predicate InRegion(a: nat, n: nat) {
    (LOW <= a && a + n <= LOW_TOP) || (HIGH <= a && a + n <= MEMORY)
  }

  predicate Apart(a: nat, n: nat, b: nat, k: nat) {
    a + n <= b || b + k <= a
  }

  ghost predicate Layout(size: map<nat, nat>) {
    && (forall a | a in size :: size[a] > 12 && InRegion(a, size[a]))
    && (forall a, b | a in size && b in size && a != b :: Apart(a, size[a], b, size[b]))
  }

  ghost predicate InSome(size: map<nat, nat>, i: int) {
    exists a :: a in size && a <= i < a + size[a]
  }

  // Every byte of the two regions is in a block.
  ghost predicate Covered(size: map<nat, nat>) {
    forall i {:trigger InSome(size, i)} | InHeap(i) :: InSome(size, i)
  }

  ghost predicate Sorted(b: Blocks) {
    && Distinct(b.free)
    && (forall k | 0 <= k < |b.free| :: b.free[k] in b.size && b.free[k] !in b.live)
    && (forall a | a in b.live :: a in b.size)
    && (forall a | a in b.size :: a in b.free || a in b.live)
  }

  ghost predicate Headers(m: seq<u8>, size: map<nat, nat>)
    requires |m| == MEMORY && Layout(size)
  {
    forall a | a in size :: SizeOf(m, a) == size[a]
  }

  predicate Placed(free: seq<nat>) {
    forall k | 0 <= k < |free| :: LOW <= free[k] && free[k] + 12 <= MEMORY
  }

  function Before(free: seq<nat>, k: nat): nat
    requires k < |free|
  {
    if k == 0 then 0 else free[k - 1]
  }

  function After(free: seq<nat>, k: nat): nat
    requires k < |free|
  {
    if k == |free| - 1 then 0 else free[k + 1]
  }

  // The free list is doubly linked, and 0 ends it at both sides.
  ghost predicate Linked(m: seq<u8>, free: seq<nat>, head: u32)
    requires |m| == MEMORY
  {
    && Placed(free) && head == (if free == [] then 0 else free[0])
    && (forall k {:trigger PrevOf(m, free[k])} | 0 <= k < |free| :: PrevOf(m, free[k]) == Before(free, k))
    && (forall k {:trigger NextOf(m, free[k])} | 0 <= k < |free| :: NextOf(m, free[k]) == After(free, k))
  }

  // The sum of the sizes of the blocks that start below n.
  ghost function Sum(size: map<nat, nat>, n: nat): nat {
    if n == 0 then 0 else Sum(size, n - 1) + if n - 1 in size then size[n - 1] else 0
  }

  ghost predicate Inv(m: seq<u8>, head: u32, b: Blocks) {
    && |m| == MEMORY && Layout(b.size) && Sorted(b) && Headers(m, b.size) && Linked(m, b.free, head)
    && Covered(b.size) && Sum(b.size, MEMORY) == HEAP_BYTES
  }

  lemma {:induction false} SumWith(size: map<nat, nat>, a: nat, v: nat, n: nat)
    ensures Sum(size[a := v], n) + (if a in size && a < n then size[a] else 0) == Sum(size, n) + if a < n then v else 0
  {
    if n > 0 {
      SumWith(size, a, v, n - 1);
    }
  }

  lemma {:induction false} SumOfNone(n: nat)
    ensures Sum(map[], n) == 0
  {
    if n > 0 {
      SumOfNone(n - 1);
    }
  }

  // ---------- what a write to a header changes ----------

  ghost predicate OnlyIn(m: seq<u8>, m': seq<u8>, lo: nat, hi: nat) {
    |m'| == |m| && forall i | 0 <= i < |m| && !(lo <= i < hi) :: m'[i] == m[i]
  }

  // Blocks handed out keep every byte, and so does all that is not heap.
  ghost predicate Kept(m: seq<u8>, m': seq<u8>, live: set<nat>, size: map<nat, nat>) {
    && |m'| == |m| == MEMORY
    && (forall a, i | a in live && a in size && a <= i < a + size[a] && i < MEMORY :: m'[i] == m[i])
    && (forall i | 0 <= i < MEMORY && !InHeap(i) :: m'[i] == m[i])
  }

  lemma KeptTwice(m: seq<u8>, m1: seq<u8>, m2: seq<u8>, live: set<nat>, size: map<nat, nat>)
    requires Kept(m, m1, live, size) && Kept(m1, m2, live, size)
    ensures Kept(m, m2, live, size)
  {
  }

  lemma KeptAlso(m: seq<u8>, m': seq<u8>, live: set<nat>, size: map<nat, nat>, size': map<nat, nat>)
    requires Kept(m, m', live, size')
    requires forall a | a in live && a in size :: a in size' && size'[a] == size[a]
    ensures Kept(m, m', live, size)
  {
  }

  lemma KeptOutside(m: seq<u8>, m': seq<u8>, live: set<nat>, size: map<nat, nat>, b: nat, lo: nat, hi: nat)
    requires |m| == MEMORY && Layout(size) && b in size && b !in live
    requires b <= lo <= hi <= b + size[b] && OnlyIn(m, m', lo, hi)
    ensures Kept(m, m', live, size)
  {
    forall a, i | a in live && a in size && a <= i < a + size[a] && i < MEMORY ensures m'[i] == m[i] {
      assert Apart(a, size[a], b, size[b]);
    }
  }

  // The header fields of a block other than b do not see a write inside b.
  lemma OtherHeader(m: seq<u8>, m': seq<u8>, size: map<nat, nat>, b: nat, a: nat)
    requires |m| == MEMORY && Layout(size) && b in size && a in size && a != b && OnlyIn(m, m', b, b + size[b])
    ensures SizeOf(m', a) == SizeOf(m, a) && PrevOf(m', a) == PrevOf(m, a) && NextOf(m', a) == NextOf(m, a)
  {
    assert Apart(a, size[a], b, size[b]);
  }

  lemma PrevSet(m: seq<u8>, size: map<nat, nat>, b: nat, v: u32)
    requires |m| == MEMORY && Layout(size) && b in size
    ensures var m' := SetWord(m, b + 4, v);
            OnlyIn(m, m', b, b + size[b]) && forall a | a in size ::
              SizeOf(m', a) == SizeOf(m, a) && NextOf(m', a) == NextOf(m, a)
              && PrevOf(m', a) == if a == b then v else PrevOf(m, a)
  {
    var m' := SetWord(m, b + 4, v);
    forall a | a in size && a != b
      ensures SizeOf(m', a) == SizeOf(m, a) && NextOf(m', a) == NextOf(m, a) && PrevOf(m', a) == PrevOf(m, a)
    {
      OtherHeader(m, m', size, b, a);
    }
  }

  lemma NextSet(m: seq<u8>, size: map<nat, nat>, b: nat, v: u32)
    requires |m| == MEMORY && Layout(size) && b in size
    ensures var m' := SetWord(m, b + 8, v);
            OnlyIn(m, m', b, b + size[b]) && forall a | a in size ::
              SizeOf(m', a) == SizeOf(m, a) && PrevOf(m', a) == PrevOf(m, a)
              && NextOf(m', a) == if a == b then v else NextOf(m, a)
  {
    var m' := SetWord(m, b + 8, v);
    forall a | a in size && a != b
      ensures SizeOf(m', a) == SizeOf(m, a) && NextOf(m', a) == NextOf(m, a) && PrevOf(m', a) == PrevOf(m, a)
    {
      OtherHeader(m, m', size, b, a);
    }
  }

  // Nothing but the payload of b changes.
  lemma PayloadSet(m: seq<u8>, m': seq<u8>, size: map<nat, nat>, b: nat, free: seq<nat>, head: u32)
    requires |m| == MEMORY && Layout(size) && b in size && OnlyIn(m, m', b + 12, b + size[b])
    requires Headers(m, size) && (forall k | 0 <= k < |free| :: free[k] in size) && Linked(m, free, head)
    ensures Headers(m', size) && Linked(m', free, head)
  {
    forall a | a in size
      ensures SizeOf(m', a) == SizeOf(m, a) && PrevOf(m', a) == PrevOf(m, a) && NextOf(m', a) == NextOf(m, a)
    {
      if a != b {
        OtherHeader(m, m', size, b, a);
      }
    }
    hide PrevOf, NextOf, SizeOf;
  }

  // ---------- taking a block off the list ----------

  function Without(free: seq<nat>, k: nat): seq<nat>
    requires k < |free|
  {
    free[..k] + free[k + 1..]
  }

  // The unlinking of allocate_memory, in memory.
  function Unlinked(m: seq<u8>, next: u32, prev: u32): seq<u8>
    requires |m| == MEMORY && next + 12 <= MEMORY && prev + 12 <= MEMORY
  {
    var m1 := if next != 0 then SetWord(m, next + 4, prev) else m;
    if prev != 0 then SetWord(m1, prev + 8, next) else m1
  }

  // The free blocks next to a free block are free blocks.
  lemma Neighbours(m: seq<u8>, head: u32, b: Blocks, k: nat)
    requires Inv(m, head, b) && k < |b.free|
    ensures var c := b.free[k];
            && LOW <= c && c + 12 <= MEMORY && c in b.size && SizeOf(m, c) == b.size[c] && InRegion(c, b.size[c])
            && NextOf(m, c) == After(b.free, k) && PrevOf(m, c) == Before(b.free, k)
            && NextOf(m, c) + 12 <= MEMORY && PrevOf(m, c) + 12 <= MEMORY
            && (NextOf(m, c) != 0 ==> NextOf(m, c) in b.size && NextOf(m, c) !in b.live)
            && (PrevOf(m, c) != 0 ==> PrevOf(m, c) in b.size && PrevOf(m, c) !in b.live)
  {
    hide Covered, Sum, SizeOf, PrevOf, NextOf;
  }

  lemma Unlinking(m: seq<u8>, head: u32, b: Blocks, k: nat)
    requires Inv(m, head, b) && k < |b.free|
    ensures |m| == MEMORY && b.free[k] + 12 <= MEMORY && b.free[k] !in b.live
    ensures var c := b.free[k];
            var next, prev := NextOf(m, c), PrevOf(m, c);
            && next + 12 <= MEMORY && prev + 12 <= MEMORY
            && var m' := Unlinked(m, next, prev);
               && Kept(m, m', b.live, b.size)
               && Inv(m', if prev == 0 then next else head, Blocks(Without(b.free, k), b.live + {c}, b.size))
  {
    hide Covered, Sum, SizeOf, PrevOf, NextOf, SetWord, Sorted, Linked, Kept, Without, Distinct;
    Neighbours(m, head, b, k);
    FreeInSize(b);
    var c := b.free[k];
    var next, prev := NextOf(m, c), PrevOf(m, c);
    var m1 := if next != 0 then SetWord(m, next + 4, prev) else m;
    var m2 := if prev != 0 then SetWord(m1, prev + 8, next) else m1;
    KeptSame(m, b.live, b.size);
    if next != 0 {
      PrevSet(m, b.size, next, prev);
      KeptOutside(m, m1, b.live, b.size, next, next, next + b.size[next]);
    }
    KeptSame(m1, b.live, b.size);
    if prev != 0 {
      NextSet(m1, b.size, prev, next);
      KeptOutside(m1, m2, b.live, b.size, prev, prev, prev + b.size[prev]);
    }
    KeptTwice(m, m1, m2, b.live, b.size);
    StillLinked(m, m2, b, head, k);
    TakenOff(b, k);
  }

  lemma KeptSame(m: seq<u8>, live: set<nat>, size: map<nat, nat>)
    requires |m| == MEMORY
    ensures Kept(m, m, live, size)
  {
  }

  lemma TakenOff(b: Blocks, k: nat)
    requires Sorted(b) && k < |b.free|
    ensures Sorted(Blocks(Without(b.free, k), b.live + {b.free[k]}, b.size))
  {
    hide Without;
    var free, rest := b.free, Without(b.free, k);
    WithoutOne(free, k);
    assert free[k] in b.size && free[k] !in rest;
    forall j | 0 <= j < |rest| ensures rest[j] in b.size && rest[j] !in b.live + {free[k]} {
      assert rest[j] in rest && rest[j] in free;
    }
  }

  lemma WithoutOne(free: seq<nat>, k: nat)
    requires Distinct(free) && k < |free|
    ensures var rest := Without(free, k);
            Distinct(rest) && forall a :: a in rest <==> a in free && a != free[k]
  {
    var rest := Without(free, k);
    assert forall j | 0 <= j < |rest| :: rest[j] == free[if j < k then j else j + 1];
    forall a | a in free && a != free[k] ensures a in rest {
      var j :| 0 <= j < |free| && free[j] == a;
      assert a == rest[if j < k then j else j - 1];
    }
  }

  // In a list of distinct places, only the entry before k comes before it, and only the one after, after.
  lemma OnlyNeighbour(free: seq<nat>, k: nat, i: nat)
    requires Distinct(free) && Placed(free) && k < |free| && i < |free|
    ensures After(free, k) != 0 && free[i] == After(free, k) <==> i == k + 1
    ensures Before(free, k) != 0 && free[i] == Before(free, k) <==> i == k - 1
  {
  }

  lemma WithoutNeighbours(free: seq<nat>, k: nat, j: nat)
    requires k < |free| && j < |Without(free, k)|
    ensures var i := if j < k then j else j + 1;
            && i < |free| && i != k && Without(free, k)[j] == free[i]
            && Before(Without(free, k), j) == (if i == k + 1 then Before(free, k) else Before(free, i))
            && After(Without(free, k), j) == (if i == k - 1 then After(free, k) else After(free, i))
  {
  }

  lemma StillLinked(m: seq<u8>, m': seq<u8>, b: Blocks, head: u32, k: nat)
    requires |m| == MEMORY == |m'| && Sorted(b) && Linked(m, b.free, head) && k < |b.free|
    requires b.free[k] + 12 <= MEMORY && forall a | a in b.size :: a + 12 <= MEMORY
    requires var next, prev := NextOf(m, b.free[k]), PrevOf(m, b.free[k]);
             forall a | a in b.size ::
               && PrevOf(m', a) == (if next != 0 && a == next then prev else PrevOf(m, a))
               && NextOf(m', a) == (if prev != 0 && a == prev then next else NextOf(m, a))
    ensures Linked(m', Without(b.free, k), if PrevOf(m, b.free[k]) == 0 then NextOf(m, b.free[k]) else head)
  {
    hide PrevOf, NextOf, Before, After, Without, Distinct;
    var free, rest := b.free, Without(b.free, k);
    forall j | 0 <= j < |rest|
      ensures LOW <= rest[j] && rest[j] + 12 <= MEMORY
      ensures PrevOf(m', rest[j]) == Before(rest, j) && NextOf(m', rest[j]) == After(rest, j)
    {
      var i := if j < k then j else j + 1;
      WithoutNeighbours(free, k, j);
      OnlyNeighbour(free, k, i);
      assert PrevOf(m, free[i]) == Before(free, i) && NextOf(m, free[i]) == After(free, i);
      assert PrevOf(m, free[k]) == Before(free, k) && NextOf(m, free[k]) == After(free, k);
    }
    NewHead(free, k);
  }

  lemma NewHead(free: seq<nat>, k: nat)
    requires k < |free| && Placed(free)
    ensures var rest := Without(free, k);
            (if rest == [] then 0 else rest[0]) == if Before(free, k) == 0 then After(free, k) else free[0]
  {
  }

  // ---------- carving ----------

  // The last n bytes of a free block become a block of their own.
  function Carved(m: seq<u8>, b: nat, n: nat): (r: seq<u8>)
    requires |m| == MEMORY && b + 12 <= MEMORY && n <= SizeOf(m, b) && b + SizeOf(m, b) <= MEMORY && 4 <= n
    ensures |r| == |m|
  {
    var left := SizeOf(m, b) - n;
    SetWord(SetWord(m, b, left), b + left, n)
  }

  function Split(size: map<nat, nat>, b: nat, n: nat): map<nat, nat>
    requires b in size && n <= size[b]
  {
    size[b := size[b] - n][b + size[b] - n := n]
  }

  lemma Carving(m: seq<u8>, head: u32, b: Blocks, k: nat, n: nat)
    requires Inv(m, head, b) && k < |b.free| && 12 < n && b.free[k] in b.size && n + 12 < b.size[b.free[k]]
    ensures var c := b.free[k];
            var tail := c + b.size[c] - n;
            && |m| == MEMORY && c + b.size[c] <= MEMORY && SizeOf(m, c) == b.size[c] && tail !in b.live && c != tail
            && var m' := Carved(m, c, n);
               && Kept(m, m', b.live, b.size)
               && Inv(m', head, Blocks(b.free, b.live + {tail}, Split(b.size, c, n)))
  {
    hide Covered, Sum, SizeOf, PrevOf, NextOf, SetWord, Sorted, Linked, Kept, Carved, Split, Layout, Headers;
    Neighbours(m, head, b, k);
    var c := b.free[k];
    var left := b.size[c] - n;
    SplitLayout(b.size, c, n);
    SplitCovers(b.size, c, n);
    SplitSum(b.size, c, n);
    SplitSorted(b, k, n);
    LiveInSize(b);
    CarvedFields(m, b.size, c, n);
    SplitHeaders(m, Carved(m, c, n), b.size, c, n);
    FreeInSize(b);
    KeptOutside(m, Carved(m, c, n), b.live, b.size, c, c, c + b.size[c]);
    SameLinks(m, Carved(m, c, n), b.size, b.free, head);
  }

  lemma LiveInSize(b: Blocks)
    requires Sorted(b)
    ensures forall a | a in b.live :: a in b.size && a !in b.free
  {
  }

  lemma FreeInSize(b: Blocks)
    requires Sorted(b)
    ensures forall k | 0 <= k < |b.free| :: b.free[k] in b.size && b.free[k] !in b.live
  {
  }

  lemma SplitSum(size: map<nat, nat>, b: nat, n: nat)
    requires b in size && 0 < n < size[b] && b + size[b] - n !in size && b + size[b] <= MEMORY
    ensures Sum(Split(size, b, n), MEMORY) == Sum(size, MEMORY)
  {
    SumWith(size, b, size[b] - n, MEMORY);
    SumWith(size[b := size[b] - n], b + size[b] - n, n, MEMORY);
  }

  lemma SplitSorted(b: Blocks, k: nat, n: nat)
    requires Sorted(b) && k < |b.free| && b.free[k] in b.size && n < b.size[b.free[k]]
    requires b.free[k] + b.size[b.free[k]] - n !in b.size
    ensures var c := b.free[k];
            Sorted(Blocks(b.free, b.live + {c + b.size[c] - n}, Split(b.size, c, n)))
  {
  }

  lemma SplitHeaders(m: seq<u8>, m': seq<u8>, size: map<nat, nat>, c: nat, n: nat)
    requires |m| == MEMORY == |m'| && Layout(size) && Headers(m, size) && c in size && n < size[c]
    requires Layout(Split(size, c, n)) && c + size[c] <= MEMORY && 12 <= n
    requires SizeOf(m', c + size[c] - n) == n
    requires forall a | a in size :: a + 12 <= MEMORY && SizeOf(m', a) == if a == c then size[c] - n else SizeOf(m, a)
    ensures Headers(m', Split(size, c, n))
  {
    hide SizeOf, Layout;
  }

  lemma CarvedFields(m: seq<u8>, size: map<nat, nat>, c: nat, n: nat)
    requires |m| == MEMORY && Layout(size) && c in size && 12 < n && n + 12 < size[c] == SizeOf(m, c)
    ensures c + size[c] <= MEMORY && OnlyIn(m, Carved(m, c, n), c, c + size[c])
    ensures SizeOf(Carved(m, c, n), c + size[c] - n) == n
    ensures forall a | a in size ::
              && a + 12 <= MEMORY
              && PrevOf(Carved(m, c, n), a) == PrevOf(m, a) && NextOf(Carved(m, c, n), a) == NextOf(m, a)
              && SizeOf(Carved(m, c, n), a) == if a == c then SizeOf(m, c) - n else SizeOf(m, a)
  {
    assert c + size[c] <= MEMORY;
    CarvedHeader(m, c, n);
    forall a | a in size && a != c
      ensures a + 12 <= MEMORY
      ensures PrevOf(Carved(m, c, n), a) == PrevOf(m, a) && NextOf(Carved(m, c, n), a) == NextOf(m, a)
      ensures SizeOf(Carved(m, c, n), a) == SizeOf(m, a)
    {
      hide Carved;
      OtherHeader(m, Carved(m, c, n), size, c, a);
    }
  }

  lemma SameLinks(m: seq<u8>, m': seq<u8>, size: map<nat, nat>, free: seq<nat>, head: u32)
    requires |m| == MEMORY == |m'| && Linked(m, free, head) && forall k | 0 <= k < |free| :: free[k] in size
    requires forall a | a in size :: a + 12 <= MEMORY && PrevOf(m', a) == PrevOf(m, a) && NextOf(m', a) == NextOf(m, a)
    ensures Linked(m', free, head)
  {
    hide PrevOf, NextOf, Before, After;
  }

  lemma CarvedHeader(m: seq<u8>, b: nat, n: nat)
    requires |m| == MEMORY && b + 12 <= MEMORY && 12 < n && n + 12 < SizeOf(m, b) && b + SizeOf(m, b) <= MEMORY
    ensures var m', tail := Carved(m, b, n), b + SizeOf(m, b) - n;
            && SizeOf(m', b) == SizeOf(m, b) - n && SizeOf(m', tail) == n
            && PrevOf(m', b) == PrevOf(m, b) && NextOf(m', b) == NextOf(m, b)
            && OnlyIn(m, m', b, b + SizeOf(m, b))
  {
  }

  lemma SplitLayout(size: map<nat, nat>, b: nat, n: nat)
    requires Layout(size) && b in size && 12 < n && n + 12 < size[b]
    ensures Layout(Split(size, b, n)) && b + size[b] - n !in size
  {
    var tail := b + size[b] - n;
    assert tail in size ==> Apart(tail, size[tail], b, size[b]);
    var size' := Split(size, b, n);
    forall a, c | a in size' && c in size' && a != c ensures Apart(a, size'[a], c, size'[c]) {
      if a in size && a != b {
        assert Apart(a, size[a], b, size[b]);
      }
      if c in size && c != b {
        assert Apart(c, size[c], b, size[b]);
      }
      if a in size && c in size {
        assert Apart(a, size[a], c, size[c]);
      }
    }
  }

  lemma SplitCovers(size: map<nat, nat>, b: nat, n: nat)
    requires Covered(size) && b in size && n < size[b] && b + size[b] - n !in size
    ensures Covered(Split(size, b, n))
  {
    var size' := Split(size, b, n);
    forall i | InHeap(i) ensures InSome(size', i) {
      assert InSome(size, i);
      var a :| a in size && a <= i < a + size[a];
      if a == b {
        var c := if i < b + size[b] - n then b else b + size[b] - n;
        assert c in size' && c <= i < c + size'[c];
      } else {
        assert a in size' && size'[a] == size[a];
      }
    }
  }

  // ---------- giving a block back ----------

  // The linking of free_memory, in memory.
  function Relinked(m: seq<u8>, b: nat, head: u32): seq<u8>
    requires |m| == MEMORY && b + 12 <= MEMORY && head + 12 <= MEMORY && b < WORD
  {
    var m1 := SetWord(SetWord(m, b + 4, 0), b + 8, head);
    if head != 0 then SetWord(m1, head + 4, b) else m1
  }

  lemma Relinking(m: seq<u8>, head: u32, b: Blocks, c: nat)
    requires Inv(m, head, b) && c in b.live
    ensures |m| == MEMORY && c in b.size && LOW <= c && c + b.size[c] <= MEMORY && c + 12 <= MEMORY && head + 12 <= MEMORY
    ensures SizeOf(m, c) == b.size[c]
    ensures var m' := Relinked(m, c, head);
            && Kept(m, m', b.live - {c}, b.size)
            && Inv(m', c, Blocks([c] + b.free, b.live - {c}, b.size))
  {
    hide Covered, Sum, SizeOf, PrevOf, NextOf, SetWord, Linked, Kept, Distinct;
    HeadIsFree(m, head, b);
    assert c !in b.free by {
      hide *;
      LiveNotFree(b, c);
    }
    var live := b.live - {c};
    var m1 := SetWord(m, c + 4, 0);
    PrevSet(m, b.size, c, 0);
    KeptOutside(m, m1, live, b.size, c, c, c + b.size[c]);
    var m2 := SetWord(m1, c + 8, head);
    NextSet(m1, b.size, c, head);
    KeptOutside(m1, m2, live, b.size, c, c, c + b.size[c]);
    KeptTwice(m, m1, m2, live, b.size);
    var m3 := if head != 0 then SetWord(m2, head + 4, c) else m2;
    KeptSame(m2, live, b.size);
    if head != 0 {
      PrevSet(m2, b.size, head, c);
      KeptOutside(m2, m3, live, b.size, head, head, head + b.size[head]);
    }
    KeptTwice(m, m2, m3, live, b.size);
    Pushed(m, m3, b, head, c);
    PutBack(b, c);
  }

  lemma LiveNotFree(b: Blocks, c: nat)
    requires Sorted(b) && c in b.live
    ensures c !in b.free
  {
  }

  lemma HeadIsFree(m: seq<u8>, head: u32, b: Blocks)
    requires Inv(m, head, b)
    ensures |m| == MEMORY && Sorted(b)
    ensures head + 12 <= MEMORY && head == (if b.free == [] then 0 else b.free[0])
    ensures head != 0 ==> head in b.size && head !in b.live
    ensures head == 0 <==> b.free == []
  {
    hide Covered, Sum, SizeOf, PrevOf, NextOf;
  }

  lemma PutBack(b: Blocks, c: nat)
    requires Sorted(b) && c in b.live
    ensures Sorted(Blocks([c] + b.free, b.live - {c}, b.size))
  {
    var now := [c] + b.free;
    assert forall j | 1 <= j < |now| :: now[j] == b.free[j - 1];
    assert now[0] == c;
    forall a | a in b.free ensures a in now {
      var j :| 0 <= j < |b.free| && b.free[j] == a;
      assert now[j + 1] == a;
    }
  }

  lemma Pushed(m: seq<u8>, m': seq<u8>, b: Blocks, head: u32, c: nat)
    requires |m| == MEMORY == |m'| && Layout(b.size) && Sorted(b) && Linked(m, b.free, head) && c in b.live
    requires forall a | a in b.size ::
               && PrevOf(m', a) == (if head != 0 && a == head then c else if a == c then 0 else PrevOf(m, a))
               && NextOf(m', a) == (if a == c then head else NextOf(m, a))
    ensures Linked(m', [c] + b.free, c)
  {
    hide PrevOf, NextOf, Layout, Before, After, Distinct, Sorted;
    var now := [c] + b.free;
    forall j | 0 <= j < |now|
      ensures LOW <= now[j] && now[j] + 12 <= MEMORY
      ensures PrevOf(m', now[j]) == Before(now, j) && NextOf(m', now[j]) == After(now, j)
    {
      PushedPlace(m, m', b, head, c, j);
    }
  }

  lemma PushedPlace(m: seq<u8>, m': seq<u8>, b: Blocks, head: u32, c: nat, j: nat)
    requires |m| == MEMORY == |m'| && Layout(b.size) && Sorted(b) && Linked(m, b.free, head) && c in b.live
    requires j <= |b.free|
    requires forall a | a in b.size ::
               && PrevOf(m', a) == (if head != 0 && a == head then c else if a == c then 0 else PrevOf(m, a))
               && NextOf(m', a) == (if a == c then head else NextOf(m, a))
    ensures var now := [c] + b.free;
            && LOW <= now[j] && now[j] + 12 <= MEMORY
            && PrevOf(m', now[j]) == Before(now, j) && NextOf(m', now[j]) == After(now, j)
  {
    assert LOW <= c && c + 12 <= MEMORY;
    hide PrevOf, NextOf, Layout, Before, After, Distinct;
    PushedNeighbours(b.free, c, j);
    if j > 0 {
      PushedAt(m, m', b, head, c, j - 1);
    } else {
      HeadIsOffTheList(m, b, head, c);
    }
  }

  lemma HeadIsOffTheList(m: seq<u8>, b: Blocks, head: u32, c: nat)
    requires |m| == MEMORY && Sorted(b) && Linked(m, b.free, head) && c in b.live
    ensures c in b.size && (head != 0 ==> c != head)
  {
    FreeInSize(b);
    LiveInSize(b);
  }

  lemma PushedAt(m: seq<u8>, m': seq<u8>, b: Blocks, head: u32, c: nat, i: nat)
    requires |m| == MEMORY == |m'| && Layout(b.size) && Sorted(b) && Linked(m, b.free, head) && c in b.live && i < |b.free|
    requires forall a | a in b.size ::
               && PrevOf(m', a) == (if head != 0 && a == head then c else if a == c then 0 else PrevOf(m, a))
               && NextOf(m', a) == (if a == c then head else NextOf(m, a))
    ensures LOW <= b.free[i] && b.free[i] + 12 <= MEMORY
    ensures PrevOf(m', b.free[i]) == (if i == 0 then c else Before(b.free, i)) && NextOf(m', b.free[i]) == After(b.free, i)
  {
    FreeInSize(b);
    hide PrevOf, NextOf, Layout, Before, After;
    HeadIsFirst(b.free, i);
    hide Distinct, Sorted;
    var a := b.free[i];
    assert a in b.size && a != c;
    assert PrevOf(m, a) == Before(b.free, i) && NextOf(m, a) == After(b.free, i);
  }

  lemma HeadIsFirst(free: seq<nat>, i: nat)
    requires Distinct(free) && Placed(free) && i < |free|
    ensures free[i] == free[0] <==> i == 0
  {
  }

  lemma PushedNeighbours(free: seq<nat>, c: nat, j: nat)
    requires j <= |free|
    ensures var now := [c] + free;
            && now[j] == (if j == 0 then c else free[j - 1])
            && Before(now, j) == (if j == 0 then 0 else if j == 1 then c else Before(free, j - 1))
            && After(now, j) == (if j == 0 then if free == [] then 0 else free[0] else After(free, j - 1))
  {
  }

  // ---------- the first two blocks ----------

  function Start(m: seq<u8>): seq<u8>
    requires |m| == MEMORY
  {
    var m1 := SetWord(m, LOW, LOW_TOP - LOW);
    var m2 := SetWord(SetWord(m1, LOW + 4, 0), LOW + 8, HIGH);
    SetWord(SetWord(SetWord(m2, HIGH, 0xE_0000), HIGH + 4, LOW), HIGH + 8, 0)
  }

  const START := Blocks([LOW, HIGH], {}, map[LOW := LOW_TOP - LOW, HIGH := 0xE_0000])

  lemma Starting(m: seq<u8>)
    requires |m| == MEMORY
    ensures Inv(Start(m), LOW, START) && Kept(m, Start(m), {}, START.size)
  {
    hide Start, SizeOf, PrevOf, NextOf, Sum, Covered, InHeap;
    StartHeaders(m);
    StartSizes();
    assert Placed(START.free) && Distinct(START.free);
  }

  lemma StartSizes()
    ensures Layout(START.size) && Covered(START.size) && Sum(START.size, MEMORY) == HEAP_BYTES
  {
    var size := START.size;
    hide Sum;
    SumOfNone(MEMORY);
    SumWith(map[], LOW, LOW_TOP - LOW, MEMORY);
    SumWith(map[LOW := LOW_TOP - LOW], HIGH, 0xE_0000, MEMORY);
    assert size == map[LOW := LOW_TOP - LOW][HIGH := 0xE_0000];
    forall i | InHeap(i) ensures InSome(size, i) {
      var a := if i < HIGH then LOW else HIGH;
      assert a in size && a <= i < a + size[a];
    }
  }

  lemma StartHeaders(m: seq<u8>)
    requires |m| == MEMORY
    ensures var m' := Start(m);
            && |m'| == MEMORY && (forall i | 0 <= i < MEMORY && !InHeap(i) :: m'[i] == m[i])
            && SizeOf(m', LOW) == LOW_TOP - LOW && PrevOf(m', LOW) == 0 && NextOf(m', LOW) == HIGH
            && SizeOf(m', HIGH) == 0xE_0000 && PrevOf(m', HIGH) == LOW && NextOf(m', HIGH) == 0
  {
  }
}
