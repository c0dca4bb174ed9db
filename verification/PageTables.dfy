/** The value layer of demand paging: what the three tables of fox32_vm_t and the two stores mean,
    and what each table update and each byte update does to that meaning. */
module PageTables {
  import opened Bytes
  import opened Devices

  const PAGE := 4096
  const PAGES := 256
  const FRAMES := 32
  const RAM := 0x10_0000
  const EVICT := 20            // frames EVICT..EVICT+8 are the ones given up

  // The three tables with their bitmaps as sets, and the ghost inverse of the page table:
  // owner[f] is the page in frame f.
  datatype Tables = Tables(resident: set<nat>, used: set<nat>, table: seq<u8>, owner: seq<nat>) {
    ghost predicate Sized() {
      |table| == PAGES && |owner| == FRAMES
    }

    // Resident pages and used frames are in bijection through the page table, and a page that is
    // not resident maps to 0.
    ghost predicate Bijective()
      requires Sized()
    {
      && (forall p {:trigger p in resident} | p in resident ::
            p < PAGES && table[p] < FRAMES && table[p] in used)
      && (forall p, q {:trigger p in resident, q in resident} | p in resident && q in resident ::
            p < PAGES && q < PAGES && (table[p] == table[q] ==> p == q))
      && (forall f {:trigger owner[f]} | f in used ::
            f < FRAMES && owner[f] in resident && owner[f] < PAGES && table[owner[f]] == f)
      && (forall p: nat {:trigger table[p]} | p < PAGES && p !in resident :: table[p] == 0)
    }

    ghost predicate Full() {
      forall f: nat | f < FRAMES :: f in used
    }
  }

  function Page(bytes: seq<u8>, p: nat): (r: seq<u8>)
    requires (p + 1) * PAGE <= |bytes|
    ensures |r| == PAGE
  {
    bytes[p * PAGE..(p + 1) * PAGE]
  }

  // The n sectors from `start` on, joined.
  function Joined(sectors: seq<seq<u8>>, start: nat, n: nat): (r: seq<u8>)
    requires start + n <= |sectors|
    requires WholeSectors(sectors)
    ensures |r| == n * SECTOR
  {
    if n == 0 then [] else Joined(sectors, start, n - 1) + sectors[start + n - 1]
  }

  lemma JoinedMore(sectors: seq<seq<u8>>, start: nat, n: nat)
    requires WholeSectors(sectors) && start + n < |sectors|
    ensures Joined(sectors, start, n + 1) == Joined(sectors, start, n) + sectors[start + n]
  {
  }

  lemma {:induction false} JoinedFrame(a: seq<seq<u8>>, b: seq<seq<u8>>, start: nat, n: nat)
    requires start + n <= |a| && start + n <= |b|
    requires WholeSectors(a)
    requires WholeSectors(b)
    requires forall k | start <= k < start + n :: a[k] == b[k]
    ensures Joined(a, start, n) == Joined(b, start, n)
  {
    if n > 0 {
      JoinedFrame(a, b, start, n - 1);
    }
  }

  // a and b differ at most in the n sectors from `start` on.
  ghost predicate SameOutside(a: seq<seq<u8>>, b: seq<seq<u8>>, start: nat, n: nat) {
    |a| == |b| && forall k | 0 <= k < |a| && !(start <= k < start + n) :: a[k] == b[k]
  }

  // Where the sector loops stand after j of the eight sectors of frame f.
  predicate At(bank: nat, address: int, f: nat, j: nat) {
    && 0 <= address && bank < 2 && (bank == 1 ==> f >= 16 && address <= BANK)
    && bank * BANK + address == f * PAGE + j * SECTOR
  }

  lemma FirstSector(f: nat, sectors: seq<seq<u8>>, start: nat)
    requires WholeSectors(sectors) && start <= |sectors|
    ensures At(0, f * PAGE, f, 0)
    ensures Joined(sectors, start, 0) == []
  {
  }

  lemma AtNext(bank: nat, address: int, f: nat, j: nat)
    requires At(bank, address, f, j) && f < FRAMES && j < 8
    ensures var b, a := if address > 0xFFFF then 1 else bank, if address > 0xFFFF then address % BANK else address;
            && b < 2 && 0 <= a && a + SECTOR <= BANK && b * BANK + a == f * PAGE + j * SECTOR
            && At(b, a + SECTOR, f, j + 1)
  {
    if address <= 0xFFFF {
      RoomForOne(8 * f + j, bank, address);
    }
  }

  lemma RoomForOne(m: nat, bank: nat, address: nat)
    requires address < BANK && bank * BANK + address == m * SECTOR
    ensures address + SECTOR <= BANK
  {
    assert address == SECTOR * (m - 128 * bank);
  }

  // With n sectors of `data` from offset `from` on copied, one more is copied next.
  lemma CopiedMore(was: seq<seq<u8>>, now: seq<seq<u8>>, start: nat, n: nat, data: seq<u8>, from: nat)
    requires SameOutside(was, now, start, n) && start + n < |now| && WholeSectors(now)
    requires from + (n + 1) * SECTOR <= |data|
    requires Joined(now, start, n) == data[from..from + n * SECTOR]
    ensures var more := now[start + n := data[from + n * SECTOR..from + (n + 1) * SECTOR]];
            && WholeSectors(more) && SameOutside(was, more, start, n + 1)
            && Joined(more, start, n + 1) == data[from..from + (n + 1) * SECTOR]
  {
    JoinedFrame(now, now[start + n := data[from + n * SECTOR..from + (n + 1) * SECTOR]], start, n);
  }

  lemma {:induction false} JoinedSplit(s: seq<seq<u8>>, start: nat, m: nat, n: nat)
    requires start + m + n <= |s|
    requires WholeSectors(s)
    ensures Joined(s, start, m + n) == Joined(s, start, m) + Joined(s, start + m, n)
  {
    if n == 0 {
    } else {
      JoinedSplit(s, start, m, n - 1);
    }
  }

  lemma JoinedPage(s: seq<seq<u8>>, start: nat, n: nat, p: nat)
    requires start + n <= |s| && 8 * p + 8 <= n
    requires WholeSectors(s)
    ensures Page(Joined(s, start, n), p) == Joined(s, start + 8 * p, 8)
  {
    hide Joined;
    var q := 8 * p;
    JoinedSplit(s, start, q, n - q);
    JoinedSplit(s, start + q, 8, n - q - 8);
    var before, page, after := Joined(s, start, q), Joined(s, start + q, 8), Joined(s, start + q + 8, n - q - 8);
    assert Joined(s, start, n) == before + (page + after);
    assert |before| == p * PAGE && |page| == PAGE;
  }

  // The backing store as the value layer sees it.
  datatype Store = Store(spi: seq<u8>, sectors: seq<seq<u8>>, base: nat) {
    ghost predicate Sized() {
      && |spi| == SPI_SIZE
      && base + PAGES * 8 <= |sectors|
      && WholeSectors(sectors)
    }

    ghost function Swap(p: nat): (r: seq<u8>)
      requires Sized() && p < PAGES
      ensures |r| == PAGE
    {
      Joined(sectors, base + 8 * p, 8)
    }

    ghost function Frame(f: nat): (r: seq<u8>)
      requires Sized() && f < FRAMES
      ensures |r| == PAGE
    {
      Page(spi, f)
    }
  }

  lemma StoreHolds(s: Store, p: nat, f: nat)
    requires s.Sized() && p < PAGES && f < FRAMES
    ensures s.Swap(p) == Joined(s.sectors, s.base + 8 * p, 8) && s.Frame(f) == Page(s.spi, f)
  {
  }

  // Guest memory: a resident page is its frame, any other page is its swap sectors.
  ghost predicate Backs(t: Tables, s: Store, contents: seq<u8>)
    requires t.Sized() && t.Bijective() && s.Sized()
  {
    && |contents| == RAM
    && forall p: nat | p < PAGES ::
         Page(contents, p) == if p in t.resident then s.Frame(t.table[p]) else s.Swap(p)
  }

  // Cleared tables describe a memory that lives wholly in swap.
  lemma ClearedTables(t: Tables, s: Store)
    requires t.Sized() && s.Sized() && t.resident == {} && t.used == {}
    requires forall k | 0 <= k < PAGES :: t.table[k] == 0
    ensures t.Bijective() && Backs(t, s, Joined(s.sectors, s.base, 8 * PAGES))
  {
    forall p: nat | p < PAGES
      ensures Page(Joined(s.sectors, s.base, 8 * PAGES), p) == s.Swap(p)
    {
      JoinedPage(s.sectors, s.base, 8 * PAGES, p);
    }
  }

  // `now` is `was` with `bytes` put at offset `from`.
  ghost predicate Spliced(was: seq<u8>, now: seq<u8>, from: nat, bytes: seq<u8>) {
    && |now| == |was| && from + |bytes| <= |was|
    && now[from..from + |bytes|] == bytes
    && forall k | 0 <= k < |was| && !(from <= k < from + |bytes|) :: now[k] == was[k]
  }

  lemma SpliceMore(was: seq<u8>, mid: seq<u8>, now: seq<u8>, from: nat, done: seq<u8>, more: seq<u8>)
    requires Spliced(was, mid, from, done) && Spliced(mid, now, from + |done|, more)
    ensures Spliced(was, now, from, done + more)
  {
    assert now[from..from + |done|] == mid[from..from + |done|];
    assert now[from..from + |done| + |more|] == now[from..from + |done|] + now[from + |done|..from + |done| + |more|];
  }

  lemma SpliceNothing(s: seq<u8>, from: nat)
    requires from <= |s|
    ensures Spliced(s, s, from, [])
  {
  }

  lemma FrameReplaced(was: seq<u8>, now: seq<u8>, f: nat, bytes: seq<u8>)
    requires |was| == SPI_SIZE && f < FRAMES && |bytes| == PAGE
    requires Spliced(was, now, f * PAGE, bytes)
    ensures Page(now, f) == bytes
    ensures forall g: nat | g < FRAMES && g != f :: Page(now, g) == Page(was, g)
  {
    forall g: nat | g < FRAMES && g != f ensures Page(now, g) == Page(was, g) {
      assert (g + 1) * PAGE <= f * PAGE || (f + 1) * PAGE <= g * PAGE;
    }
  }

  predicate IsLowestFree(used: set<nat>, f: nat) {
    f < FRAMES && f !in used && forall g: nat | g < f :: g in used
  }

  function EvictedFrames(n: nat): (r: set<nat>)
    ensures forall f: nat :: f in r <==> EVICT <= f < EVICT + n
  {
    if n == 0 then {} else EvictedFrames(n - 1) + {EVICT + n - 1}
  }

  // The tables after the frames of `gone` were given up.
  ghost predicate Evicted(was: Tables, now: Tables, gone: set<nat>)
    requires was.Sized() && now.Sized()
  {
    && now.used == was.used - gone
    && now.resident == (set p | p in was.resident && p < PAGES && was.table[p] !in gone)
    && forall p | p in now.resident :: p < PAGES && now.table[p] == was.table[p]
  }

  // The tables after page p was put into frame f.
  ghost predicate Loaded(was: Tables, now: Tables, p: nat, f: nat)
    requires was.Sized() && now.Sized() && p < PAGES
  {
    && now.used == was.used + {f}
    && now.resident == was.resident + {p}
    && forall q: nat | q < PAGES :: now.table[q] == if q == p then f else was.table[q]
  }

  lemma FlushKeepsBijection(t: Tables, t': Tables, f: nat)
    requires t.Sized() && t.Bijective() && 0 < f < FRAMES && f in t.used
    requires var p := t.owner[f];
             t' == Tables(t.resident - {p}, t.used - {f}, t.table[p := 0], t.owner)
    ensures t'.Bijective() && Evicted(t, t', {f})
  {
  }

  lemma FlushKeepsContents(t: Tables, t': Tables, s: Store, s': Store, f: nat, contents: seq<u8>)
    requires t.Sized() && t.Bijective() && s.Sized() && Backs(t, s, contents)
    requires 0 < f < FRAMES && f in t.used
    requires var p := t.owner[f];
             t' == Tables(t.resident - {p}, t.used - {f}, t.table[p := 0], t.owner)
    requires s'.spi == s.spi && s'.base == s.base && s'.Sized()
    requires var p := t.owner[f];
             s'.Swap(p) == s.Frame(f) && SameOutside(s.sectors, s'.sectors, s.base + 8 * p, 8)
    ensures t'.Bijective() && Evicted(t, t', {f}) && Backs(t', s', contents)
  {
    hide Page, Joined;
    FlushKeepsBijection(t, t', f);
    forall q: nat | q < PAGES
      ensures Page(contents, q) == if q in t'.resident then s'.Frame(t'.table[q]) else s'.Swap(q)
    {
      if q != t.owner[f] && q !in t.resident {
        JoinedFrame(s.sectors, s'.sectors, s.base + 8 * q, 8);
      }
    }
  }

  lemma LoadKeepsBijection(t: Tables, t': Tables, p: nat, f: nat)
    requires t.Sized() && t.Bijective()
    requires p < PAGES && p !in t.resident && f < FRAMES && f !in t.used
    requires t' == Tables(t.resident + {p}, t.used + {f}, t.table[p := f], t.owner[f := p])
    ensures t'.Bijective() && Loaded(t, t', p, f)
  {
    forall q, r | q in t'.resident && r in t'.resident
      ensures q < PAGES && r < PAGES && (t'.table[q] == t'.table[r] ==> q == r)
    {
      assert q in t.resident ==> t.table[q] in t.used;
      assert r in t.resident ==> t.table[r] in t.used;
    }
    forall g | g in t'.used
      ensures g < FRAMES && t'.owner[g] in t'.resident && t'.owner[g] < PAGES && t'.table[t'.owner[g]] == g
    {
      if g != f {
        assert t.owner[g] in t.resident;
      }
    }
  }

  lemma LoadKeepsContents(t: Tables, t': Tables, s: Store, s': Store, p: nat, f: nat, contents: seq<u8>)
    requires t.Sized() && t.Bijective() && s.Sized() && Backs(t, s, contents)
    requires p < PAGES && p !in t.resident && f < FRAMES && f !in t.used
    requires t' == Tables(t.resident + {p}, t.used + {f}, t.table[p := f], t.owner[f := p])
    requires s'.Sized() && s'.sectors == s.sectors && s'.base == s.base && s'.Frame(f) == s.Swap(p)
    requires forall g: nat | g < FRAMES && g != f :: s'.Frame(g) == s.Frame(g)
    ensures t'.Bijective() && Loaded(t, t', p, f) && Backs(t', s', contents)
  {
    hide Page, Joined;
    LoadKeepsBijection(t, t', p, f);
    forall q: nat | q < PAGES
      ensures Page(contents, q) == if q in t'.resident then s'.Frame(t'.table[q]) else s'.Swap(q)
    {
      assert q in t.resident ==> t.table[q] != f;
    }
  }

  lemma EvictedOneMore(was: Tables, mid: Tables, now: Tables, j: nat)
    requires was.Sized() && mid.Sized() && now.Sized() && was.Bijective() && mid.Bijective()
    requires Evicted(was, mid, EvictedFrames(j)) && Evicted(mid, now, {EVICT + j})
    ensures Evicted(was, now, EvictedFrames(j + 1))
  {
    assert EvictedFrames(j + 1) == EvictedFrames(j) + {EVICT + j};
  }

  lemma SplitAddress(a: u32)
    ensures a / PAGE % PAGES < PAGES && a / PAGE % PAGES * PAGE + a % PAGE == a % RAM
    ensures a < RAM ==> a / PAGE < PAGES && a / PAGE * PAGE + a % PAGE == a
  {
    var p := a / PAGE;
    WholePages(p / PAGES, p % PAGES * PAGE + a % PAGE);
  }

  lemma WholePages(k: nat, r: nat)
    requires r < RAM
    ensures (RAM * k + r) % RAM == r
  {
  }

  lemma ResidentByte(t: Tables, s: Store, contents: seq<u8>, p: nat, offset: nat)
    requires t.Sized() && t.Bijective() && s.Sized() && Backs(t, s, contents)
    requires p in t.resident && offset < PAGE
    ensures p < PAGES && |contents| == RAM
    ensures contents[p * PAGE + offset] == s.spi[t.table[p] * PAGE + offset]
  {
    assert Page(contents, p)[offset] == s.Frame(t.table[p])[offset];
  }

  // A byte written to the frame of a resident page is the byte of guest memory.
  lemma WriteKeepsBacking(t: Tables, s: Store, p: nat, offset: nat, value: u8, contents: seq<u8>)
    requires t.Sized() && t.Bijective() && s.Sized() && Backs(t, s, contents)
    requires p in t.resident && offset < PAGE
    ensures p < PAGES && |contents| == RAM
    ensures var s' := s.(spi := s.spi[t.table[p] * PAGE + offset := value]);
            s'.Sized() && Backs(t, s', contents[p * PAGE + offset := value])
  {
    hide Page, Joined;
    var s' := s.(spi := s.spi[t.table[p] * PAGE + offset := value]);
    var after := contents[p * PAGE + offset := value];
    forall q: nat | q < PAGES
      ensures Page(after, q) == if q in t.resident then s'.Frame(t.table[q]) else s'.Swap(q)
    {
      PutInPage(contents, p, offset, value, q);
      if q in t.resident {
        assert t.table[q] == t.table[p] ==> q == p;
        PutInPage(s.spi, t.table[p], offset, value, t.table[q]);
      }
    }
  }

  lemma PutInPage(bytes: seq<u8>, p: nat, offset: nat, value: u8, q: nat)
    requires (p + 1) * PAGE <= |bytes| && (q + 1) * PAGE <= |bytes| && offset < PAGE
    ensures Page(bytes[p * PAGE + offset := value], q)
            == if q == p then Page(bytes, q)[offset := value] else Page(bytes, q)
  {
    assert q < p ==> (q + 1) * PAGE <= p * PAGE;
    assert p < q ==> (p + 1) * PAGE <= q * PAGE;
  }
}
