/** What ryfs_write leaves on the disk when a round does not find the end of the file: the boot sector
    is overwritten, or the chain is cut or lengthened by a sector that holds the bytes.  In no case does
    the disk hold what was to be written. */
module RyfsStray {
  import opened Bytes
  import opened Bitmaps
  import opened Devices
  import opened Sequences
  import opened RyfsDisk
  import opened RyfsTable
  import opened RyfsGrowth

  // ---------- a stray round ----------

  // Where bytes for offset p of a file of s bytes ended up that were put into a wrong sector: the boot
  // sector when the last sector of the file is partial, a formerly free one when it is full.
  ghost predicate Strayed(d: Disk, free: set<nat>, c: seq<nat>, s: nat, p: nat, bytes: seq<u8>, stray: nat)
    requires WholeSectors(d)
  {
    && p < s <= PAYLOAD * |c| && p / PAYLOAD < |c| && 0 < |bytes| && p % PAYLOAD + |bytes| <= PAYLOAD
    && (forall k | 0 <= k < |c| :: c[k] < |d|) && stray < |d| && stray !in c
    && (if s % PAYLOAD == 0 then stray in free else stray == 0)
    && d[stray][HEADER + p % PAYLOAD..HEADER + p % PAYLOAD + |bytes|] == bytes
  }

  // Which sector of a chain ryfs_add_size_to_file takes for the last one of a file with a full last
  // sector, for a write at offset p inside that sector.
  function Cut(length: nat, p: nat): nat
    requires length > 0
  {
    if p > 0 && p % PAYLOAD == 0 then length - 1 else if length == 1 then 0 else length - 2
  }

  // A free sector r is linked behind sector `was` of chain c, whatever was behind it before.  It holds
  // bytes at offset `at` among zeros, and the directory counts one sector more.
  ghost predicate Branched(d: Disk, d': Disk, nb: nat, e: nat, c: seq<nat>, was: nat, r: nat, rest: nat, at: nat,
                           bytes: seq<u8>)
    requires Shape(d, nb) && Shape(d', nb) && 1 <= e < ENTRIES
  {
    && was in c && 2 + nb <= was < |d| && 2 + nb <= r < |d| && r in FreeOf(d, nb) && r !in c
    && OnlyTouches(d, d', nb, {was, r}) && Used(d', nb) == Used(d, nb) + {r}
    && OnlyEntry(d[1], d'[1], e) && First(d'[1], e) == First(d[1], e) && NameAt(d'[1], e) == NameAt(d[1], e)
    && Count(d'[1], e) == |c| + 1
    && Link(d'[was]) == r && LastSize(d'[was]) == 0 && d'[was][HEADER..] == d[was][HEADER..]
    && d'[was][..2] == d[was][..2] && d'[r][..2] == [0xFF, 0]
    && Link(d'[r]) == 0 && LastSize(d'[r]) == rest && at + |bytes| <= PAYLOAD
    && d'[r][HEADER..] == Overwrite(Zeros(PAYLOAD), at, bytes)
  }

  // The boot sector taken for the last sector of a file: a size and bytes are put into it.
  ghost predicate BootHit(was: seq<u8>, now: seq<u8>, rest: nat, at: nat, bytes: seq<u8>)
    requires |was| == SECTOR && |now| == SECTOR
  {
    && now[..2] == was[..2] && Link(now) == Link(was) && LastSize(now) == rest && at + |bytes| <= PAYLOAD
    && now[HEADER..] == Overwrite(was[HEADER..], at, bytes)
  }

  // What extending file e by way of the wrong sector r does to the whole disk, for a write at offset p.
  ghost predicate Diverted(d: Disk, d': Disk, nb: nat, table: seq<Entry>, e: nat, p: nat, r: nat, rest: nat, at: nat,
                           bytes: seq<u8>)
    requires Shape(d, nb) && Shape(d', nb)
  {
    && 1 <= e < |table| == ENTRIES && table[e].File? && |table[e].chain| > 0
    && var c := table[e].chain;
       if table[e].size % PAYLOAD == 0 then Branched(d, d', nb, e, c, c[Cut(|c|, p)], r, rest, at, bytes)
       else r == 0 && d' == d[0 := d'[0]] && BootHit(d[0], d'[0], rest, at, bytes)
  }

  // What a round of ryfs_write for bytes at offset p of file e does when it strays.
  ghost predicate Misplaced(d: Disk, d': Disk, nb: nat, table: seq<Entry>, e: nat, p: nat, bytes: seq<u8>, stray: nat)
    requires Shape(d, nb) && Shape(d', nb)
  {
    && e < |table| && table[e].File? && Extends(p, |bytes|, table[e].size) && !AddsWell(p, table[e].size)
    && Diverted(d, d', nb, table, e, p, stray, (p + |bytes|) % PAYLOAD, p % PAYLOAD, bytes)
    && Strayed(d', FreeOf(d, nb), table[e].chain, table[e].size, p, bytes, stray)
    && KeepsPayloads(d, d', table[e].chain)
  }

  // The new sector as it is linked, before any byte is put into it.
  lemma BranchedOff(d: Disk, d': Disk, nb: nat, e: nat, c: seq<nat>, was: nat, r: nat, rest: nat)
    requires Shape(d, nb) && Shape(d', nb) && 1 <= e < ENTRIES
    requires was in c && 2 + nb <= was < |d| && 2 + nb <= r < |d| && r in FreeOf(d, nb) && r !in c
    requires OnlyTouches(d, d', nb, {was, r}) && Used(d', nb) == Used(d, nb) + {r}
    requires OnlyEntry(d[1], d'[1], e) && First(d'[1], e) == First(d[1], e) && NameAt(d'[1], e) == NameAt(d[1], e)
    requires Count(d'[1], e) == |c| + 1
    requires Link(d'[was]) == r && LastSize(d'[was]) == 0 && d'[was][HEADER..] == d[was][HEADER..]
    requires d'[was][..2] == d[was][..2] && d'[r][..2] == [0xFF, 0]
    requires Link(d'[r]) == 0 && LastSize(d'[r]) == rest && ZeroPayload(d'[r])
    ensures Branched(d, d', nb, e, c, was, r, rest, 0, [])
  {
    hide Used, OnlyEntry, First, Count, NameAt, FreeOf, Link, LastSize;
    OverwriteNothing(Zeros(PAYLOAD), 0);
    assert forall k | 0 <= k < PAYLOAD :: d'[r][HEADER..][k] == d'[r][HEADER + k];
  }

  lemma DivertedFull(d: Disk, d': Disk, nb: nat, table: seq<Entry>, e: nat, p: nat, was: nat, r: nat, rest: nat)
    requires Shape(d, nb) && Shape(d', nb) && 1 <= e < |table| == ENTRIES && table[e].File? && |table[e].chain| > 0
    requires table[e].size % PAYLOAD == 0 && was == table[e].chain[Cut(|table[e].chain|, p)]
    requires Branched(d, d', nb, e, table[e].chain, was, r, rest, 0, [])
    ensures Diverted(d, d', nb, table, e, p, r, rest, 0, [])
  {
    hide Branched, Cut;
  }

  lemma DivertedBoot(d: Disk, d': Disk, nb: nat, table: seq<Entry>, e: nat, p: nat, rest: nat)
    requires Shape(d, nb) && Shape(d', nb) && 1 <= e < |table| == ENTRIES && table[e].File? && |table[e].chain| > 0
    requires table[e].size % PAYLOAD != 0 && d' == d[0 := d'[0]] && BootHit(d[0], d'[0], rest, 0, [])
    ensures Diverted(d, d', nb, table, e, p, 0, rest, 0, [])
  {
    hide BootHit;
  }

  // A round that strays extends a file from inside it.
  lemma InsideFile(p: nat, n: nat, s: nat)
    requires Extends(p, n, s) && !AddsWell(p, s)
    ensures p < s && 0 < n && p % PAYLOAD + n <= PAYLOAD
  {
  }

  lemma MisplacedKeeps(d: Disk, d': Disk, nb: nat, table: seq<Entry>, e: nat, p: nat, bytes: seq<u8>, stray: nat)
    requires Shape(d, nb) && Shape(d', nb) && Misplaced(d, d', nb, table, e, p, bytes, stray)
    ensures e < |table| && table[e].File? && KeepsPayloads(d, d', table[e].chain)
  {
    hide Diverted, Strayed, KeepsPayloads, FreeOf;
  }

  // A size added by way of sector r, and then bytes put into that sector.
  lemma DivertedAndPatched(d: Disk, d1: Disk, d': Disk, nb: nat, table: seq<Entry>, e: nat, p: nat, r: nat, rest: nat,
                           at: nat, bytes: seq<u8>)
    requires Shape(d, nb) && Shape(d1, nb) && Diverted(d, d1, nb, table, e, p, r, rest, 0, [])
    requires at + |bytes| <= PAYLOAD && WholeSectors(d') && r < |d1| == |d'| && d' == d1[r := d'[r]]
    requires Patched(d1[r], d'[r], HEADER + at, bytes)
    ensures Shape(d', nb) && Diverted(d, d', nb, table, e, p, r, rest, at, bytes)
  {
    hide Branched, BootHit, Patched;
    if table[e].size % PAYLOAD == 0 {
      var c := table[e].chain;
      BranchedAndPatched(d, d1, d', nb, e, c, c[Cut(|c|, p)], r, rest, at, bytes);
    } else {
      BootHitAndPatched(d[0], d1[0], d'[0], rest, at, bytes);
    }
  }

  lemma BranchedAndPatched(d: Disk, d1: Disk, d': Disk, nb: nat, e: nat, c: seq<nat>, was: nat, r: nat, rest: nat,
                           at: nat, bytes: seq<u8>)
    requires Shape(d, nb) && Shape(d1, nb) && 1 <= e < ENTRIES && Branched(d, d1, nb, e, c, was, r, rest, 0, [])
    requires at + |bytes| <= PAYLOAD && WholeSectors(d') && r < |d1| == |d'| && d' == d1[r := d'[r]]
    requires Patched(d1[r], d'[r], HEADER + at, bytes)
    ensures Shape(d', nb) && Branched(d, d', nb, e, c, was, r, rest, at, bytes)
  {
    hide Used, OnlyEntry, First, Count, NameAt, FreeOf, Elems, Overwrite, Patched, Link, LastSize;
    WroteSector(d1, d1, nb, r, d'[r]);
    OverwriteNothing(Zeros(PAYLOAD), 0);
    PatchedPayload(d1[r], d'[r], Zeros(PAYLOAD), at, bytes);
    assert was != r;
  }

  lemma BootHitAndPatched(was: seq<u8>, mid: seq<u8>, now: seq<u8>, rest: nat, at: nat, bytes: seq<u8>)
    requires |was| == |mid| == |now| == SECTOR && BootHit(was, mid, rest, 0, []) && at + |bytes| <= PAYLOAD
    requires Patched(mid, now, HEADER + at, bytes)
    ensures BootHit(was, now, rest, at, bytes)
  {
    hide Overwrite, Patched, Link, LastSize;
    OverwriteNothing(was[HEADER..], 0);
    PatchedPayload(mid, now, was[HEADER..], at, bytes);
  }

  lemma PatchedPayload(was: seq<u8>, now: seq<u8>, payload: seq<u8>, at: nat, bytes: seq<u8>)
    requires |was| == SECTOR && |now| == SECTOR && at + |bytes| <= PAYLOAD && Patched(was, now, HEADER + at, bytes)
    requires was[HEADER..] == payload
    ensures now[HEADER..] == Overwrite(payload, at, bytes) && now[..2] == was[..2]
    ensures Link(now) == Link(was) && LastSize(now) == LastSize(was)
  {
    forall k | 0 <= k < PAYLOAD ensures now[HEADER..][k] == Overwrite(payload, at, bytes)[k] {
      assert was[HEADER..][k] == was[HEADER + k];
    }
  }

  // ---------- the boot sector ----------

  // Only the boot sector changed: the invariant holds as before, and no file changed.
  lemma BootOverwritten(d: Disk, d': Disk, nb: nat, table: seq<Entry>, owner: map<nat, (nat, nat)>)
    requires Inv(d, nb, table, owner) && |d| > 0 && |d'| == |d| && d' == d[0 := d'[0]] && |d'[0]| == SECTOR
    ensures Shape(d', nb) && Inv(d', nb, table, owner) && ChainsOk(d, table) && ChainsOk(d', table)
    ensures Slots(d', table) == Slots(d, table) && FreeOf(d', nb) == FreeOf(d, nb)
  {
    hide Indexed, Grounded, NamesDiffer, DirectoryOk, Chained, SlotOf;
    assert Used(d', nb) == Used(d, nb);
    hide Used;
    forall f: nat | f < |table| && table[f].File?
      ensures Chained(d', table[f].chain, table[f].size) && SlotOf(d', table[f]) == SlotOf(d, table[f])
    {
      UntouchedByBoot(d, d', nb, table, owner, f);
    }
    FreeSlot(d, d');
  }

  lemma UntouchedByBoot(d: Disk, d': Disk, nb: nat, table: seq<Entry>, owner: map<nat, (nat, nat)>, f: nat)
    requires Inv(d, nb, table, owner) && WholeSectors(d') && |d'| == |d| && d' == d[0 := d'[0]]
    requires f < |table| && table[f].File?
    ensures Chained(d, table[f].chain, table[f].size) && Chained(d', table[f].chain, table[f].size)
    ensures SlotOf(d', table[f]) == SlotOf(d, table[f])
  {
    hide Inv, Chained, Data;
    FileFacts(d, nb, table, owner, f);
    ChainedFrame(d, d', table[f].chain, table[f].size);
    DataFrame(d, d', table[f].chain, table[f].size);
  }

  // ---------- the branched chain ----------

  // The chain as its links now have it: cut behind sector i, and ended by r.
  lemma BranchedChain(d: Disk, d': Disk, nb: nat, c: seq<nat>, s: nat, i: nat, r: nat, at: nat, bytes: seq<u8>)
    requires WholeSectors(d) && WholeSectors(d') && Chained(d, c, s) && s == PAYLOAD * |c| && Distinct(c) && i < |c|
    requires |d'| == |d| && (forall k | 0 <= k < |c| :: 2 + nb <= c[k] < |d|) && 2 + nb <= r < |d| && r !in c
    requires OnlyTouches(d, d', nb, {c[i], r}) && Link(d'[c[i]]) == r && d'[c[i]][HEADER..] == d[c[i]][HEADER..]
    requires Link(d'[r]) == 0 && LastSize(d'[r]) == (at + |bytes|) % PAYLOAD && 0 < |bytes| && at + |bytes| <= PAYLOAD
    requires d'[r][HEADER..] == Overwrite(Zeros(PAYLOAD), at, bytes)
    ensures var now, size := c[..i + 1] + [r], PAYLOAD * (i + 1) + at + |bytes|;
            && Chained(d', now, size) && Distinct(now) && size <= PAYLOAD * |now| && PAYLOAD * (i + 1) <= s
            && Data(d', now, size) == Data(d, c, s)[..PAYLOAD * (i + 1)] + Zeros(at) + bytes
  {
    hide Link, LastSize, Overwrite, Data, OnlyTouches;
    var now := c[..i + 1] + [r];
    KeptBefore(d, d', nb, c, i, r);
    assert now[i] == c[i] && now[i + 1] == r;
    BranchedLinks(d, d', c, s, i, r);
    SectorsOfSize(i + 1, at + |bytes|);
    BranchedData(d, d', c, s, i, r, at, bytes);
  }

  lemma BranchedLinks(d: Disk, d': Disk, c: seq<nat>, s: nat, i: nat, r: nat)
    requires WholeSectors(d) && WholeSectors(d') && Chained(d, c, s) && i < |c| && r < |d| == |d'|
    requires Link(d'[c[i]]) == r && forall k | 0 <= k < i :: d'[c[k]] == d[c[k]]
    ensures var now := c[..i + 1] + [r];
            && (forall k | 0 <= k < |now| :: now[k] < |d'|)
            && forall k | 0 <= k < |now| - 1 :: Link(d'[now[k]]) == now[k + 1]
  {
    hide Link, LastSize;
    var now := c[..i + 1] + [r];
    forall k | 0 <= k < |now| - 1 ensures Link(d'[now[k]]) == now[k + 1] {
      assert now[k] == c[k];
      if k < i {
        assert now[k + 1] == c[k + 1] && Link(d[c[k]]) == c[k + 1];
      }
    }
  }

  lemma KeptBefore(d: Disk, d': Disk, nb: nat, c: seq<nat>, i: nat, r: nat)
    requires Distinct(c) && i < |c| && r !in c && forall k | 0 <= k < |c| :: 2 + nb <= c[k] < |d|
    requires OnlyTouches(d, d', nb, {c[i], r})
    ensures |d'| == |d| && forall k | 0 <= k < |c| && k != i :: d'[c[k]] == d[c[k]]
  {
    forall k | 0 <= k < |c| && k != i ensures c[k] != c[i] && c[k] != r {
      assert c[k] in c;
    }
  }

  lemma BranchedData(d: Disk, d': Disk, c: seq<nat>, s: nat, i: nat, r: nat, at: nat, bytes: seq<u8>)
    requires WholeSectors(d) && WholeSectors(d') && s == PAYLOAD * |c| && i < |c| && r < |d| == |d'|
    requires forall k | 0 <= k < |c| :: c[k] < |d|
    requires forall k | 0 <= k <= i :: d'[c[k]][HEADER..] == d[c[k]][HEADER..]
    requires at + |bytes| <= PAYLOAD && d'[r][HEADER..] == Overwrite(Zeros(PAYLOAD), at, bytes)
    ensures var now, size := c[..i + 1] + [r], PAYLOAD * (i + 1) + at + |bytes|;
            && size <= PAYLOAD * |now| && PAYLOAD * (i + 1) <= s
            && Data(d', now, size) == Data(d, c, s)[..PAYLOAD * (i + 1)] + Zeros(at) + bytes
  {
    hide Overwrite;
    var now, size, kept := c[..i + 1] + [r], PAYLOAD * (i + 1) + at + |bytes|, PAYLOAD * (i + 1);
    var data, was := Data(d', now, size), Data(d, c, s);
    forall q | 0 <= q < size ensures data[q] == (was[..kept] + Zeros(at) + bytes)[q] {
      SplitOffset(i + 1, at + |bytes|, q);
      if q < kept {
        var k, x := q / PAYLOAD, q % PAYLOAD;
        assert now[k] == c[k] && d'[c[k]][HEADER..][x] == d[c[k]][HEADER..][x];
      } else {
        assert data[q] == d'[r][HEADER..][q - kept];
      }
    }
  }

  lemma SectorsOfSize(n: nat, rest: nat)
    requires 0 < rest <= PAYLOAD
    ensures Sectors(PAYLOAD * n + rest) == n + 1 && (PAYLOAD * n + rest) % PAYLOAD == rest % PAYLOAD
  {
  }

  lemma SplitOffset(n: nat, rest: nat, q: nat)
    requires q < PAYLOAD * n + rest && rest <= PAYLOAD
    ensures if q < PAYLOAD * n then q / PAYLOAD < n else q / PAYLOAD == n && q % PAYLOAD == q - PAYLOAD * n
  {
  }

  // What file e is, as the links of the disk now have it: the sectors up to the i-th and the new one.
  ghost function BranchedEntry(entry: Entry, i: nat, r: nat, at: nat, n: nat): Entry
    requires entry.File? && i < |entry.chain|
  {
    File(entry.name, entry.chain[..i + 1] + [r], PAYLOAD * (i + 1) + at + n)
  }

  // Its data is the old data up to there, then zeros, then the bytes, and all other files are as they were.
  lemma BranchedFile(d: Disk, d': Disk, nb: nat, table: seq<Entry>, owner: map<nat, (nat, nat)>, e: nat, i: nat, r: nat,
                     at: nat, bytes: seq<u8>)
    requires Inv(d, nb, table, owner) && Shape(d', nb) && 1 <= e < |table| && table[e].File? && i < |table[e].chain|
    requires table[e].size % PAYLOAD == 0 && 0 < |bytes| && at + |bytes| <= PAYLOAD
    requires Branched(d, d', nb, e, table[e].chain, table[e].chain[i], r, (at + |bytes|) % PAYLOAD, at, bytes)
    ensures var entry := BranchedEntry(table[e], i, r, at, |bytes|);
            && ChainsOk(d, table) && ChainsOk(d', table[e := entry])
            && Slots(d, table)[e].Holds? && PAYLOAD * (i + 1) <= |Slots(d, table)[e].data|
            && Slots(d', table[e := entry]) == Slots(d, table)[e := Holds(table[e].name,
                 Slots(d, table)[e].data[..PAYLOAD * (i + 1)] + Zeros(at) + bytes)]
            && Chained(d', entry.chain, entry.size)
  {
    hide Inv, Used, Chained, ChainsOk, Data, Slots, FreeOf, OnlyEntry, First, Count, NameAt, Takes, Overwrite, Link, LastSize;
    var c, s, entry := table[e].chain, table[e].size, BranchedEntry(table[e], i, r, at, |bytes|);
    FileFacts(d, nb, table, owner, e);
    ChainEnds(d, c, s);
    WholeSize(|c|, s);
    BranchedChain(d, d', nb, c, s, i, r, at, bytes);
    BranchTakes(d, nb, table, owner, c, i, r);
    TouchesMore(d, d', nb, c, i, r);
    OthersUntouched(d, d', nb, table, owner, e, entry);
    SlotsOfFile(d, table, e);
    SlotsOfFile(d', table[e := entry], e);
  }

  lemma WholeSize(n: nat, s: nat)
    requires s % PAYLOAD == 0 && PAYLOAD * (n - 1) < s <= PAYLOAD * n
    ensures s == PAYLOAD * n
  {
  }

  lemma BranchTakes(d: Disk, nb: nat, table: seq<Entry>, owner: map<nat, (nat, nat)>, c: seq<nat>, i: nat, r: nat)
    requires Inv(d, nb, table, owner) && Distinct(c) && i < |c| && r !in c
    requires r in FreeOf(d, nb) && 2 + nb <= r < |d|
    ensures Takes(d, nb, owner, c, c[..i + 1] + [r])
  {
    hide ChainsOk, DirectoryOk, Indexed, Grounded, NamesDiffer;
    assert r !in Used(d, nb);
    hide Used;
    DistinctMore(c[..i + 1], r);
  }

  lemma TouchesMore(d: Disk, d': Disk, nb: nat, c: seq<nat>, i: nat, r: nat)
    requires i < |c| && OnlyTouches(d, d', nb, {c[i], r})
    ensures OnlyTouches(d, d', nb, Elems(c) + Elems(c[..i + 1] + [r]))
  {
    var now := c[..i + 1] + [r];
    assert now[i + 1] == r && c[i] in c && r in now;
  }

  // Linked behind the last sector, the new one makes a longer file, and the invariant holds of that.
  lemma LengthenedKeepsInvariant(d: Disk, d': Disk, nb: nat, table: seq<Entry>, owner: map<nat, (nat, nat)>, e: nat,
                                 r: nat, at: nat, bytes: seq<u8>)
    requires Inv(d, nb, table, owner) && Shape(d', nb) && 1 <= e < |table| && table[e].File? && |table[e].chain| > 0
    requires table[e].size % PAYLOAD == 0 && 0 < |bytes| && at + |bytes| <= PAYLOAD
    requires var i := |table[e].chain| - 1;
             Branched(d, d', nb, e, table[e].chain, table[e].chain[i], r, (at + |bytes|) % PAYLOAD, at, bytes)
    ensures var entry := BranchedEntry(table[e], |table[e].chain| - 1, r, at, |bytes|);
            Distinct(entry.chain) && Inv(d', nb, table[e := entry], Reown(owner, e, table[e].chain, entry.chain))
  {
    hide Inv, Used, Chained, ChainsOk, Data, FreeOf, OnlyEntry, First, Count, NameAt, Overwrite, Link, LastSize,
      Extended;
    var c, s := table[e].chain, table[e].size;
    FileFacts(d, nb, table, owner, e);
    ChainEnds(d, c, s);
    WholeSize(|c|, s);
    assert c[..|c|] == c;
    SectorsOfSize(|c|, at + |bytes|);
    GrownEntry(d, d', nb, table, owner, e, r, s + at + |bytes|);
  }

  // Two chains of one disk that begin alike are alike.
  lemma {:induction false} ChainsAgree(d: Disk, a: seq<nat>, b: seq<nat>, k: nat)
    requires WholeSectors(d) && |a| > 0 && |b| > 0 && a[0] == b[0] && k < |a| && k < |b|
    requires forall j | 0 <= j < |a| :: a[j] < |d|
    requires forall j | 0 <= j < |b| :: b[j] < |d|
    requires forall j | 0 <= j < |a| - 1 :: Link(d[a[j]]) == a[j + 1]
    requires forall j | 0 <= j < |b| - 1 :: Link(d[b[j]]) == b[j + 1]
    ensures a[k] == b[k]
  {
    hide Link;
    if k > 0 {
      ChainsAgree(d, a, b, k - 1);
    }
  }

  lemma ChainsEndAlike(d: Disk, a: seq<nat>, b: seq<nat>, sa: nat, sb: nat)
    requires WholeSectors(d) && Chained(d, a, sa) && Chained(d, b, sb) && |a| > 0 && |b| > 0 && a[0] == b[0]
    requires (forall k | 0 <= k < |a| :: a[k] != 0) && (forall k | 0 <= k < |b| :: b[k] != 0)
    ensures |a| == |b|
  {
    hide Chained, Link;
    ChainEnds(d, a, sa);
    ChainEnds(d, b, sb);
    var k := if |a| <= |b| then |a| - 1 else |b| - 1;
    ChainsAgree(d, a, b, k);
    EndsAt(d, a, sa, k);
    EndsAt(d, b, sb, k);
  }

  lemma EndsAt(d: Disk, c: seq<nat>, size: nat, k: nat)
    requires WholeSectors(d) && Chained(d, c, size) && k < |c| && forall j | 0 <= j < |c| :: c[j] != 0
    ensures c[k] < |d| && (Link(d[c[k]]) == 0 <==> k == |c| - 1)
  {
    hide Link;
    if k < |c| - 1 {
      assert Link(d[c[k]]) == c[k + 1];
    }
  }

  // Linked behind an earlier sector, it leaves a chain shorter than the directory says, and the
  // invariant holds of no table of files at all.
  lemma CutLosesInvariant(d: Disk, d': Disk, nb: nat, table: seq<Entry>, owner: map<nat, (nat, nat)>, e: nat, i: nat,
                          r: nat, at: nat, bytes: seq<u8>, table': seq<Entry>, owner': map<nat, (nat, nat)>)
    requires Inv(d, nb, table, owner) && Shape(d', nb) && 1 <= e < |table| && table[e].File? && i + 1 < |table[e].chain|
    requires table[e].size % PAYLOAD == 0 && 0 < |bytes| && at + |bytes| <= PAYLOAD
    requires Branched(d, d', nb, e, table[e].chain, table[e].chain[i], r, (at + |bytes|) % PAYLOAD, at, bytes)
    ensures !Inv(d', nb, table', owner')
  {
    hide Inv, Used, Chained, ChainsOk, Data, Slots, FreeOf, OnlyEntry, First, Count, NameAt, Overwrite, Link, LastSize,
      OnlyTouches, Reserved, Elems, Distinct;
    FileFacts(d, nb, table, owner, e);
    BranchedFile(d, d', nb, table, owner, e, i, r, at, bytes);
    var now := BranchedEntry(table[e], i, r, at, |bytes|);
    if Inv(d', nb, table', owner') {
      EntryFacts(d', nb, table', owner', e);
      FileFacts(d', nb, table', owner', e);
      ChainsEndAlike(d', now.chain, table'[e].chain, now.size, table'[e].size);
      assert false;
    }
  }

  // ---------- what a stray round leaves ----------

  // A disk that holds bytes at offset o of file e, as a write should leave it.
  ghost predicate HoldsWritten(d: Disk, d': Disk, nb: nat, table: seq<Entry>, e: nat, o: nat, bytes: seq<u8>)
    requires WholeSectors(d) && ChainsOk(d, table)
  {
    exists table', owner' :: Inv(d', nb, table', owner') && Written(d, d', table, table', e, o, bytes)
  }

  // A partial last sector: the round goes to the boot sector alone.  Every file is as it was, and the
  // last sector has the size it had.
  lemma PartialStays(d: Disk, d': Disk, nb: nat, table: seq<Entry>, owner: map<nat, (nat, nat)>, e: nat, p: nat,
                     bytes: seq<u8>, stray: nat)
    requires Inv(d, nb, table, owner) && Shape(d', nb) && Misplaced(d, d', nb, table, e, p, bytes, stray)
    requires table[e].size % PAYLOAD != 0
    ensures Inv(d', nb, table, owner) && ChainsOk(d, table) && ChainsOk(d', table)
    ensures Slots(d', table) == Slots(d, table) && FreeOf(d', nb) == FreeOf(d, nb)
  {
    hide Inv, ChainsOk, Slots, FreeOf, Strayed, KeepsPayloads, BootHit;
    InvIsShaped(d, nb, table, owner);
    BootOverwritten(d, d', nb, table, owner);
  }

  lemma InvIsShaped(d: Disk, nb: nat, table: seq<Entry>, owner: map<nat, (nat, nat)>)
    requires Inv(d, nb, table, owner)
    ensures Shape(d, nb)
  {
  }

  // A full last sector: the chain is cut or lengthened, and the invariant holds of some table of files if
  // and only if it is lengthened, for a write from the start of the last sector or a file of one sector.
  lemma FullBranches(d: Disk, d': Disk, nb: nat, table: seq<Entry>, owner: map<nat, (nat, nat)>, e: nat, p: nat,
                     bytes: seq<u8>, stray: nat)
    requires Inv(d, nb, table, owner) && Shape(d, nb) && Shape(d', nb) && Misplaced(d, d', nb, table, e, p, bytes, stray)
    requires table[e].size % PAYLOAD == 0
    ensures ChainsOk(d, table) && Slots(d, table)[e].Holds? && |table[e].chain| > 0
    ensures var i, at := Cut(|table[e].chain|, p), p % PAYLOAD;
            var entry := BranchedEntry(table[e], i, stray, at, |bytes|);
            && Chained(d', entry.chain, entry.size) && First(d'[1], e) == entry.chain[0]
            && Count(d'[1], e) == |table[e].chain| + 1
            && ChainsOk(d', table[e := entry]) && PAYLOAD * (i + 1) <= |Slots(d, table)[e].data|
            && Slots(d', table[e := entry]) == Slots(d, table)[e := Holds(table[e].name,
                 Slots(d, table)[e].data[..PAYLOAD * (i + 1)] + Zeros(at) + bytes)]
    ensures (exists table', owner' :: Inv(d', nb, table', owner')) <==> p % PAYLOAD == 0 || table[e].size == PAYLOAD
  {
    hide Inv, Used, Chained, ChainsOk, Data, Slots, FreeOf, OnlyEntry, NameAt, Overwrite, Link, LastSize, KeepsPayloads, First,
      Count, OnlyTouches;
    var c, s, at := table[e].chain, table[e].size, p % PAYLOAD;
    var i := Cut(|c|, p);
    FileFacts(d, nb, table, owner, e);
    ChainEnds(d, c, s);
    WholeSize(|c|, s);
    RestOfPiece(p, |bytes|);
    BranchedFile(d, d', nb, table, owner, e, i, stray, at, bytes);
    CutIs(|c|, s, p, |bytes|);
    if i + 1 == |c| {
      LengthenedKeepsInvariant(d, d', nb, table, owner, e, stray, at, bytes);
    } else {
      forall table', owner' ensures !Inv(d', nb, table', owner') {
        CutLosesInvariant(d, d', nb, table, owner, e, i, stray, at, bytes, table', owner');
      }
    }
  }

  lemma RestOfPiece(p: nat, n: nat)
    ensures (p + n) % PAYLOAD == (p % PAYLOAD + n) % PAYLOAD
  {
  }

  // A piece that extends the reported size of a file with a full last sector lies in that sector.
  lemma CutIs(length: nat, s: nat, p: nat, n: nat)
    requires length > 0 && s == PAYLOAD * length && Extends(p, n, s) && p < s
    ensures Cut(length, p) + 1 == length <==> p % PAYLOAD == 0 || s == PAYLOAD
    ensures Cut(length, p) + 1 <= length <= Cut(length, p) + 2 && p + n <= s
  {
    assert p / PAYLOAD == length - 1;
  }

  // How far a write of bytes at offset o of file e, in disk d0, has come when the round of n bytes at
  // `from` is the first to stray: in disk mid all before them is written, and disk d is left of it.
  ghost predicate WentAstray(d0: Disk, mid: Disk, d: Disk, nb: nat, table: seq<Entry>, owner: map<nat, (nat, nat)>,
                             free: set<nat>, e: nat, o: nat, bytes: seq<u8>, from: nat, n: nat, stray: nat)
    requires WholeSectors(d0) && |d0| > 0 && ChainsOk(d0, table)
  {
    && Inv(mid, nb, table, owner) && Shape(mid, nb) && Shape(d, nb) && mid[0] == d0[0] && FreeOf(mid, nb) == free
    && from < |bytes| && (from == 0 || (o + from) % PAYLOAD == 0)
    && (var left, room := |bytes| - from, PAYLOAD - (o + from) % PAYLOAD; n == if room >= left then left else room)
    && Written(d0, mid, table, table, e, o, bytes[..from])
    && Misplaced(mid, d, nb, table, e, o + from, bytes[from..from + n], stray)
    && Data(d, table[e].chain, table[e].size) == Overwrite(Slots(d0, table)[e].data, o, bytes[..from])
  }

  // In no case does the disk hold what the write up to and with this round should have put there.
  lemma NeverWritten(d0: Disk, d: Disk, d': Disk, nb: nat, table: seq<Entry>, owner: map<nat, (nat, nat)>, e: nat, o: nat,
                     bytes: seq<u8>, from: nat, stray: nat)
    requires WholeSectors(d0) && ChainsOk(d0, table) && from <= |bytes|
    requires Inv(d, nb, table, owner) && Shape(d, nb) && Shape(d', nb)
    requires Misplaced(d, d', nb, table, e, o + from, bytes[from..], stray)
    ensures !HoldsWritten(d0, d', nb, table, e, o, bytes)
  {
    hide Inv, ChainsOk, Written, Misplaced;
    forall table', owner' | Inv(d', nb, table', owner')
      ensures ChainsOk(d', table') && !Written(d0, d', table, table', e, o, bytes)
    {
      RoomFacts(d', nb, table', owner');
      if Written(d0, d', table, table', e, o, bytes) {
        WrittenFile(d0, d', table, table', e, o, bytes);
        NoSuchFile(d, d', nb, table, owner, e, o + from, bytes[from..], stray, table');
        assert false;
      }
    }
  }

  lemma AstrayIsNotWritten(d0: Disk, mid: Disk, d: Disk, nb: nat, table: seq<Entry>, owner: map<nat, (nat, nat)>,
                           free: set<nat>, e: nat, o: nat, bytes: seq<u8>, from: nat, n: nat, stray: nat)
    requires WholeSectors(d0) && |d0| > 0 && ChainsOk(d0, table)
    requires WentAstray(d0, mid, d, nb, table, owner, free, e, o, bytes, from, n, stray)
    ensures from + n <= |bytes| && !HoldsWritten(d0, d, nb, table, e, o, bytes[..from + n])
  {
    hide Inv, ChainsOk, Written, Misplaced, Data, Overwrite, Slots, FreeOf, HoldsWritten;
    var done := bytes[..from + n];
    assert done[from..] == bytes[from..from + n];
    NeverWritten(d0, mid, d, nb, table, owner, e, o, done, from, stray);
  }

  // Whether what is left is a disk of files at all: it is unless a full last sector was overwritten from
  // inside it, in a file of more than one sector.
  lemma AstrayInvariant(d0: Disk, mid: Disk, d: Disk, nb: nat, table: seq<Entry>, owner: map<nat, (nat, nat)>,
                        free: set<nat>, e: nat, o: nat, bytes: seq<u8>, from: nat, n: nat, stray: nat)
    requires WholeSectors(d0) && |d0| > 0 && ChainsOk(d0, table)
    requires WentAstray(d0, mid, d, nb, table, owner, free, e, o, bytes, from, n, stray)
    ensures e < |table| && table[e].File?
    ensures table[e].size % PAYLOAD != 0 ==> Inv(d, nb, table, owner) && Written(d0, d, table, table, e, o, bytes[..from])
    ensures (exists table', owner' :: Inv(d, nb, table', owner'))
            <==> table[e].size % PAYLOAD != 0 || (o + from) % PAYLOAD == 0 || table[e].size == PAYLOAD
  {
    hide Inv, ChainsOk, Misplaced, Data, Overwrite, Slots, FreeOf;
    RoomFacts(mid, nb, table, owner);
    WrittenFile(d0, mid, table, table, e, o, bytes[..from]);
    if table[e].size % PAYLOAD != 0 {
      PartialStays(mid, d, nb, table, owner, e, o + from, bytes[from..from + n], stray);
    } else {
      FullBranches(mid, d, nb, table, owner, e, o + from, bytes[from..from + n], stray);
    }
  }

  // After a stray round the chain of the file, or one that continues it, does not hold a file of the size
  // that was to be.
  lemma NoSuchFile(d: Disk, d': Disk, nb: nat, table: seq<Entry>, owner: map<nat, (nat, nat)>, e: nat, p: nat,
                   bytes: seq<u8>, stray: nat, table': seq<Entry>)
    requires Inv(d, nb, table, owner) && Shape(d, nb) && Shape(d', nb) && Misplaced(d, d', nb, table, e, p, bytes, stray)
    requires ChainsOk(d', table') && e < |table'|
    ensures var s, end := table[e].size, p + |bytes|;
            !(table'[e].File? && table[e].chain <= table'[e].chain && table'[e].size == if end <= s then s else end)
  {
    hide Inv, Used, Chained, ChainsOk, Data, Slots, FreeOf, OnlyEntry, NameAt, Overwrite, Link, LastSize, KeepsPayloads, First,
      Count, OnlyTouches, BootHit;
    var c, s, end := table[e].chain, table[e].size, p + |bytes|;
    FileFacts(d, nb, table, owner, e);
    ChainEnds(d, c, s);
    if table'[e].File? && c <= table'[e].chain && table'[e].size == if end <= s then s else end {
      SlotsOfFile(d', table', e);
      ChainEnds(d', table'[e].chain, table'[e].size);
      if s % PAYLOAD == 0 {
        WholeSize(|c|, s);
        CutIs(|c|, s, p, |bytes|);
        assert false;
      } else {
        PartialStays(d, d', nb, table, owner, e, p, bytes, stray);
        SlotsOfFile(d', table, e);
        ChainEnds(d', c, s);
        SizesDiffer(s, p, |bytes|);
        assert false;
      }
    }
  }

  lemma SizesDiffer(s: nat, p: nat, n: nat)
    requires Extends(p, n, s) && !AddsWell(p, s) && s % PAYLOAD != 0
    ensures s < p + n && Sectors(p + n) == Sectors(s) && (p + n) % PAYLOAD != s % PAYLOAD
  {
    assert p < s;
  }
}
