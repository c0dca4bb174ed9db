/** How a file of the table grows and is written: the arithmetic of ryfs_add_size_to_file and
    ryfs_write around the 506 bytes of a sector, and what a rewritten sector does to the data. */
module RyfsGrowth {
  import opened Bytes
  import opened Bitmaps
  import opened Devices
  import opened Sequences
  import opened RyfsDisk
  import opened RyfsTable

  // ---------- arithmetic ----------

  // The number of links ryfs_add_size_to_file follows.
  function AddSteps(stored: nat, seekOffset: nat): nat {
    Ceil(stored, 506) / 506 + if seekOffset > 0 && seekOffset % 506 == 0 then 1 else 0
  }

  // Whether adding size for a write at p, in a file of s bytes, finds the end of the file.
  predicate AddsWell(p: nat, s: nat) {
    if s % 506 == 0 then p == s else p == 0 || p % 506 != 0
  }

  // n bytes at p, inside one sector, that go past the size a file of s bytes reports.
  predicate Extends(p: nat, n: nat, s: nat) {
    s > 0 && p <= s && n > 0 && p % 506 + n <= 506 && StoredSize(s) < p + n
  }

  // A full last sector hides from the count of sectors before, and the step that a seek offset on a
  // sector boundary adds makes up for it exactly at the end of the file.
  lemma AddedSize(p: nat, n: nat, s: nat)
    requires Extends(p, n, s)
    ensures Ceil(p + n, 506) / 506 != Ceil(StoredSize(s), 506) / 506 <==> s % 506 == 0
    ensures AddsWell(p, s) ==> AddSteps(StoredSize(s), p) == Sectors(s)
    ensures AddsWell(p, s) ==> Sectors(p + n) == Sectors(s) + if s % 506 == 0 then 1 else 0
    ensures AddsWell(p, s) ==> p / 506 == Sectors(p + n) - 1
    ensures AddsWell(p, s) ==> if s % 506 == 0 then s < p + n <= s + 506 else s <= p + n
    ensures !AddsWell(p, s) ==> p / 506 < Sectors(s)
    ensures !AddsWell(p, s) && s % 506 != 0 ==> AddSteps(StoredSize(s), p) == Sectors(s) + 1
    ensures !AddsWell(p, s) && s % 506 == 0 ==>
              AddSteps(StoredSize(s), p) == (if p > 0 && p % 506 == 0 then Sectors(s) else Sectors(s) - 1) && p < s
  {
    var r := s % 506;
    var i := p / 506;
    assert p + n <= 506 * (i + 1);
    CeilCountsSectors(p + n);
    CeilCountsSectors(StoredSize(s));
  }

  // The writes that ryfs_write gets right: inside the reported size, at the end of the file, or from
  // inside its last sector and not from the start of it, unless that is the start of the file.
  predicate WritesWell(p: nat, k: nat, s: nat)
    requires s > 0
  {
    || k == 0 || p + k <= StoredSize(s) || p == s
    || (s % 506 != 0 && p < s && p / 506 == s / 506 && (p == 0 || p % 506 != 0))
  }

  // A round of a write either stays inside the reported size, and what remains is right exactly when the
  // whole is, or extends the file, and the whole is right exactly when this round finds the end.
  lemma WriteRound(p: nat, k: nat, s: nat, n: nat)
    requires s > 0 && k > 0 && p <= s && n == if 506 - p % 506 >= k then k else 506 - p % 506
    ensures 0 < n <= k && p % 506 + n <= 506
    ensures p + n <= StoredSize(s) ==>
              p / 506 < Sectors(s) && p + n <= s && (WritesWell(p + n, k - n, s) <==> WritesWell(p, k, s))
    ensures p + n > StoredSize(s) ==>
              Extends(p, n, s) && WritesWell(p + n, k - n, p + n) && (AddsWell(p, s) <==> WritesWell(p, k, s))
    ensures p + n > StoredSize(s) && AddsWell(p, s) ==> p + n > s
    ensures (p % 506 + k + 505) / 506 - 1 == (k - n + 505) / 506
    ensures n < k ==> (p + n) % 506 == 0 && (p + n) / 506 == p / 506 + 1
  {
    Round(p, k, n, p + k);
    StoredSizeIsSize(s);
  }

  lemma NothingLeft(p: nat, s: nat)
    requires s > 0
    ensures WritesWell(p, 0, s)
  {
  }

  // What a driver can tell from the reported size: whether n bytes at p go where they belong.
  predicate FindsItsSector(p: nat, n: nat, reported: nat) {
    p + n <= reported || if reported % 506 == 0 then p == reported + 506 else p == 0 || p % 506 != 0
  }

  lemma FindsItsSectorMeans(p: nat, n: nat, s: nat)
    requires s > 0
    ensures FindsItsSector(p, n, StoredSize(s)) <==> p + n <= StoredSize(s) || AddsWell(p, s)
  {
  }

  // ---------- data ----------

  // data with bytes written over it from offset o on, going past its end if need be.
  function Overwrite(data: seq<u8>, o: nat, bytes: seq<u8>): (r: seq<u8>)
    requires o <= |data|
    ensures |r| == if o + |bytes| <= |data| then |data| else o + |bytes|
    ensures forall k | 0 <= k < |r| :: r[k] == if o <= k < o + |bytes| then bytes[k - o] else data[k]
  {
    data[..o] + bytes + if o + |bytes| <= |data| then data[o + |bytes|..] else []
  }

  lemma OverwriteNothing(data: seq<u8>, o: nat)
    requires o <= |data|
    ensures Overwrite(data, o, []) == data
  {
  }

  lemma OverwriteMore(data: seq<u8>, o: nat, x: seq<u8>, y: seq<u8>)
    requires o <= |data|
    ensures Overwrite(Overwrite(data, o, x), o + |x|, y) == Overwrite(data, o, x + y)
  {
  }

  // A payload patch of one sector is an overwrite of the data.
  lemma PatchedData(d: Disk, d': Disk, c: seq<nat>, s: nat, p: nat, bytes: seq<u8>)
    requires WholeSectors(d) && WholeSectors(d') && |d| == |d'| && Distinct(c) && s <= PAYLOAD * |c|
    requires forall k | 0 <= k < |c| :: c[k] < |d|
    requires p + |bytes| <= s && p % PAYLOAD + |bytes| <= PAYLOAD && p / PAYLOAD < |c|
    requires forall k | 0 <= k < |c| && k != p / PAYLOAD :: d'[c[k]] == d[c[k]]
    requires forall k | 0 <= k < SECTOR :: d'[c[p / PAYLOAD]][k] ==
               var at := HEADER + p % PAYLOAD;
               if at <= k < at + |bytes| then bytes[k - at] else d[c[p / PAYLOAD]][k]
    ensures Data(d', c, s) == Overwrite(Data(d, c, s), p, bytes)
  {
    forall q | 0 <= q < s
      ensures ByteAt(d', c, q) == if p <= q < p + |bytes| then bytes[q - p] else ByteAt(d, c, q)
    {
      if p <= q < p + |bytes| {
        WithinSector(p, q - p);
      } else if q / PAYLOAD == p / PAYLOAD {
        assert q - p == q % PAYLOAD - p % PAYLOAD;
      }
    }
  }

  // Same payloads, same data; a longer chain only adds to it.
  lemma SamePayloads(d: Disk, d': Disk, c: seq<nat>, c': seq<nat>, s: nat, s': nat)
    requires WholeSectors(d) && WholeSectors(d') && |d| == |d'| && c <= c'
    requires s <= s' && s <= PAYLOAD * |c| && s' <= PAYLOAD * |c'| && forall k | 0 <= k < |c'| :: c'[k] < |d|
    requires forall k | 0 <= k < |c| :: d'[c[k]][HEADER..] == d[c[k]][HEADER..]
    ensures Data(d', c', s')[..s] == Data(d, c, s)
  {
    forall q | 0 <= q < s ensures ByteAt(d', c', q) == ByteAt(d, c, q) {
      var i, x := q / PAYLOAD, q % PAYLOAD;
      assert d'[c[i]][HEADER..][x] == d[c[i]][HEADER..][x];
    }
  }

  // ---------- one file rewritten ----------

  lemma EntryResized(d: Disk, d': Disk, nb: nat, table: seq<Entry>, owner: map<nat, (nat, nat)>, e: nat, entry: Entry)
    requires Inv(d, nb, table, owner) && Shape(d', nb) && 1 <= e < ENTRIES && table[e].File?
    requires entry.File? && entry.name == table[e].name && |entry.chain| > 0 && table[e].chain <= entry.chain
    requires First(d'[1], e) == First(d[1], e) && Count(d'[1], e) == |entry.chain| && NameAt(d'[1], e) == NameAt(d[1], e)
    ensures EntryMatches(d'[1], e, entry) && NewName(table, e, entry)
  {
    hide Used, Chained, ChainsOk, Indexed, Grounded, First, Count, NameAt;
    assert EntryMatches(d[1], e, table[e]);
  }

  // The entries of a file whose sectors are rewritten, and perhaps joined by a free one.
  lemma RewrittenEntry(d: Disk, d': Disk, nb: nat, table: seq<Entry>, owner: map<nat, (nat, nat)>, e: nat,
                       c': seq<nat>, size: nat)
    requires Inv(d, nb, table, owner) && Shape(d', nb) && e < |table| && table[e].File?
    requires var c := table[e].chain;
             && c <= c' && Takes(d, nb, owner, c, c') && OnlyTouches(d, d', nb, Elems(c'))
             && Used(d', nb) == Used(d, nb) + Elems(c')
    requires e < ENTRIES ==> OnlyEntry(d[1], d'[1], e) && First(d'[1], e) == First(d[1], e)
                             && Count(d'[1], e) == |c'| && NameAt(d'[1], e) == NameAt(d[1], e)
    requires Chained(d', c', size)
    ensures var entry := File(table[e].name, c', size);
            && Inv(d', nb, table[e := entry], Reown(owner, e, table[e].chain, c'))
            && ChainsOk(d, table) && ChainsOk(d', table[e := entry])
            && Slots(d', table[e := entry]) == Slots(d, table)[e := SlotOf(d', entry)]
  {
    hide Inv, Used, Chained, ChainsOk, Slots, Takes, OnlyEntry, EntryMatches, NewName, First, Count, NameAt, Reown;
    FileFacts(d, nb, table, owner, e);
    var c, entry := table[e].chain, File(table[e].name, c', size);
    EntryResized(d, d', nb, table, owner, e, entry);
    assert Elems(c) <= Elems(c');
    assert Used(d', nb) == Used(d, nb) - Elems(c) + Elems(c') && Elems(c) + Elems(c') == Elems(c');
    ReplaceEntry(d, d', nb, table, owner, e, entry);
  }

  lemma BootKept(d: Disk, d': Disk, nb: nat, touched: set<nat>)
    requires |d| > 0 && OnlyTouches(d, d', nb, touched) && 0 !in touched
    ensures |d'| > 0 && d'[0] == d[0]
  {
  }

  // What growing and patching keep: the other entries, and the name and a prefix of the data of e.
  ghost predicate Rewritten(d: Disk, d': Disk, table: seq<Entry>, table': seq<Entry>, e: nat, keep: nat, size: nat)
    requires WholeSectors(d) && WholeSectors(d') && ChainsOk(d, table) && ChainsOk(d', table')
  {
    && e < |table| && |table'| == |table| && table[e].File? && table'[e].File?
    && table' == table[e := table'[e]] && table'[e].name == table[e].name && table'[e].size == size
    && table[e].chain <= table'[e].chain
    && Slots(d', table') == Slots(d, table)[e := Slots(d', table')[e]]
    && Slots(d, table)[e].Holds? && Slots(d', table')[e].Holds?
    && Slots(d', table')[e].name == table[e].name && |Slots(d', table')[e].data| == size
    && keep <= |Slots(d, table)[e].data| && keep <= size
    && Slots(d', table')[e].data[..keep] == Slots(d, table)[e].data[..keep]
  }

  // The same of the whole disk when file e comes to have `size` bytes, in its sectors and those that
  // were free.
  ghost predicate Extended(d: Disk, d': Disk, nb: nat, table: seq<Entry>, table': seq<Entry>, e: nat, size: nat)
    requires WholeSectors(d) && WholeSectors(d') && ChainsOk(d, table) && ChainsOk(d', table')
    requires Covers(d, nb) && Covers(d', nb)
  {
    && e < |table| && table[e].File? && Rewritten(d, d', table, table', e, table[e].size, size) && d'[0] == d[0]
    && FreeOf(d', nb) == FreeOf(d, nb) - Elems(table'[e].chain)
    && |FreeOf(d', nb)| + |table'[e].chain| == |FreeOf(d, nb)| + |table[e].chain|
  }

  lemma ExtendedFile(d: Disk, d': Disk, nb: nat, table: seq<Entry>, table': seq<Entry>, e: nat, size: nat)
    requires WholeSectors(d) && WholeSectors(d') && ChainsOk(d, table) && ChainsOk(d', table')
    requires Covers(d, nb) && Covers(d', nb) && Extended(d, d', nb, table, table', e, size)
    ensures |table'| == |table| && e < |table| && table[e].File? && table'[e].File?
    ensures table'[e].size == size && table[e].chain <= table'[e].chain
  {
    hide ChainsOk, Slots, Covers;
  }

  lemma SlotsOfFile(d: Disk, table: seq<Entry>, e: nat)
    requires WholeSectors(d) && ChainsOk(d, table) && e < |table| && table[e].File?
    ensures Chained(d, table[e].chain, table[e].size)
    ensures var c, s := table[e].chain, table[e].size;
            && s <= PAYLOAD * |c| && (forall k | 0 <= k < |c| :: c[k] < |d|)
            && Slots(d, table)[e] == Holds(table[e].name, Data(d, c, s))
  {
    hide Data;
  }

  lemma GrownChain(d: Disk, d': Disk, nb: nat, c: seq<nat>, s: nat, t: nat, size: nat)
    requires WholeSectors(d) && WholeSectors(d') && Chained(d, c, s) && Distinct(c) && 0 < |c| && t < |d| == |d'|
    requires (forall k | 0 <= k < |c| :: 2 + nb <= c[k] < |d|) && t !in c
    requires s % PAYLOAD == 0 && s < size <= s + PAYLOAD
    requires OnlyTouches(d, d', nb, {c[|c| - 1], t})
    requires Link(d'[c[|c| - 1]]) == t && d'[c[|c| - 1]][HEADER..] == d[c[|c| - 1]][HEADER..]
    requires Link(d'[t]) == 0 && LastSize(d'[t]) == size % PAYLOAD
    ensures var c' := c + [t];
            && Chained(d', c', size) && Distinct(c') && OnlyTouches(d, d', nb, Elems(c'))
            && size <= PAYLOAD * |c'| && |c'| == |c| + 1 && s <= PAYLOAD * |c|
            && forall k | 0 <= k < |c| :: d'[c[k]][HEADER..] == d[c[k]][HEADER..]
  {
    hide Link, LastSize;
    SectorsHold(s);
    var c' := c + [t];
    assert c[|c| - 1] in Elems(c') && c'[|c|] in Elems(c');
    assert forall k | 0 <= k < |c| - 1 :: c[k] != c[|c| - 1] && c[k] != t && d'[c[k]] == d[c[k]];
    assert forall k | 0 <= k < |c'| - 1 :: c'[k] == c[k];
    assert c'[|c| - 1] == c[|c| - 1];
  }

  lemma NewSectorIsTaken(d: Disk, nb: nat, table: seq<Entry>, owner: map<nat, (nat, nat)>, c: seq<nat>, t: nat)
    requires Inv(d, nb, table, owner) && Elems(c) <= owner.Keys && Distinct(c)
    requires t in FreeOf(d, nb) && 2 + nb <= t < |d|
    ensures t !in c && Takes(d, nb, owner, c, c + [t])
    ensures Used(d, nb) + {t} == Used(d, nb) + Elems(c + [t]) && FreeOf(d, nb) - {t} == FreeOf(d, nb) - Elems(c + [t])
  {
    hide ChainsOk, DirectoryOk, Indexed, Grounded, NamesDiffer;
    assert Elems(c + [t]) == Elems(c) + {t};
    assert t !in Used(d, nb) && Elems(c) <= Used(d, nb);
    assert forall n | n in c :: n in Elems(c);
  }

  // A free sector t is linked behind the full last sector of a file.
  lemma GrownEntry(d: Disk, d': Disk, nb: nat, table: seq<Entry>, owner: map<nat, (nat, nat)>, e: nat, t: nat, size: nat)
    requires Inv(d, nb, table, owner) && Shape(d', nb) && e < |table| && table[e].File?
    requires var c, s := table[e].chain, table[e].size;
             && s % PAYLOAD == 0 && s < size <= s + PAYLOAD && 0 < |c| && c[|c| - 1] < |d| == |d'|
             && OnlyTouches(d, d', nb, {c[|c| - 1], t}) && Link(d'[c[|c| - 1]]) == t
             && d'[c[|c| - 1]][HEADER..] == d[c[|c| - 1]][HEADER..]
    requires t in FreeOf(d, nb) && 2 + nb <= t < |d| && Used(d', nb) == Used(d, nb) + {t}
    requires Link(d'[t]) == 0 && LastSize(d'[t]) == size % PAYLOAD
    requires e < ENTRIES ==> OnlyEntry(d[1], d'[1], e) && First(d'[1], e) == First(d[1], e)
                             && Count(d'[1], e) == |table[e].chain| + 1 && NameAt(d'[1], e) == NameAt(d[1], e)
    ensures var c' := table[e].chain + [t];
            var table' := table[e := File(table[e].name, c', size)];
            && Distinct(c') && Inv(d', nb, table', Reown(owner, e, table[e].chain, c'))
            && ChainsOk(d, table) && Extended(d, d', nb, table, table', e, size)
  {
    hide Inv, Used, Chained, Slots, OnlyEntry, First, Count, NameAt, Data, Link, LastSize, FreeOf, Takes, Reown,
      Elems, Rewritten, ChainsOk, OnlyTouches;
    var c, s := table[e].chain, table[e].size;
    var c' := c + [t];
    FileFacts(d, nb, table, owner, e);
    NewSectorIsTaken(d, nb, table, owner, c, t);
    GrownChain(d, d', nb, c, s, t, size);
    SamePayloads(d, d', c, c', s, size);
    RewrittenEntry(d, d', nb, table, owner, e, c', size);
    KeptData(d, d', table, table[e := File(table[e].name, c', size)], e, s);
    TakenIsLess(d, d', nb, t);
    BootKept(d, d', nb, {c[|c| - 1], t});
  }

  lemma KeptData(d: Disk, d': Disk, table: seq<Entry>, table': seq<Entry>, e: nat, keep: nat)
    requires WholeSectors(d) && WholeSectors(d') && ChainsOk(d, table) && ChainsOk(d', table')
    requires e < |table| && |table'| == |table| && table[e].File? && table'[e].File? && table' == table[e := table'[e]]
    requires table'[e].name == table[e].name && table[e].chain <= table'[e].chain
    requires Slots(d', table') == Slots(d, table)[e := SlotOf(d', table'[e])]
    requires keep <= table[e].size <= PAYLOAD * |table[e].chain| && keep <= table'[e].size <= PAYLOAD * |table'[e].chain|
    requires (forall k | 0 <= k < |table[e].chain| :: table[e].chain[k] < |d|)
    requires (forall k | 0 <= k < |table'[e].chain| :: table'[e].chain[k] < |d'|)
    requires Data(d', table'[e].chain, table'[e].size)[..keep] == Data(d, table[e].chain, table[e].size)[..keep]
    ensures Rewritten(d, d', table, table', e, keep, table'[e].size)
  {
    hide Data, Chained, ChainsOk;
    SlotsOfFile(d, table, e);
    SlotsOfFile(d', table', e);
  }

  lemma DirectoryFirst(d: Disk, d1: Disk, d': Disk, nb: nat, touched: set<nat>)
    requires 1 < |d| && |d1| > 1 && d1 == d[1 := d1[1]] && 1 <= nb && OnlyTouches(d1, d', nb, touched)
    ensures OnlyTouches(d, d', nb, touched)
  {
  }

  // One sector of a file is rewritten in place.
  lemma SameSectors(d: Disk, d': Disk, nb: nat, table: seq<Entry>, owner: map<nat, (nat, nat)>, e: nat, i: nat, size: nat)
    requires Inv(d, nb, table, owner) && Shape(d', nb) && e < |table| && table[e].File?
    requires i < |table[e].chain| && OnlyTouches(d, d', nb, {table[e].chain[i]})
    requires d'[1] == d[1] && Used(d', nb) == Used(d, nb) && Chained(d', table[e].chain, size)
    ensures var c := table[e].chain;
            var table' := table[e := File(table[e].name, c, size)];
            && Distinct(c) && Inv(d', nb, table', Reown(owner, e, c, c)) && ChainsOk(d, table) && ChainsOk(d', table')
            && Slots(d', table') == Slots(d, table)[e := SlotOf(d', table'[e])]
            && FreeOf(d', nb) == FreeOf(d, nb)
  {
    hide Inv, Used, Chained, Slots, First, Count, NameAt, Reown, ChainsOk, Takes, FreeOf;
    FileFacts(d, nb, table, owner, e);
    var c := table[e].chain;
    OwnedAlready(d, nb, table, owner, c);
    assert c[i] in Elems(c) && Used(d, nb) == Used(d, nb) + Elems(c);
    RewrittenEntry(d, d', nb, table, owner, e, c, size);
    SameFree(d, d', nb);
  }

  lemma OwnedAlready(d: Disk, nb: nat, table: seq<Entry>, owner: map<nat, (nat, nat)>, c: seq<nat>)
    requires Inv(d, nb, table, owner) && Elems(c) <= owner.Keys && Distinct(c)
    ensures Takes(d, nb, owner, c, c) && Elems(c) <= Used(d, nb) && forall n | n in c :: n in Used(d, nb)
  {
    hide ChainsOk, DirectoryOk, Indexed, Grounded, NamesDiffer;
  }

  // The last sector of a file gets a new size.
  lemma ResizedEntry(d: Disk, d': Disk, nb: nat, table: seq<Entry>, owner: map<nat, (nat, nat)>, e: nat, size: nat)
    requires Inv(d, nb, table, owner) && Shape(d', nb) && e < |table| && table[e].File?
    requires var c := table[e].chain;
             && 0 < |c| == Sectors(size) && table[e].size <= size && c[|c| - 1] < |d| == |d'|
             && OnlyTouches(d, d', nb, {c[|c| - 1]})
             && Link(d'[c[|c| - 1]]) == 0 && LastSize(d'[c[|c| - 1]]) == size % PAYLOAD
             && d'[c[|c| - 1]][HEADER..] == d[c[|c| - 1]][HEADER..]
    requires d'[1] == d[1] && Used(d', nb) == Used(d, nb)
    ensures var c := table[e].chain;
            var table' := table[e := File(table[e].name, c, size)];
            && Distinct(c) && Inv(d', nb, table', Reown(owner, e, c, c))
            && ChainsOk(d, table) && Extended(d, d', nb, table, table', e, size)
  {
    hide Inv, Used, Chained, Slots, Data, Link, LastSize, FreeOf, Reown, Elems, Rewritten, ChainsOk, OnlyTouches;
    FileFacts(d, nb, table, owner, e);
    var c, s := table[e].chain, table[e].size;
    OwnedIsUsed(d, nb, table, owner, c);
    ResizedChain(d, d', nb, c, s, size);
    SameSectors(d, d', nb, table, owner, e, |c| - 1, size);
    SamePayloads(d, d', c, c, s, size);
    KeptData(d, d', table, table[e := File(table[e].name, c, size)], e, s);
    BootKept(d, d', nb, {c[|c| - 1]});
    SameFree(d, d', nb);
    DisjointMinus(FreeOf(d, nb), Elems(c));
  }

  lemma ResizedChain(d: Disk, d': Disk, nb: nat, c: seq<nat>, s: nat, size: nat)
    requires WholeSectors(d) && WholeSectors(d') && Chained(d, c, s) && Distinct(c) && |d| == |d'|
    requires forall k | 0 <= k < |c| :: 2 + nb <= c[k] < |d|
    requires 0 < |c| == Sectors(size) && s <= size && OnlyTouches(d, d', nb, {c[|c| - 1]})
    requires Link(d'[c[|c| - 1]]) == 0 && LastSize(d'[c[|c| - 1]]) == size % PAYLOAD
    requires d'[c[|c| - 1]][HEADER..] == d[c[|c| - 1]][HEADER..]
    ensures Chained(d', c, size) && s <= PAYLOAD * |c| && size <= PAYLOAD * |c|
    ensures forall k | 0 <= k < |c| :: d'[c[k]][HEADER..] == d[c[k]][HEADER..]
  {
    hide Link, LastSize;
    SectorsHold(s);
    SectorsHold(size);
    assert forall k | 0 <= k < |c| - 1 :: c[k] != c[|c| - 1] && d'[c[k]] == d[c[k]];
  }

  // Part of the payload of one sector is replaced.
  ghost predicate Patched(was: seq<u8>, now: seq<u8>, at: nat, bytes: seq<u8>)
    requires |was| == SECTOR && |now| == SECTOR
  {
    forall k | 0 <= k < SECTOR :: now[k] == if at <= k < at + |bytes| then bytes[k - at] else was[k]
  }

  lemma PatchedEntry(d: Disk, d': Disk, nb: nat, table: seq<Entry>, owner: map<nat, (nat, nat)>, e: nat, p: nat,
                     bytes: seq<u8>)
    requires Inv(d, nb, table, owner) && Shape(d', nb) && e < |table| && table[e].File?
    requires p % PAYLOAD + |bytes| <= PAYLOAD && p + |bytes| <= table[e].size
    requires p / PAYLOAD < |table[e].chain| && d'[1] == d[1] && Used(d', nb) == Used(d, nb)
    requires var n := table[e].chain[p / PAYLOAD];
             && n < |d| && |d'| == |d| && OnlyTouches(d, d', nb, {n}) && Patched(d[n], d'[n], HEADER + p % PAYLOAD, bytes)
    ensures var c := table[e].chain;
            && Distinct(c) && Inv(d', nb, table, Reown(owner, e, c, c)) && ChainsOk(d, table) && ChainsOk(d', table)
            && Slots(d, table)[e].Holds? && p <= |Slots(d, table)[e].data|
            && Slots(d', table) == Slots(d, table)[e := Holds(table[e].name, Overwrite(Slots(d, table)[e].data, p, bytes))]
            && FreeOf(d', nb) == FreeOf(d, nb)
  {
    hide Inv, Used, Chained, Slots, Data, FreeOf, Reown, Elems, ChainsOk, OnlyTouches, Overwrite, SlotOf;
    FileFacts(d, nb, table, owner, e);
    var c, s := table[e].chain, table[e].size;
    PatchedChain(d, d', nb, c, s, p, bytes);
    SameSectors(d, d', nb, table, owner, e, p / PAYLOAD, s);
    assert table[e := File(table[e].name, c, s)] == table;
    SlotsOfFile(d, table, e);
    SlotsOfFile(d', table, e);
  }

  lemma PatchedChain(d: Disk, d': Disk, nb: nat, c: seq<nat>, s: nat, p: nat, bytes: seq<u8>)
    requires WholeSectors(d) && WholeSectors(d') && Chained(d, c, s) && Distinct(c) && |d| == |d'|
    requires forall k | 0 <= k < |c| :: 2 + nb <= c[k] < |d|
    requires p % PAYLOAD + |bytes| <= PAYLOAD && p + |bytes| <= s && p / PAYLOAD < |c|
    requires OnlyTouches(d, d', nb, {c[p / PAYLOAD]})
    requires Patched(d[c[p / PAYLOAD]], d'[c[p / PAYLOAD]], HEADER + p % PAYLOAD, bytes)
    ensures Chained(d', c, s) && s <= PAYLOAD * |c| && p <= s
    ensures Data(d', c, s) == Overwrite(Data(d, c, s), p, bytes)
  {
    hide Data, Overwrite;
    SectorsHold(s);
    var i := p / PAYLOAD;
    assert forall k | 0 <= k < |c| && k != i :: c[k] != c[i] && d'[c[k]] == d[c[k]];
    assert Link(d'[c[i]]) == Link(d[c[i]]) && LastSize(d'[c[i]]) == LastSize(d[c[i]]);
    hide Link, LastSize;
    PatchedData(d, d', c, s, p, bytes);
  }

  // Every sector of a chain keeps its payload.
  ghost predicate KeepsPayloads(d: Disk, d': Disk, c: seq<nat>)
    requires WholeSectors(d) && WholeSectors(d')
  {
    |d'| == |d| && forall k | 0 <= k < |c| :: c[k] < |d| && d'[c[k]][HEADER..] == d[c[k]][HEADER..]
  }

  lemma KeepsPayloadsTwice(d: Disk, d1: Disk, d2: Disk, c: seq<nat>)
    requires WholeSectors(d) && WholeSectors(d1) && WholeSectors(d2)
    requires KeepsPayloads(d, d1, c) && KeepsPayloads(d1, d2, c)
    ensures KeepsPayloads(d, d2, c)
  {
  }

  // Only `was` and a sector outside the chain change, and `was` keeps its payload.
  lemma KeptAround(d: Disk, d': Disk, nb: nat, c: seq<nat>, was: nat, r: nat)
    requires WholeSectors(d) && WholeSectors(d') && OnlyTouches(d, d', nb, {was, r}) && r !in c
    requires was < |d| && d'[was][HEADER..] == d[was][HEADER..]
    requires forall k | 0 <= k < |c| :: 2 + nb <= c[k] < |d|
    ensures KeepsPayloads(d, d', c)
  {
  }

  lemma KeptBeside(d: Disk, d': Disk, c: seq<nat>, r: nat)
    requires WholeSectors(d) && WholeSectors(d') && r < |d| && |d'| == |d| && d' == d[r := d'[r]] && r !in c
    requires forall k | 0 <= k < |c| :: c[k] < |d|
    ensures KeepsPayloads(d, d', c)
  {
  }

  lemma SameDataKept(d: Disk, d': Disk, c: seq<nat>, s: nat)
    requires WholeSectors(d) && WholeSectors(d') && KeepsPayloads(d, d', c) && s <= PAYLOAD * |c|
    ensures forall k | 0 <= k < |c| :: c[k] < |d| == |d'|
    ensures Data(d', c, s) == Data(d, c, s)
  {
    SamePayloads(d, d', c, c, s, s);
  }

  // ---------- a write ----------

  // What a write of bytes at offset o does: the data of entry e is overwritten, its chain perhaps
  // continued, and every other entry stays.
  ghost predicate Written(d: Disk, d': Disk, table: seq<Entry>, table': seq<Entry>, e: nat, o: nat, bytes: seq<u8>)
    requires WholeSectors(d) && WholeSectors(d') && ChainsOk(d, table) && ChainsOk(d', table')
  {
    && e < |table| && table[e].File? && |table'| == |table| && table'[e].File? && table[e].chain <= table'[e].chain
    && table' == table[e := File(table[e].name, table'[e].chain,
                                 if o + |bytes| <= table[e].size then table[e].size else o + |bytes|)]
    && Slots(d, table)[e].Holds? && o <= |Slots(d, table)[e].data|
    && Slots(d', table') == Slots(d, table)[e := Holds(table[e].name, Overwrite(Slots(d, table)[e].data, o, bytes))]
  }

  lemma WrittenFile(d: Disk, d': Disk, table: seq<Entry>, table': seq<Entry>, e: nat, o: nat, bytes: seq<u8>)
    requires WholeSectors(d) && WholeSectors(d') && ChainsOk(d, table) && ChainsOk(d', table')
    requires Written(d, d', table, table', e, o, bytes)
    ensures |table'| == |table| && e < |table| && table[e].File? && table'[e].File?
    ensures table'[e].size == if o + |bytes| <= table[e].size then table[e].size else o + |bytes|
    ensures table[e].chain <= table'[e].chain && table'[e].size > 0 && |table'[e].chain| == Sectors(table'[e].size)
  {
    hide ChainsOk, Slots, Overwrite, Chained;
    SlotsOfFile(d', table', e);
    ChainEnds(d', table'[e].chain, table'[e].size);
  }

  lemma NothingWritten(d: Disk, table: seq<Entry>, e: nat, o: nat)
    requires WholeSectors(d) && ChainsOk(d, table) && e < |table| && table[e].File? && o <= table[e].size
    ensures Written(d, d, table, table, e, o, [])
  {
    hide ChainsOk, Chained, Slots, Overwrite, Data;
    SlotsOfFile(d, table, e);
    OverwriteNothing(Slots(d, table)[e].data, o);
  }

  lemma WrittenMore(d0: Disk, d: Disk, d': Disk, t0: seq<Entry>, t: seq<Entry>, t': seq<Entry>, e: nat, o: nat,
                    x: seq<u8>, y: seq<u8>)
    requires WholeSectors(d0) && WholeSectors(d) && WholeSectors(d')
    requires ChainsOk(d0, t0) && ChainsOk(d, t) && ChainsOk(d', t')
    requires Written(d0, d, t0, t, e, o, x) && Written(d, d', t, t', e, o + |x|, y)
    ensures Written(d0, d', t0, t', e, o, x + y)
  {
    hide ChainsOk, Slots, Overwrite;
    OverwriteMore(Slots(d0, t0)[e].data, o, x, y);
  }

  lemma SameLink(was: seq<u8>, now: seq<u8>, at: nat, bytes: seq<u8>)
    requires |was| == SECTOR && |now| == SECTOR && at >= HEADER && Patched(was, now, at, bytes)
    ensures Link(now) == Link(was)
  {
  }

  lemma DisjointMinus(free: set<nat>, owned: set<nat>)
    requires free !! owned
    ensures free - owned == free
  {
  }

  // A round that does not find its sector: the whole write is one that does not, all before it stayed
  // inside the file, and this round extends it.
  lemma WrongRound(d0: Disk, d: Disk, t0: seq<Entry>, t: seq<Entry>, e: nat, o: nat, done: seq<u8>, p: nat, k: nat,
                   n: nat, well: bool)
    requires WholeSectors(d0) && WholeSectors(d) && ChainsOk(d0, t0) && ChainsOk(d, t)
    requires Written(d0, d, t0, t, e, o, done) && (!well ==> t == t0) && t[e].size > 0
    requires p == o + |done| <= t[e].size && k > 0 && WritesWell(p, k, t[e].size) == well
    requires n == (if 506 - p % 506 >= k then k else 506 - p % 506) && !FindsItsSector(p, n, StoredSize(t[e].size))
    ensures !well && t == t0 && Extends(p, n, t[e].size) && !AddsWell(p, t[e].size) && 0 < n <= k
    ensures t[e].File? && t[e].size <= PAYLOAD * |t[e].chain| && forall k | 0 <= k < |t[e].chain| :: t[e].chain[k] < |d|
    ensures Slots(d0, t0)[e].Holds? && o <= |Slots(d0, t0)[e].data|
    ensures Data(d, t[e].chain, t[e].size) == Overwrite(Slots(d0, t0)[e].data, o, done)
  {
    WriteRound(p, k, t[e].size, n);
    FindsItsSectorMeans(p, n, t[e].size);
    hide ChainsOk, Chained, Slots, Overwrite, Data, WritesWell, AddsWell, Extends, StoredSize, FindsItsSector;
    SlotsOfFile(d, t, e);
  }

  lemma StillNotFree(free: set<nat>, c: seq<nat>, c': seq<nat>)
    requires c <= c'
    ensures free - Elems(c) - Elems(c') == free - Elems(c')
  {
    assert Elems(c) <= Elems(c');
  }

  // A round that needs a new sector finds one, and the next round still has the sectors it needs.
  lemma EnoughRoom(p: nat, n: nat, k: nat, s: nat, chain: nat, free: nat)
    requires s > 0 && 0 < n <= k && chain == Sectors(s) && Sectors(p + k) <= chain + free
    ensures p + n > StoredSize(s) && AddsWell(p, s) && s % 506 == 0 ==> free > 0
    ensures Sectors(p + n + (k - n)) <= chain + free
  {
  }

  // One round of a write put bytes at offset p of file e; the table changes only if that extends it.
  ghost predicate PieceWritten(d: Disk, d': Disk, nb: nat, table: seq<Entry>, table': seq<Entry>, e: nat, p: nat,
                               bytes: seq<u8>)
    requires WholeSectors(d) && WholeSectors(d') && ChainsOk(d, table) && ChainsOk(d', table')
    requires Covers(d, nb) && Covers(d', nb)
  {
    && Written(d, d', table, table', e, p, bytes) && d'[0] == d[0]
    && FreeOf(d', nb) == FreeOf(d, nb) - Elems(table'[e].chain)
    && |FreeOf(d', nb)| + |table'[e].chain| == |FreeOf(d, nb)| + |table[e].chain|
    && (p + |bytes| <= StoredSize(table[e].size) ==> table' == table)
  }

  // Bytes at offset p of file e, inside it, are replaced, and nothing else of the files.
  ghost predicate PatchedWith(d: Disk, d': Disk, nb: nat, table: seq<Entry>, e: nat, p: nat, bytes: seq<u8>)
    requires WholeSectors(d) && WholeSectors(d') && ChainsOk(d, table) && ChainsOk(d', table)
    requires Covers(d, nb) && Covers(d', nb)
  {
    && e < |table| && table[e].File? && p + |bytes| <= table[e].size
    && Slots(d, table)[e].Holds? && p <= |Slots(d, table)[e].data|
    && Slots(d', table) == Slots(d, table)[e := Holds(table[e].name, Overwrite(Slots(d, table)[e].data, p, bytes))]
    && d'[0] == d[0] && FreeOf(d', nb) == FreeOf(d, nb)
  }

  lemma JustPatched(d: Disk, d': Disk, nb: nat, t: seq<Entry>, e: nat, p: nat, bytes: seq<u8>)
    requires WholeSectors(d) && WholeSectors(d') && ChainsOk(d, t) && ChainsOk(d', t) && Covers(d, nb) && Covers(d', nb)
    requires PatchedWith(d, d', nb, t, e, p, bytes) && FreeOf(d, nb) !! Elems(t[e].chain)
    ensures PieceWritten(d, d', nb, t, t, e, p, bytes)
  {
    hide ChainsOk, Slots, Overwrite, Covers, FreeOf, Elems;
    DisjointMinus(FreeOf(d, nb), Elems(t[e].chain));
  }

  // Growing to the end of the bytes and then patching them in is a write.
  lemma GrownAndPatched(d: Disk, d1: Disk, d': Disk, nb: nat, t: seq<Entry>, t1: seq<Entry>, e: nat, p: nat,
                        bytes: seq<u8>)
    requires WholeSectors(d) && WholeSectors(d1) && WholeSectors(d')
    requires ChainsOk(d, t) && ChainsOk(d1, t1) && ChainsOk(d', t1)
    requires Covers(d, nb) && Covers(d1, nb) && Covers(d', nb)
    requires e < |t| && t[e].File? && StoredSize(t[e].size) < p + |bytes| && p <= t[e].size < p + |bytes|
    requires Extended(d, d1, nb, t, t1, e, p + |bytes|) && PatchedWith(d1, d', nb, t1, e, p, bytes)
    ensures PieceWritten(d, d', nb, t, t1, e, p, bytes)
  {
    hide ChainsOk, Chained, Slots, Data, Covers, FreeOf, Elems;
    SlotsOfFile(d, t, e);
    var was, now := Slots(d, t)[e].data, Slots(d1, t1)[e].data;
    assert now[..p] == now[..t[e].size][..p] == was[..p];
    assert Overwrite(now, p, bytes) == Overwrite(was, p, bytes);
  }

  // How far a write that started in disk d0 and table t0 at offset o has come, with `left` bytes to go.
  // well says whether the whole write satisfies WritesWell; until one that does not goes astray, it has
  // stayed inside the file.
  ghost predicate Underway(d0: Disk, t0: seq<Entry>, free: set<nat>, d: Disk, nb: nat, t: seq<Entry>, e: nat, o: nat,
                           done: seq<u8>, left: nat, well: bool)
  {
    && WholeSectors(d0) && WholeSectors(d) && Covers(d, nb) && ChainsOk(d0, t0) && ChainsOk(d, t)
    && |d0| > 0 && d[0] == d0[0] && Written(d0, d, t0, t, e, o, done) && FreeOf(d, nb) == free - Elems(t[e].chain)
    && o + |done| <= t[e].size && t[e].size > 0 && |t[e].chain| == Sectors(t[e].size)
    && WritesWell(o + |done|, left, t[e].size) == well && (!well ==> t == t0)
    && Sectors(o + |done| + left) <= |t[e].chain| + |FreeOf(d, nb)|
  }

  lemma UnderwayMeans(d0: Disk, t0: seq<Entry>, free: set<nat>, d: Disk, nb: nat, t: seq<Entry>, e: nat, o: nat,
                      done: seq<u8>, left: nat, well: bool)
    requires Underway(d0, t0, free, d, nb, t, e, o, done, left, well)
    ensures WholeSectors(d0) && WholeSectors(d) && Covers(d, nb) && ChainsOk(d0, t0) && ChainsOk(d, t)
    ensures |d0| > 0 && d[0] == d0[0] && Written(d0, d, t0, t, e, o, done)
    ensures e < |t| == |t0| && t[e].File? && t0[e].File? && FreeOf(d, nb) == free - Elems(t[e].chain)
    ensures !well ==> t == t0
    ensures left == 0 ==> well
  {
    hide Used, FreeOf, Chained, Slots, ChainsOk, Elems, Overwrite, WritesWell, Sectors, Covers;
    WrittenFile(d0, d, t0, t, e, o, done);
    NothingLeft(o + |done|, t[e].size);
  }

  // A round of n bytes that finds its sector, before and after it.
  lemma UnderwayRound(d0: Disk, t0: seq<Entry>, free: set<nat>, d: Disk, nb: nat, t: seq<Entry>, e: nat, o: nat,
                      done: seq<u8>, left: nat, well: bool, n: nat)
    requires Underway(d0, t0, free, d, nb, t, e, o, done, left, well) && left > 0
    requires n == (var room := 506 - (o + |done|) % 506; if room >= left then left else room)
    requires well || (e < |t| && t[e].File? && FindsItsSector(o + |done|, n, StoredSize(t[e].size)))
    ensures e < |t| && t[e].File? && o + |done| <= t[e].size && 0 < n <= left && (o + |done|) % 506 + n <= 506
    ensures if o + |done| + n <= StoredSize(t[e].size) then (o + |done|) / 506 < |t[e].chain|
            else AddsWell(o + |done|, t[e].size) && (t[e].size % 506 == 0 ==> FreeOf(d, nb) != {})
  {
    hide Used, FreeOf, Chained, Slots, ChainsOk, Elems, Overwrite, Written, Covers;
    var p := o + |done|;
    WrittenFile(d0, d, t0, t, e, o, done);
    WriteRound(p, left, t[e].size, n);
    FindsItsSectorMeans(p, n, t[e].size);
    EnoughRoom(p, n, left, t[e].size, |t[e].chain|, |FreeOf(d, nb)|);
  }

  lemma UnderwayMore(d0: Disk, t0: seq<Entry>, free: set<nat>, d: Disk, d': Disk, nb: nat, t: seq<Entry>,
                     t': seq<Entry>, e: nat, o: nat, done: seq<u8>, left: nat, well: bool, piece: seq<u8>)
    requires Underway(d0, t0, free, d, nb, t, e, o, done, left, well) && left > 0
    requires |piece| == (var room := 506 - (o + |done|) % 506; if room >= left then left else room)
    requires well || (e < |t| && t[e].File? && FindsItsSector(o + |done|, |piece|, StoredSize(t[e].size)))
    requires WholeSectors(d') && Covers(d', nb) && ChainsOk(d', t')
    requires PieceWritten(d, d', nb, t, t', e, o + |done|, piece)
    ensures Underway(d0, t0, free, d', nb, t', e, o, done + piece, left - |piece|, well)
  {
    hide Used, FreeOf, Chained, Slots, ChainsOk, Elems, Overwrite, Written, Covers, WritesWell, AddsWell, Extends, Sectors,
      StoredSize, FindsItsSector;
    var p := o + |done|;
    WrittenFile(d0, d, t0, t, e, o, done);
    WrittenFile(d, d', t, t', e, p, piece);
    WriteRound(p, left, t[e].size, |piece|);
    FindsItsSectorMeans(p, |piece|, t[e].size);
    EnoughRoom(p, |piece|, left, t[e].size, |t[e].chain|, |FreeOf(d, nb)|);
    StillNotFree(free, t[e].chain, t'[e].chain);
    WrittenMore(d0, d, d', t0, t, t', e, o, done, piece);
  }

  // Reading where a write put its bytes gives them back.
  lemma WrittenIsReadBack(d: Disk, d': Disk, table: seq<Entry>, table': seq<Entry>, e: nat, o: nat, bytes: seq<u8>)
    requires WholeSectors(d) && WholeSectors(d') && ChainsOk(d, table) && ChainsOk(d', table')
    requires Written(d, d', table, table', e, o, bytes)
    ensures e < |table'| && table'[e].File? && o + |bytes| <= PAYLOAD * |table'[e].chain|
    ensures forall k | 0 <= k < |table'[e].chain| :: table'[e].chain[k] < |d'|
    ensures Payload(d', table'[e].chain, o, |bytes|) == bytes
  {
    hide ChainsOk, Slots, Chained, Data;
    SlotsOfFile(d', table', e);
    SlotsOfFile(d, table, e);
    PayloadIsData(d', table'[e].chain, table'[e].size, o, |bytes|);
  }

  lemma PayloadIsData(d: Disk, chain: seq<nat>, size: nat, o: nat, n: nat)
    requires WholeSectors(d) && o + n <= size <= PAYLOAD * |chain| && forall k | 0 <= k < |chain| :: chain[k] < |d|
    ensures Payload(d, chain, o, n) == Data(d, chain, size)[o..o + n]
  {
  }

  // ---------- formatting ----------

  function FreeTable(n: nat): (r: seq<Entry>)
    ensures |r| == n && forall e | 0 <= e < n :: r[e].Free?
  {
    if n == 0 then [] else FreeTable(n - 1) + [Free]
  }

  lemma ZeroBitmap(d: Disk, nb: nat)
    requires Covers(d, nb) && forall b, k | 2 <= b < 2 + nb && 0 <= k < SECTOR :: d[b][k] == 0
    ensures Used(d, nb) == {}
  {
    forall n: nat | n < BITS * nb ensures n % BITS !in Members(d[2 + n / BITS]) {
      ZeroBytesAreEmpty(d[2 + n / BITS]);
    }
  }

  lemma FormattedDisk(d: Disk, nb: nat)
    requires Shape(d, nb) && Used(d, nb) == Reserved(nb) && forall k | 16 <= k < SECTOR :: d[1][k] == 0
    ensures var table := FreeTable(ENTRIES);
            && Inv(d, nb, table, map[]) && ChainsOk(d, table)
            && forall e | 0 <= e < ENTRIES :: Slots(d, table)[e].Empty?
    ensures forall n: nat :: n in FreeOf(d, nb) <==> 2 + nb <= n < |d|
  {
    hide Used;
    var table := FreeTable(ENTRIES);
    var owner: map<nat, (nat, nat)> := map[];
    assert Reserved(nb) + owner.Keys == Reserved(nb);
    forall e: nat | 1 <= e < ENTRIES ensures EntryMatches(d[1], e, table[e]) {
      assert NameAt(d[1], e) == NO_NAME;
    }
  }
}
