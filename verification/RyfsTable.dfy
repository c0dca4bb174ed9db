/** The RYFS invariant: the directory, the chains and the bitmap of a disk agree with one table of
    files.  A single lemma, ReplaceEntry, covers every operation: whatever changes one directory
    entry and the sectors of its old and new chain, and nothing else, keeps the invariant and every
    other file. */
module RyfsTable {
  import opened Bytes
  import opened Bitmaps
  import opened Devices
  import opened Sequences
  import opened RyfsDisk

  datatype Entry = Free | File(name: Name, chain: seq<nat>, size: nat)

  // What a client sees of a directory entry.
  datatype Slot = Empty | Holds(name: Name, data: seq<u8>)

  function ChainOf(entry: Entry): seq<nat> {
    if entry.File? then entry.chain else []
  }

  // The boot sector, the directory and the bitmap.
  function Reserved(nb: nat): (r: set<nat>)
    ensures forall n: nat :: n in r <==> n < 2 + nb
  {
    if nb == 0 then {0, 1} else Reserved(nb - 1) + {1 + nb}
  }

  ghost predicate Shape(d: Disk, nb: nat) {
    WholeSectors(d) && 1 <= nb && 2 + nb < |d| < 0x1_0000 && |d| <= BITS * nb && d[1][0] == nb
  }

  ghost predicate EntryMatches(dir: seq<u8>, e: nat, entry: Entry)
    requires |dir| == SECTOR && e < ENTRIES
  {
    if entry.Free? then First(dir, e) == 0 && Count(dir, e) == 0 && NameAt(dir, e) == NO_NAME
    else
      && |entry.chain| > 0 && First(dir, e) == entry.chain[0] && Count(dir, e) == |entry.chain|
      && NameAt(dir, e) == entry.name && entry.name != NO_NAME
  }

  // The sectors of a file: linked in order, ended by link 0, the last one with the rest size.
  ghost predicate Chained(d: Disk, chain: seq<nat>, size: nat)
    requires WholeSectors(d)
  {
    && size > 0 && |chain| == Sectors(size)
    && (forall k | 0 <= k < |chain| :: chain[k] < |d|)
    && (forall k | 0 <= k < |chain| - 1 :: Link(d[chain[k]]) == chain[k + 1])
    && Link(d[chain[|chain| - 1]]) == 0 && LastSize(d[chain[|chain| - 1]]) == size % PAYLOAD
  }

  ghost predicate DirectoryOk(dir: seq<u8>, table: seq<Entry>)
    requires |dir| == SECTOR
  {
    |table| == ENTRIES && table[0].Free? && forall e: nat | 1 <= e < ENTRIES :: EntryMatches(dir, e, table[e])
  }

  ghost predicate ChainsOk(d: Disk, table: seq<Entry>)
    requires WholeSectors(d)
  {
    forall e: nat | e < |table| && table[e].File? :: Chained(d, table[e].chain, table[e].size)
  }

  // owner maps every sector of every chain to its place; so no sector is in two places.
  ghost predicate Indexed(table: seq<Entry>, owner: map<nat, (nat, nat)>) {
    forall e: nat, k: nat {:trigger ChainOf(table[e])[k]} | e < |table| && k < |ChainOf(table[e])| ::
      ChainOf(table[e])[k] in owner && owner[ChainOf(table[e])[k]] == (e, k)
  }

  ghost predicate Grounded(table: seq<Entry>, owner: map<nat, (nat, nat)>, nb: nat, total: nat) {
    forall n | n in owner ::
      && 2 + nb <= n < total
      && owner[n].0 < |table| && owner[n].1 < |ChainOf(table[owner[n].0])|
      && ChainOf(table[owner[n].0])[owner[n].1] == n
  }

  ghost predicate NamesDiffer(table: seq<Entry>) {
    forall e: nat, f: nat | e < f < |table| && table[e].File? && table[f].File? :: table[e].name != table[f].name
  }

  ghost predicate Inv(d: Disk, nb: nat, table: seq<Entry>, owner: map<nat, (nat, nat)>) {
    && Shape(d, nb) && |table| == ENTRIES && DirectoryOk(d[1], table) && ChainsOk(d, table)
    && Indexed(table, owner) && Grounded(table, owner, nb, |d|) && NamesDiffer(table)
    && Used(d, nb) == Reserved(nb) + owner.Keys
  }

  // What the invariant comes to: directory, chains and bitmap agree.
  lemma Agreement(d: Disk, nb: nat, table: seq<Entry>, owner: map<nat, (nat, nat)>)
    requires Inv(d, nb, table, owner)
    ensures Shape(d, nb) && |table| == ENTRIES
    ensures forall e: nat | 1 <= e < ENTRIES :: Count(d[1], e) == |ChainOf(table[e])|
    ensures forall e: nat, f: nat | e < f < ENTRIES :: Elems(ChainOf(table[e])) !! Elems(ChainOf(table[f]))
    ensures forall e: nat | e < ENTRIES :: Distinct(ChainOf(table[e])) && Elems(ChainOf(table[e])) !! Reserved(nb)
    ensures forall n: nat :: n in Used(d, nb) <==> n < 2 + nb || exists e: nat :: e < ENTRIES && n in ChainOf(table[e])
  {
    hide Used, ChainsOk, NamesDiffer, NameAt, First;
    forall e: nat, f: nat | e < f < ENTRIES ensures Elems(ChainOf(table[e])) !! Elems(ChainOf(table[f])) {
      forall n | n in ChainOf(table[e]) ensures n !in ChainOf(table[f]) {
        OneOwner(table, owner, e, f, n);
      }
    }
    forall e: nat | 1 <= e < ENTRIES ensures Count(d[1], e) == |ChainOf(table[e])| {
      assert EntryMatches(d[1], e, table[e]);
    }
    forall e: nat | e < ENTRIES ensures Distinct(ChainOf(table[e])) && Elems(ChainOf(table[e])) !! Reserved(nb) {
      ChainIsOwned(table, owner, nb, |d|, e);
    }
    forall n: nat | n in owner ensures exists e: nat :: e < ENTRIES && n in ChainOf(table[e]) {
      assert n in ChainOf(table[owner[n].0]);
    }
    forall e: nat, n: nat | e < ENTRIES && n in ChainOf(table[e]) ensures n in owner {
      OneOwner(table, owner, e, e, n);
    }
  }

  lemma OneOwner(table: seq<Entry>, owner: map<nat, (nat, nat)>, e: nat, f: nat, n: nat)
    requires Indexed(table, owner) && e < |table| && f < |table| && n in ChainOf(table[e])
    ensures n in owner && owner[n].0 == e
    ensures n in ChainOf(table[f]) ==> e == f
  {
    var k: nat :| k < |ChainOf(table[e])| && ChainOf(table[e])[k] == n;
    if n in ChainOf(table[f]) {
      var j: nat :| j < |ChainOf(table[f])| && ChainOf(table[f])[j] == n;
    }
  }

  // ---------- contents ----------

  // Byte k of the payloads along a chain, joined.
  function ByteAt(d: Disk, chain: seq<nat>, k: nat): u8
    requires WholeSectors(d) && k < PAYLOAD * |chain| && chain[k / PAYLOAD] < |d|
  {
    d[chain[k / PAYLOAD]][HEADER + k % PAYLOAD]
  }

  ghost function Data(d: Disk, chain: seq<nat>, size: nat): (r: seq<u8>)
    requires WholeSectors(d) && size <= PAYLOAD * |chain| && forall k | 0 <= k < |chain| :: chain[k] < |d|
    ensures |r| == size
  {
    seq(size, k requires 0 <= k < size => ByteAt(d, chain, k))
  }

  lemma SectorsHold(size: nat)
    ensures size <= PAYLOAD * Sectors(size) && (size > 0 <==> Sectors(size) > 0)
    ensures size > 0 ==> PAYLOAD * (Sectors(size) - 1) < size
  {
  }

  ghost function SlotOf(d: Disk, entry: Entry): Slot
    requires WholeSectors(d) && (entry.File? ==> Chained(d, entry.chain, entry.size))
  {
    if entry.Free? then Empty
    else
      SectorsHold(entry.size);
      Holds(entry.name, Data(d, entry.chain, entry.size))
  }

  ghost function Slots(d: Disk, table: seq<Entry>): (r: seq<Slot>)
    requires WholeSectors(d) && ChainsOk(d, table)
    ensures |r| == |table|
  {
    seq(|table|, e requires 0 <= e < |table| => SlotOf(d, table[e]))
  }

  lemma DataFrame(d: Disk, d': Disk, chain: seq<nat>, size: nat)
    requires WholeSectors(d) && WholeSectors(d') && |d| == |d'| && size <= PAYLOAD * |chain|
    requires forall k | 0 <= k < |chain| :: chain[k] < |d| && d'[chain[k]] == d[chain[k]]
    ensures Data(d', chain, size) == Data(d, chain, size)
  {
    forall k | 0 <= k < size ensures ByteAt(d', chain, k) == ByteAt(d, chain, k) {
      assert k / PAYLOAD < |chain|;
    }
  }

  lemma ChainedFrame(d: Disk, d': Disk, chain: seq<nat>, size: nat)
    requires WholeSectors(d) && WholeSectors(d') && |d| == |d'| && Chained(d, chain, size)
    requires forall k | 0 <= k < |chain| :: chain[k] < |d| && d'[chain[k]] == d[chain[k]]
    ensures Chained(d', chain, size) && size <= PAYLOAD * |chain|
  {
    hide Link, LastSize;
    SectorsHold(size);
  }

  // ---------- the one preservation lemma ----------

  // owner with the sectors of `was` forgotten and those of `now` mapped to entry e.
  ghost predicate Reowned(owner: map<nat, (nat, nat)>, owner': map<nat, (nat, nat)>, e: nat, was: seq<nat>, now: seq<nat>) {
    && owner'.Keys == owner.Keys - Elems(was) + Elems(now)
    && (forall k: nat | k < |now| :: owner'[now[k]] == (e, k))
    && forall n | n in owner && n !in was && n !in now :: owner'[n] == owner[n]
  }

  ghost function IndexOf(c: seq<nat>, n: nat): (k: nat)
    requires n in c
    ensures k < |c| && c[k] == n
  {
    var k: nat :| k < |c| && c[k] == n;
    k
  }

  ghost function Reown(owner: map<nat, (nat, nat)>, e: nat, was: seq<nat>, now: seq<nat>): (owner': map<nat, (nat, nat)>)
    requires Distinct(now)
    ensures Reowned(owner, owner', e, was, now)
  {
    map n | n in owner.Keys - Elems(was) + Elems(now) ::
      if n in now then (e, IndexOf(now, n)) else owner[n]
  }

  // d' differs from d at most in the directory, the bitmap and the sectors of `touched`.
  ghost predicate OnlyTouches(d: Disk, d': Disk, nb: nat, touched: set<nat>) {
    |d'| == |d| && forall n: nat | n < |d| && (n == 0 || n >= 2 + nb) && n !in touched :: d'[n] == d[n]
  }

  // The directory says the same of every entry but e.
  ghost predicate OnlyEntry(dir: seq<u8>, dir': seq<u8>, e: nat)
    requires |dir| == SECTOR && |dir'| == SECTOR
  {
    forall f: nat | 1 <= f < ENTRIES && f != e ::
      First(dir', f) == First(dir, f) && Count(dir', f) == Count(dir, f) && NameAt(dir', f) == NameAt(dir, f)
  }

  // The new chain reuses sectors of the old one or takes unused ones.
  ghost predicate Takes(d: Disk, nb: nat, owner: map<nat, (nat, nat)>, was: seq<nat>, now: seq<nat>) {
    Distinct(now) && forall n | n in now :: n in was || (2 + nb <= n < |d| && n !in owner)
  }

  ghost predicate NewName(table: seq<Entry>, e: nat, entry: Entry) {
    entry.File? ==> forall f: nat | f < |table| && f != e && table[f].File? :: table[f].name != entry.name
  }

  lemma ReplaceEntry(d: Disk, d': Disk, nb: nat, table: seq<Entry>, owner: map<nat, (nat, nat)>, e: nat, entry: Entry)
    requires Inv(d, nb, table, owner) && Shape(d', nb) && 1 <= e < ENTRIES
    requires var was, now := ChainOf(table[e]), ChainOf(entry);
             && Takes(d, nb, owner, was, now)
             && OnlyTouches(d, d', nb, Elems(was) + Elems(now))
             && Used(d', nb) == Used(d, nb) - Elems(was) + Elems(now)
    requires OnlyEntry(d[1], d'[1], e) && EntryMatches(d'[1], e, entry) && NewName(table, e, entry)
    requires entry.File? ==> Chained(d', entry.chain, entry.size)
    ensures var owner' := Reown(owner, e, ChainOf(table[e]), ChainOf(entry));
            Inv(d', nb, table[e := entry], owner')
    ensures ChainsOk(d', table[e := entry])
    ensures Slots(d', table[e := entry]) == Slots(d, table)[e := SlotOf(d', entry)]
  {
    hide Used, ChainsOk, Slots, Chained, SlotOf, Indexed, Grounded, DirectoryOk, EntryMatches, NamesDiffer,
      NewName, Takes, OnlyEntry, Reserved;
    var was, now := ChainOf(table[e]), ChainOf(entry);
    OwnersReplaced(d, nb, table, owner, e, entry);
    OthersUntouched(d, d', nb, table, owner, e, entry);
    ChainIsOwned(table, owner, nb, |d|, e);
    DirectoryReplaced(d[1], d'[1], table, e, entry);
    NamesReplaced(table, e, entry);
    Regroup(Reserved(nb), owner.Keys, Elems(was), Elems(now));
    TakesDistinct(d, nb, owner, was, now);
  }

  lemma Regroup(reserved: set<nat>, owned: set<nat>, was: set<nat>, now: set<nat>)
    requires was !! reserved
    ensures reserved + owned - was + now == reserved + (owned - was + now)
  {
  }

  lemma TakesDistinct(d: Disk, nb: nat, owner: map<nat, (nat, nat)>, was: seq<nat>, now: seq<nat>)
    requires Takes(d, nb, owner, was, now)
    ensures Distinct(now)
  {
  }

  lemma DirectoryReplaced(dir: seq<u8>, dir': seq<u8>, table: seq<Entry>, e: nat, entry: Entry)
    requires |dir| == SECTOR && |dir'| == SECTOR && DirectoryOk(dir, table) && 1 <= e < ENTRIES
    requires OnlyEntry(dir, dir', e) && EntryMatches(dir', e, entry)
    ensures DirectoryOk(dir', table[e := entry])
  {
    hide First, Count, NameAt;
  }

  lemma NamesReplaced(table: seq<Entry>, e: nat, entry: Entry)
    requires NamesDiffer(table) && e < |table| && NewName(table, e, entry)
    ensures NamesDiffer(table[e := entry])
  {
  }

  // The sectors of a chain are owned, and so none of them is reserved.
  lemma ChainIsOwned(table: seq<Entry>, owner: map<nat, (nat, nat)>, nb: nat, total: nat, e: nat)
    requires Indexed(table, owner) && Grounded(table, owner, nb, total) && e < |table|
    ensures Elems(ChainOf(table[e])) <= owner.Keys && Elems(ChainOf(table[e])) !! Reserved(nb)
    ensures Distinct(ChainOf(table[e]))
    ensures forall k | 0 <= k < |ChainOf(table[e])| :: 2 + nb <= ChainOf(table[e])[k] < total
  {
    var c: seq<nat> := ChainOf(table[e]);
    forall k: nat | k < |c| ensures c[k] in owner && 2 + nb <= c[k] < total && owner[c[k]] == (e, k) {
      assert ChainOf(table[e])[k] in owner;
    }
    forall n | n in c ensures n in owner && n !in Reserved(nb) {
      var k: nat :| k < |c| && c[k] == n;
    }
  }

  lemma OwnersReplaced(d: Disk, nb: nat, table: seq<Entry>, owner: map<nat, (nat, nat)>, e: nat, entry: Entry)
    requires |table| == ENTRIES && e < ENTRIES && Indexed(table, owner) && Grounded(table, owner, nb, |d|)
    requires Takes(d, nb, owner, ChainOf(table[e]), ChainOf(entry))
    ensures var owner' := Reown(owner, e, ChainOf(table[e]), ChainOf(entry));
            Indexed(table[e := entry], owner') && Grounded(table[e := entry], owner', nb, |d|)
  {
    var was, now := ChainOf(table[e]), ChainOf(entry);
    var table', owner' := table[e := entry], Reown(owner, e, was, now);
    forall f: nat, k: nat | f < |table'| && k < |ChainOf(table'[f])|
      ensures ChainOf(table'[f])[k] in owner' && owner'[ChainOf(table'[f])[k]] == (f, k)
    {
      if f != e {
        var n := ChainOf(table[f])[k];
        assert owner[n] == (f, k);
        assert n !in was;
      }
    }
    forall n | n in owner'
      ensures 2 + nb <= n < |d| && owner'[n].0 < |table'| && owner'[n].1 < |ChainOf(table'[owner'[n].0])|
      ensures ChainOf(table'[owner'[n].0])[owner'[n].1] == n
    {
      if n in now {
        var k: nat :| k < |now| && now[k] == n;
        assert owner'[n] == (e, k);
        if n in was {
          var j: nat :| j < |was| && was[j] == n;
          assert ChainOf(table[e])[j] in owner;
        }
      } else {
        assert owner[n].0 == e ==> n in was;
      }
    }
  }

  lemma OthersUntouched(d: Disk, d': Disk, nb: nat, table: seq<Entry>, owner: map<nat, (nat, nat)>, e: nat, entry: Entry)
    requires Inv(d, nb, table, owner) && WholeSectors(d') && 1 <= e < ENTRIES
    requires var was, now := ChainOf(table[e]), ChainOf(entry);
             Takes(d, nb, owner, was, now) && OnlyTouches(d, d', nb, Elems(was) + Elems(now))
    requires entry.File? ==> Chained(d', entry.chain, entry.size)
    ensures ChainsOk(d', table[e := entry])
    ensures Slots(d', table[e := entry]) == Slots(d, table)[e := SlotOf(d', entry)]
  {
    hide Used, Chained, SlotOf, Indexed, Grounded, DirectoryOk, NamesDiffer, Takes, OnlyTouches;
    forall f: nat | f < |table| && f != e && table[f].File?
      ensures Chained(d', table[f].chain, table[f].size) && SlotOf(d', table[f]) == SlotOf(d, table[f])
    {
      OtherUntouched(d, d', nb, table, owner, e, entry, f);
    }
    FreeSlot(d, d');
  }

  lemma FreeSlot(d: Disk, d': Disk)
    requires WholeSectors(d) && WholeSectors(d')
    ensures SlotOf(d, Free) == SlotOf(d', Free)
  {
  }

  lemma OtherUntouched(d: Disk, d': Disk, nb: nat, table: seq<Entry>, owner: map<nat, (nat, nat)>, e: nat,
                       entry: Entry, f: nat)
    requires Inv(d, nb, table, owner) && WholeSectors(d') && 1 <= e < ENTRIES
    requires var was, now := ChainOf(table[e]), ChainOf(entry);
             Takes(d, nb, owner, was, now) && OnlyTouches(d, d', nb, Elems(was) + Elems(now))
    requires f < |table| && f != e && table[f].File?
    ensures Chained(d', table[f].chain, table[f].size) && SlotOf(d', table[f]) == SlotOf(d, table[f])
  {
    hide Used, Slots, Chained, EntryMatches, Data;
    var was, now, chain := ChainOf(table[e]), ChainOf(entry), table[f].chain;
    forall k: nat | k < |chain| ensures chain[k] < |d| && d'[chain[k]] == d[chain[k]] {
      ElsewhereOwned(d, nb, table, owner, e, now, f, k);
    }
    SectorsHold(table[f].size);
    ChainedFrame(d, d', chain, table[f].size);
    DataFrame(d, d', chain, table[f].size);
  }

  lemma ElsewhereOwned(d: Disk, nb: nat, table: seq<Entry>, owner: map<nat, (nat, nat)>, e: nat, now: seq<nat>,
                       f: nat, k: nat)
    requires Indexed(table, owner) && Grounded(table, owner, nb, |d|)
    requires e < |table| && f < |table| && f != e && k < |ChainOf(table[f])|
    requires Takes(d, nb, owner, ChainOf(table[e]), now)
    ensures var n := ChainOf(table[f])[k];
            2 + nb <= n < |d| && n !in ChainOf(table[e]) && n !in now
  {
    var n, was := ChainOf(table[f])[k], ChainOf(table[e]);
    assert n in owner && owner[n] == (f, k);
    assert forall j: nat | j < |was| ::
        ChainOf(table[e])[j] in owner && owner[ChainOf(table[e])[j]] == (e, j);
  }

  // ---------- free sectors ----------

  // The sectors of the disk that the bitmap does not have.
  ghost function FreeOf(d: Disk, nb: nat): set<nat>
    requires Covers(d, nb)
  {
    set n: nat | n in Numbers(|d|) && n !in Used(d, nb)
  }

  // With a free sector on the disk, the least free number is one.
  lemma LeastFreeIsOnDisk(d: Disk, nb: nat, r: nat)
    requires Shape(d, nb) && Reserved(nb) <= Used(d, nb) && FreeOf(d, nb) != {}
    requires r == 0 || IsLeastFree(Used(d, nb), BITS * nb, r)
    requires r == 0 ==> 0 !in Used(d, nb) || forall n: nat | n < BITS * nb :: n in Used(d, nb)
    ensures r in FreeOf(d, nb) && 2 + nb <= r < |d| && IsLeastFree(Used(d, nb), BITS * nb, r)
  {
    var n :| n in FreeOf(d, nb);
    assert n < BITS * nb && 0 in Reserved(nb);
    assert r <= n;
  }

  lemma LeastFreeIsUnique(used: set<nat>, limit: nat, m: nat, n: nat)
    requires IsLeastFree(used, limit, m) && IsLeastFree(used, limit, n)
    ensures m == n
  {
  }

  ghost predicate ZeroPayload(s: seq<u8>) {
    |s| == SECTOR && forall k | HEADER <= k < SECTOR :: s[k] == 0
  }

  // ---------- reading the directory ----------

  lemma FirstSectorIsSet(d: Disk, nb: nat, table: seq<Entry>, owner: map<nat, (nat, nat)>, e: nat)
    requires Inv(d, nb, table, owner) && e < ENTRIES && table[e].File?
    ensures |table[e].chain| > 0 && 2 + nb <= table[e].chain[0] < |d|
  {
    hide Used, NamesDiffer, Link, LastSize;
    assert Chained(d, table[e].chain, table[e].size);
    SectorsHold(table[e].size);
    ChainIsOwned(table, owner, nb, |d|, e);
    assert ChainOf(table[e])[0] >= 2 + nb;
  }

  lemma FreeIffZero(d: Disk, nb: nat, table: seq<Entry>, owner: map<nat, (nat, nat)>, e: nat)
    requires Inv(d, nb, table, owner) && 1 <= e < ENTRIES
    ensures First(d[1], e) == 0 <==> table[e].Free?
    ensures table[e].File? ==> First(d[1], e) == table[e].chain[0]
  {
    hide Used, NamesDiffer, ChainsOk, Indexed, Grounded, First, Count, NameAt;
    if table[e].File? {
      FirstSectorIsSet(d, nb, table, owner, e);
    }
    assert EntryMatches(d[1], e, table[e]);
  }

  lemma FoundName(d: Disk, nb: nat, table: seq<Entry>, owner: map<nat, (nat, nat)>, e: nat, name: Name)
    requires Inv(d, nb, table, owner) && 1 <= e < ENTRIES && NameAt(d[1], e) == name
    requires forall g: nat | 1 <= g < e :: NameAt(d[1], g) != name
    ensures First(d[1], e) == 0 <==> forall g: nat | g < |table| && table[g].File? :: table[g].name != name
    ensures First(d[1], e) != 0 ==>
              table[e].File? && table[e].name == name && |table[e].chain| > 0 && First(d[1], e) == table[e].chain[0]
  {
    hide Used, ChainsOk, Indexed, Grounded, First, Count, NameAt;
    FreeIffZero(d, nb, table, owner, e);
    assert EntryMatches(d[1], e, table[e]);
    forall g: nat | g < |table| && table[g].File? ensures NameAt(d[1], g) == table[g].name != NO_NAME {
      assert g > 0;
      assert EntryMatches(d[1], g, table[g]);
    }
  }

  lemma MissingName(d: Disk, nb: nat, table: seq<Entry>, owner: map<nat, (nat, nat)>, name: Name)
    requires Inv(d, nb, table, owner)
    requires forall g: nat | 1 <= g < ENTRIES :: NameAt(d[1], g) != name
    ensures forall g: nat | g < |table| && table[g].File? :: table[g].name != name
  {
    hide Used, ChainsOk, Indexed, Grounded, First, Count, NameAt;
    forall g: nat | g < |table| && table[g].File? ensures table[g].name != name {
      assert g > 0;
      assert EntryMatches(d[1], g, table[g]);
    }
  }

  // ---------- taking a sector ----------

  // Marking a free sector leaves one free sector less.
  lemma TakenIsLess(d: Disk, d': Disk, nb: nat, n: nat)
    requires Shape(d, nb) && Shape(d', nb) && |d| == |d'| && n in FreeOf(d, nb)
    requires Used(d', nb) == Used(d, nb) + {n}
    ensures FreeOf(d', nb) == FreeOf(d, nb) - {n} && |FreeOf(d', nb)| == |FreeOf(d, nb)| - 1
  {
  }

  lemma SameHeader(a: seq<u8>, b: seq<u8>)
    requires |a| == SECTOR && |b| == SECTOR && a[..HEADER] == b[..HEADER]
    ensures Link(a) == Link(b) && LastSize(a) == LastSize(b)
  {
    assert forall k | 0 <= k < HEADER :: a[k] == a[..HEADER][k] && b[k] == b[..HEADER][k];
  }

  // A sector written past the bitmap changes no bit.
  lemma WroteSector(was: Disk, d: Disk, nb: nat, n: nat, s: seq<u8>)
    requires Shape(was, nb) && Shape(d, nb) && OnlyBitmap(was, d, nb) && 2 + nb <= n < |d| && |s| == SECTOR
    ensures var d' := d[n := s];
            && Shape(d', nb) && Used(d', nb) == Used(d, nb)
            && OnlyTouches(was, d', nb, {n}) && d'[1] == was[1]
  {
  }

  // ---------- building a chain ----------

  // Which of the first sectors of a chain of `count` begin with the magic byte 0xFF: the last one, and
  // every one whose link is not among the eight least numbers of a bitmap sector.
  ghost predicate Magic(d: Disk, c: seq<nat>, count: nat)
    requires WholeSectors(d)
  {
    forall k | 0 <= k < |c| ::
      c[k] < |d| && (d[c[k]][0] == 0xFF <==> k == count - 1 || Link(d[c[k]]) % BITS >= 8)
  }

  lemma MagicMore(d: Disk, d': Disk, c: seq<nat>, n: nat, count: nat)
    requires WholeSectors(d) && WholeSectors(d') && Magic(d, c, count) && n < |d'| == |d|
    requires forall k | 0 <= k < |c| :: c[k] < |d| && d'[c[k]] == d[c[k]]
    requires d'[n][0] == 0xFF <==> |c| == count - 1 || Link(d'[n]) % BITS >= 8
    ensures Magic(d', c + [n], count)
  {
    hide Link;
  }

  // Each sector of c is the least free number once those before it are taken.
  ghost predicate TakesLeast(used: set<nat>, limit: nat, c: seq<nat>) {
    forall k | 0 <= k < |c| :: IsLeastFree(used + Elems(c[..k]), limit, c[k])
  }

  lemma TakesLeastMore(used: set<nat>, limit: nat, c: seq<nat>, n: nat)
    requires TakesLeast(used, limit, c) && IsLeastFree(used + Elems(c), limit, n)
    ensures TakesLeast(used, limit, c + [n])
  {
    hide IsLeastFree, Elems;
    var c' := c + [n];
    forall k | 0 <= k < |c'| ensures IsLeastFree(used + Elems(c'[..k]), limit, c'[k]) {
      assert c'[..k] == if k < |c| then c[..k] else c;
    }
  }

  // The same said of the free sectors: c takes the least of them, in order.
  ghost predicate LeastOf(free: set<nat>, c: seq<nat>) {
    forall k, n | 0 <= k < |c| && n in free && n < c[k] :: n in c[..k]
  }

  lemma LeastTaken(d: Disk, nb: nat, c: seq<nat>)
    requires Covers(d, nb) && TakesLeast(Used(d, nb), BITS * nb, c)
    ensures LeastOf(FreeOf(d, nb), c)
    ensures |c| > 0 ==> IsLeastFree(Used(d, nb), BITS * nb, c[0])
  {
    hide Used;
    forall k, n | 0 <= k < |c| && n in FreeOf(d, nb) && n < c[k] ensures n in c[..k] {
      assert IsLeastFree(Used(d, nb) + Elems(c[..k]), BITS * nb, c[k]);
    }
    if |c| > 0 {
      assert c[..0] == [] && Elems([]) == {} && Used(d, nb) + {} == Used(d, nb);
    }
  }

  // Along a finished chain the links are its own sectors.
  lemma MagicOfFile(d: Disk, c: seq<nat>)
    requires WholeSectors(d) && Magic(d, c, |c|) && forall k | 0 <= k < |c| :: c[k] < |d|
    requires forall k | 0 <= k < |c| - 1 :: Link(d[c[k]]) == c[k + 1]
    ensures MagicKept(d, c)
  {
    hide Link;
  }

  // In a file just created a sector begins with the magic byte exactly when it is the last one or its
  // successor is not among the eight least numbers of a bitmap sector.
  ghost predicate MagicKept(d: Disk, c: seq<nat>)
    requires WholeSectors(d)
  {
    forall k | 0 <= k < |c| :: c[k] < |d| && (d[c[k]][0] == 0xFF <==> k == |c| - 1 || c[k + 1] % BITS >= 8)
  }

  // d is d0 with the sectors of c, the first of a chain of `count`, taken and linked in order; the
  // link of the last one so far is the sector to be taken next.
  ghost predicate Building(d0: Disk, d: Disk, nb: nat, c: seq<nat>, count: nat)
    requires Shape(d0, nb) && Shape(d, nb)
  {
    && |c| <= count && Distinct(c) && Elems(c) <= FreeOf(d0, nb)
    && Used(d, nb) == Used(d0, nb) + Elems(c)
    && OnlyTouches(d0, d, nb, Elems(c)) && d[1] == d0[1]
    && (forall k | 0 <= k < |c| :: 2 + nb <= c[k] < |d| && ZeroPayload(d[c[k]]))
    && (forall k | 0 <= k < |c| - 1 :: Link(d[c[k]]) == c[k + 1])
    && (0 < |c| < count ==> IsLeastFree(Used(d, nb), BITS * nb, Link(d[c[|c| - 1]])))
    && TakesLeast(Used(d0, nb), BITS * nb, c) && Magic(d, c, count)
  }

  lemma NothingBuilt(d: Disk, nb: nat, count: nat)
    requires Shape(d, nb)
    ensures Building(d, d, nb, [], count)
  {
    hide Used, FreeOf;
    assert Elems([]) == {};
  }

  lemma BuiltMore(d0: Disk, d: Disk, d': Disk, nb: nat, c: seq<nat>, count: nat, n: nat)
    requires Shape(d0, nb) && Shape(d, nb) && Shape(d', nb) && |c| < count && Building(d0, d, nb, c, count)
    requires n in FreeOf(d, nb) && 2 + nb <= n && IsLeastFree(Used(d, nb), BITS * nb, n)
    requires Used(d', nb) == Used(d, nb) + {n} && OnlyTouches(d, d', nb, {n}) && d'[1] == d[1]
    requires ZeroPayload(d'[n])
    requires |c| + 1 < count ==> IsLeastFree(Used(d', nb), BITS * nb, Link(d'[n]))
    requires d'[n][0] == 0xFF <==> |c| == count - 1 || Link(d'[n]) % BITS >= 8
    ensures Building(d0, d', nb, c + [n], count)
  {
    hide Used, Link, LastSize, ZeroPayload, Distinct, Magic, TakesLeast, IsLeastFree, OnlyTouches;
    var c' := c + [n];
    TouchedAlso(d0, d, d', nb, Elems(c), {n});
    assert Elems(c') == Elems(c) + {n};
    assert n < |d| && n !in Used(d, nb) && n in FreeOf(d0, nb);
    DistinctMore(c, n);
    Beside(d, d', nb, c, n);
    assert forall k | 0 <= k < |c| :: c'[k] == c[k] && d'[c[k]] == d[c[k]];
    if c != [] {
      LeastFreeIsUnique(Used(d, nb), BITS * nb, n, Link(d[c[|c| - 1]]));
      assert Link(d'[c'[|c| - 1]]) == c'[|c|];
    }
    TakesLeastMore(Used(d0, nb), BITS * nb, c, n);
    MagicMore(d, d', c, n, count);
  }

  lemma TouchedAlso(d0: Disk, d: Disk, d': Disk, nb: nat, a: set<nat>, b: set<nat>)
    requires OnlyTouches(d0, d, nb, a) && OnlyTouches(d, d', nb, b)
    ensures |d| == |d0| && OnlyTouches(d0, d', nb, a + b)
  {
  }

  lemma Beside(d: Disk, d': Disk, nb: nat, c: seq<nat>, n: nat)
    requires OnlyTouches(d, d', nb, {n}) && n !in Elems(c) && forall k | 0 <= k < |c| :: 2 + nb <= c[k] < |d|
    ensures |d'| == |d| && forall k | 0 <= k < |c| :: c[k] != n && d'[c[k]] == d[c[k]]
  {
    forall k | 0 <= k < |c| ensures c[k] != n {
      assert c[k] in Elems(c);
    }
  }

  lemma DistinctMore(c: seq<nat>, n: nat)
    requires Distinct(c) && n !in Elems(c)
    ensures Distinct(c + [n])
  {
  }

  // A finished chain is the chain of a file of zeros.
  lemma BuiltFile(d0: Disk, d: Disk, nb: nat, c: seq<nat>, size: nat)
    requires Shape(d0, nb) && Shape(d, nb) && Building(d0, d, nb, c, |c|) && size > 0 && |c| == Sectors(size)
    requires |c| > 0 && c[|c| - 1] < |d| && Link(d[c[|c| - 1]]) == 0 && LastSize(d[c[|c| - 1]]) == size % PAYLOAD
    ensures Chained(d, c, size) && size <= PAYLOAD * |c|
    ensures Data(d, c, size) == Zeros(size)
  {
    hide Used, Link, LastSize, FreeOf, IsLeastFree;
    SectorsHold(size);
    forall k | 0 <= k < size ensures ByteAt(d, c, k) == 0 {
      assert k / PAYLOAD < |c| && ZeroPayload(d[c[k / PAYLOAD]]);
    }
  }

  function Zeros(n: nat): (r: seq<u8>)
    ensures |r| == n && forall k | 0 <= k < n :: r[k] == 0
  {
    if n == 0 then [] else Zeros(n - 1) + [0]
  }

  // Bytes outside the sixteen of entry e belong to the header and the other entries.
  lemma EntryPlaced(dir: seq<u8>, dir': seq<u8>, e: nat)
    requires |dir| == SECTOR && |dir'| == SECTOR && 1 <= e < ENTRIES
    requires forall k | 0 <= k < SECTOR && !(16 * e <= k < 16 * e + 16) :: dir'[k] == dir[k]
    ensures OnlyEntry(dir, dir', e) && dir'[0] == dir[0]
  {
    forall f: nat | 1 <= f < ENTRIES && f != e
      ensures First(dir', f) == First(dir, f) && Count(dir', f) == Count(dir, f) && NameAt(dir', f) == NameAt(dir, f)
    {
      assert forall k | 16 * f <= k < 16 * f + 16 :: dir'[k] == dir[k];
    }
  }

  // What the invariant says of one file.
  lemma FileFacts(d: Disk, nb: nat, table: seq<Entry>, owner: map<nat, (nat, nat)>, e: nat)
    requires Inv(d, nb, table, owner) && e < |table| && table[e].File?
    ensures var c := table[e].chain;
            && Shape(d, nb) && |table| == ENTRIES && ChainsOk(d, table)
            && 1 <= e && |c| > 0 && Distinct(c) && Chained(d, c, table[e].size)
            && (forall k | 0 <= k < |c| :: 2 + nb <= c[k] < |d|)
            && (forall k | 0 <= k < |c| - 1 :: Link(d[c[k]]) == c[k + 1])
            && First(d[1], e) == c[0] && Count(d[1], e) == |c| && Elems(c) <= owner.Keys
            && Elems(c) !! Reserved(nb) && table[e].name != NO_NAME
  {
    hide Used, NamesDiffer, Link, LastSize, First, Count, NameAt, Sectors;
    assert Chained(d, table[e].chain, table[e].size);
    FirstSectorIsSet(d, nb, table, owner, e);
    ChainIsOwned(table, owner, nb, |d|, e);
    assert e > 0;
    assert EntryMatches(d[1], e, table[e]);
    assert table[e].chain == ChainOf(table[e]);
  }

  lemma ChainEnds(d: Disk, c: seq<nat>, size: nat)
    requires WholeSectors(d) && Chained(d, c, size)
    ensures size > 0 && |c| == Sectors(size) && |c| > 0 && PAYLOAD * (|c| - 1) < size <= PAYLOAD * |c|
    ensures forall k | 0 <= k < |c| :: c[k] < |d|
    ensures forall k | 0 <= k < |c| - 1 :: Link(d[c[k]]) == c[k + 1]
    ensures Link(d[c[|c| - 1]]) == 0 && LastSize(d[c[|c| - 1]]) == size % PAYLOAD
  {
    hide Link, LastSize;
    SectorsHold(size);
  }

  // What the invariant says of any entry, used or not.
  lemma EntryFacts(d: Disk, nb: nat, table: seq<Entry>, owner: map<nat, (nat, nat)>, e: nat)
    requires Inv(d, nb, table, owner) && 1 <= e < ENTRIES
    ensures var c := ChainOf(table[e]);
            && Shape(d, nb) && |table| == ENTRIES && ChainsOk(d, table)
            && Distinct(c) && Count(d[1], e) == |c|
            && (forall k | 0 <= k < |c| :: 2 + nb <= c[k] < |d|)
            && (forall k | 0 <= k < |c| - 1 :: Link(d[c[k]]) == c[k + 1])
            && First(d[1], e) == (if table[e].File? then c[0] else 0)
            && Elems(c) <= owner.Keys && Elems(c) !! Reserved(nb)
            && Slots(d, table)[e].Empty? == table[e].Free?
  {
    hide Used, NamesDiffer, ChainsOk, Indexed, Grounded, First, Count, NameAt, Link, LastSize, Sectors, Chained;
    if table[e].File? {
      FileFacts(d, nb, table, owner, e);
    } else {
      assert EntryMatches(d[1], e, table[e]);
    }
  }

  // Which entries the search by first sector can stop at.
  lemma SearchFacts(d: Disk, nb: nat, table: seq<Entry>, owner: map<nat, (nat, nat)>, first: nat)
    requires Inv(d, nb, table, owner)
    ensures |table| == ENTRIES && table[0].Free? && Shape(d, nb) && ChainsOk(d, table)
    ensures forall e: nat | 1 <= e < ENTRIES && table[e].File? ::
              |table[e].chain| > 0 && (First(d[1], e) == first <==> table[e].chain[0] == first)
    ensures forall e: nat, g: nat | 1 <= e < ENTRIES && 1 <= g < ENTRIES && table[e].File? && table[g].File?
              && |table[e].chain| > 0 && table[e].chain[0] == first && First(d[1], g) == first :: e == g
    ensures forall e: nat, g: nat | 1 <= e < ENTRIES && 1 <= g < ENTRIES && table[e].File? && table[g].Free?
              && First(d[1], e) == first :: First(d[1], g) != first
  {
    hide Used, NamesDiffer, ChainsOk, First, Count, NameAt, EntryMatches, Indexed, Grounded;
    forall e: nat | 1 <= e < ENTRIES && table[e].File?
      ensures |table[e].chain| > 0 && (First(d[1], e) == first <==> table[e].chain[0] == first)
      ensures First(d[1], e) != 0
    {
      FreeIffZero(d, nb, table, owner, e);
      FirstSectorIsSet(d, nb, table, owner, e);
    }
    forall g: nat | 1 <= g < ENTRIES && table[g].Free? ensures First(d[1], g) == 0 {
      FreeIffZero(d, nb, table, owner, g);
    }
    forall e: nat | 1 <= e < ENTRIES && table[e].File? && table[e].chain[0] == first
      ensures forall g: nat | 1 <= g < ENTRIES :: First(d[1], g) == first <==> g == e
    {
      OnlyEntryWithFirst(d, nb, table, owner, e);
    }
  }

  lemma OnlyEntryWithFirst(d: Disk, nb: nat, table: seq<Entry>, owner: map<nat, (nat, nat)>, e: nat)
    requires Inv(d, nb, table, owner) && e < ENTRIES && table[e].File?
    ensures 1 <= e && |table[e].chain| > 0
    ensures forall i: nat | 1 <= i < ENTRIES :: First(d[1], i) == table[e].chain[0] <==> i == e
  {
    hide Used, NamesDiffer, ChainsOk, First, Count, NameAt, Grounded;
    assert e > 0;
    assert EntryMatches(d[1], e, table[e]);
    FirstSectorIsSet(d, nb, table, owner, e);
    forall i: nat | 1 <= i < ENTRIES ensures First(d[1], i) == table[e].chain[0] <==> i == e {
      FreeIffZero(d, nb, table, owner, i);
      if table[i].File? {
        FirstSectorIsSet(d, nb, table, owner, i);
        assert owner[ChainOf(table[i])[0]] == (i, 0) && owner[ChainOf(table[e])[0]] == (e, 0);
      }
    }
  }

  lemma StillLinked(d0: Disk, d: Disk, nb: nat, c: seq<nat>, i: nat)
    requires WholeSectors(d0) && WholeSectors(d) && Distinct(c) && i < |c| && OnlyTouches(d0, d, nb, Elems(c[..i]))
    requires forall k | 0 <= k < |c| :: 2 + nb <= c[k] < |d0|
    ensures c[i] !in Elems(c[..i]) && d[c[i]] == d0[c[i]]
  {
  }

  lemma FreedMore(d0: Disk, d: Disk, d': Disk, nb: nat, c: seq<nat>, i: nat)
    requires Shape(d0, nb) && Shape(d, nb) && Shape(d', nb) && Distinct(c) && i < |c|
    requires OnlyTouches(d0, d, nb, Elems(c[..i])) && OnlyTouches(d, d', nb, {c[i]})
    requires Used(d, nb) == Used(d0, nb) - Elems(c[..i]) && Used(d', nb) == Used(d, nb) - {c[i]}
    ensures OnlyTouches(d0, d', nb, Elems(c[..i + 1])) && Used(d', nb) == Used(d0, nb) - Elems(c[..i + 1])
  {
    hide Used;
    assert Elems(c[..i + 1]) == Elems(c[..i]) + {c[i]};
  }

  // The first i sectors of a chain are all zeros.
  ghost predicate Zeroed(d: Disk, c: seq<nat>, i: nat)
    requires WholeSectors(d)
  {
    i <= |c| && forall k, j | 0 <= k < i && 0 <= j < SECTOR :: c[k] < |d| && d[c[k]][j] == 0
  }

  lemma NoneZeroed(d: Disk, c: seq<nat>)
    requires WholeSectors(d)
    ensures Zeroed(d, c, 0)
  {
  }

  lemma ZeroedMore(d: Disk, d': Disk, nb: nat, c: seq<nat>, i: nat)
    requires WholeSectors(d) && WholeSectors(d') && Distinct(c) && i < |c| && Zeroed(d, c, i)
    requires forall k | 0 <= k < |c| :: 2 + nb <= c[k] < |d|
    requires OnlyTouches(d, d', nb, {c[i]}) && forall j | 0 <= j < SECTOR :: d'[c[i]][j] == 0
    ensures Zeroed(d', c, i + 1)
  {
  }

  lemma DeletedEntry(d: Disk, d': Disk, nb: nat, table: seq<Entry>, owner: map<nat, (nat, nat)>, e: nat)
    requires Inv(d, nb, table, owner) && Shape(d', nb) && 1 <= e < |table|
    requires OnlyTouches(d, d', nb, Elems(ChainOf(table[e])))
    requires Used(d', nb) == Used(d, nb) - Elems(ChainOf(table[e]))
    requires OnlyEntry(d[1], d'[1], e) && EntryMatches(d'[1], e, Free)
    ensures Inv(d', nb, table[e := Free], Reown(owner, e, ChainOf(table[e]), []))
    ensures Slots(d', table[e := Free]) == Slots(d, table)[e := Empty]
    ensures FreeOf(d', nb) == FreeOf(d, nb) + Elems(ChainOf(table[e])) && |d'| == |d|
  {
    hide Used, Inv, Chained, EntryMatches, OnlyEntry, Slots, OnlyTouches, ChainsOk, FreeOf, Reown;
    SearchFacts(d, nb, table, owner, 0);
    EntryFacts(d, nb, table, owner, e);
    var chain := ChainOf(table[e]);
    assert Elems([]) == {} && Elems(chain) + Elems([]) == Elems(chain);
    assert Used(d', nb) == Used(d, nb) - Elems(chain) + Elems([]);
    assert Takes(d, nb, owner, chain, []) && NewName(table, e, Free);
    ReplaceEntry(d, d', nb, table, owner, e, Free);
    SameTotal(d, d', nb, Elems(chain));
    FreedSectors(d, d', nb, Elems(chain));
  }

  lemma SameTotal(d: Disk, d': Disk, nb: nat, touched: set<nat>)
    requires OnlyTouches(d, d', nb, touched)
    ensures |d| == |d'|
  {
  }

  lemma FreedSectors(d: Disk, d': Disk, nb: nat, gone: set<nat>)
    requires Shape(d, nb) && Shape(d', nb) && |d| == |d'|
    requires Used(d', nb) == Used(d, nb) - gone && forall n | n in gone :: n < |d|
    ensures FreeOf(d', nb) == FreeOf(d, nb) + gone
  {
    hide Used;
  }

  // A chain leaves out sector 0 at least, so its length fits a directory entry with room for one more.
  lemma ChainIsShort(d: Disk, nb: nat, c: seq<nat>)
    requires Shape(d, nb) && Distinct(c) && forall k | 0 <= k < |c| :: 2 + nb <= c[k] < |d|
    ensures |c| < |d| < 0x1_0000
  {
    DistinctCount(c);
    NumbersCount(|d|);
    SubsetCount(Elems(c), Numbers(|d|) - {0});
  }

  // ---------- creating ----------

  lemma RoomFacts(d: Disk, nb: nat, table: seq<Entry>, owner: map<nat, (nat, nat)>)
    requires Inv(d, nb, table, owner)
    ensures Shape(d, nb) && |table| == ENTRIES && ChainsOk(d, table) && Reserved(nb) <= Used(d, nb)
    ensures |FreeOf(d, nb)| <= |d|
  {
    hide ChainsOk, Used, NamesDiffer, Indexed, Grounded, DirectoryOk;
    NumbersCount(|d|);
    SubsetCount(FreeOf(d, nb), Numbers(|d|));
  }

  lemma SameFree(d: Disk, d': Disk, nb: nat)
    requires Shape(d, nb) && Shape(d', nb) && |d| == |d'| && Used(d', nb) == Used(d, nb)
    ensures FreeOf(d', nb) == FreeOf(d, nb)
  {
  }

  // Where the files were t, their contents slots and the free sectors `free`, entry e is a file of
  // zeros now, in sectors that were free.
  ghost predicate FileMade(t: seq<Entry>, slots: seq<Slot>, free: set<nat>, d: Disk, nb: nat, table: seq<Entry>, e: nat,
                           name: Name, size: nat)
    requires WholeSectors(d) && Covers(d, nb) && ChainsOk(d, table)
  {
    && e < |t| == |slots| == |table| && table[e].File? && table == t[e := File(name, table[e].chain, size)]
    && Elems(table[e].chain) <= free && FreeOf(d, nb) == free - Elems(table[e].chain)
    && Slots(d, table) == slots[e := Holds(name, Zeros(size))]
    && LeastOf(free, table[e].chain) && MagicKept(d, table[e].chain)
  }

  // The directory sector d1 announces the file whose chain was then built in d.
  lemma CreatedEntry(d0: Disk, d1: Disk, d: Disk, nb: nat, table: seq<Entry>, owner: map<nat, (nat, nat)>,
                     e: nat, name: Name, size: nat, c: seq<nat>, first: nat)
    requires Inv(d0, nb, table, owner) && 1 <= e < |table| && table[e].Free? && name != NO_NAME
    requires forall g: nat | g < |table| && table[g].File? :: table[g].name != name
    requires Shape(d1, nb) && d1 == d0[1 := d1[1]] && Used(d1, nb) == Used(d0, nb)
    requires OnlyEntry(d0[1], d1[1], e) && NameAt(d1[1], e) == name
    requires First(d1[1], e) == first && Count(d1[1], e) == |c|
    requires IsLeastFree(Used(d0, nb), BITS * nb, first)
    requires Shape(d, nb) && Building(d1, d, nb, c, |c|) && size > 0 && |c| == Sectors(size)
    requires Link(d[c[|c| - 1]]) == 0 && LastSize(d[c[|c| - 1]]) == size % PAYLOAD
    ensures Distinct(c) && |c| > 0 && Inv(d, nb, table[e := File(name, c, size)], Reown(owner, e, [], c))
    ensures FileMade(table, Slots(d0, table), FreeOf(d0, nb), d, nb, table[e := File(name, c, size)], e, name, size)
    ensures d[0] == d0[0]
  {
    hide Inv, Used, Chained, Slots, Reown, Link, LastSize, ZeroPayload, OnlyEntry, FreeOf, First, Count, NameAt, Data;
    RoomFacts(d0, nb, table, owner);
    SectorsHold(size);
    LeastTaken(d1, nb, c);
    LeastFreeIsUnique(Used(d0, nb), BITS * nb, first, c[0]);
    MagicOfFile(d, c);
    BuiltFile(d1, d, nb, c, size);
    SameFree(d0, d1, nb);
    assert Elems([]) == {} && Elems([]) + Elems(c) == Elems(c);
    FreshSectors(d0, nb, table, owner, c);
    assert Used(d, nb) == Used(d0, nb) - Elems([]) + Elems(c);
    ReplaceEntry(d0, d, nb, table, owner, e, File(name, c, size));
    TakenSectors(d0, d, nb, Elems(c));
  }

  lemma FreshSectors(d: Disk, nb: nat, table: seq<Entry>, owner: map<nat, (nat, nat)>, c: seq<nat>)
    requires Inv(d, nb, table, owner) && Distinct(c) && Elems(c) <= FreeOf(d, nb)
    ensures Takes(d, nb, owner, [], c)
  {
    forall n | n in c ensures 2 + nb <= n < |d| && n !in owner {
      assert n in FreeOf(d, nb) && n !in Reserved(nb);
    }
  }

  lemma TakenSectors(d: Disk, d': Disk, nb: nat, taken: set<nat>)
    requires Shape(d, nb) && Shape(d', nb) && |d| == |d'| && Used(d', nb) == Used(d, nb) + taken
    ensures FreeOf(d', nb) == FreeOf(d, nb) - taken
  {
    hide Used;
  }

  lemma OneOfTheName(d: Disk, nb: nat, table: seq<Entry>, owner: map<nat, (nat, nat)>, e: nat, g: nat)
    requires Inv(d, nb, table, owner) && e < |table| && g < |table| && table[e].File? && table[g].File?
    requires table[e].name == table[g].name
    ensures e == g
  {
  }

  // Slot 0 of the directory holds no file.
  lemma HeaderSlot(d: Disk, nb: nat, table: seq<Entry>, owner: map<nat, (nat, nat)>)
    requires Inv(d, nb, table, owner)
    ensures Shape(d, nb) && |table| == ENTRIES && table[0].Free? && ChainsOk(d, table)
    ensures table[0 := Free] == table && Slots(d, table)[0 := Empty] == Slots(d, table)
  {
    hide Used, Indexed, Grounded, NamesDiffer, Chained;
  }

  // The entry found by name is the one its first sector leads back to, and freeing its chain makes
  // room for as many sectors.
  lemma GoneIsFree(d: Disk, nb: nat, table: seq<Entry>, owner: map<nat, (nat, nat)>, e: nat)
    requires Inv(d, nb, table, owner) && e < |table| && table[e].File?
    ensures |FreeOf(d, nb) + Elems(table[e].chain)| == |FreeOf(d, nb)| + |table[e].chain|
    ensures forall f: nat | f < |table| && f != e && table[f].File? :: table[f].name != table[e].name
    ensures |table[e].chain| > 0
    ensures forall f: nat | f < |table| && table[f].File? && |table[f].chain| > 0
              && table[f].chain[0] == table[e].chain[0] :: f == e
  {
    FileFacts(d, nb, table, owner, e);
    DistinctCount(table[e].chain);
    OwnedIsUsed(d, nb, table, owner, table[e].chain);
    hide Inv, Used, Chained, FreeOf, Elems;
    SearchFacts(d, nb, table, owner, table[e].chain[0]);
    forall f: nat | f < |table| && table[f].File? && |table[f].chain| > 0 && table[f].chain[0] == table[e].chain[0]
      ensures f == e
    {
      assert 1 <= f < ENTRIES;
      assert First(d[1], f) == table[e].chain[0];
    }
    forall f: nat | f < |table| && f != e && table[f].File? ensures table[f].name != table[e].name {
      if table[f].name == table[e].name {
        OneOfTheName(d, nb, table, owner, e, f);
      }
    }
  }

  lemma OwnedIsUsed(d: Disk, nb: nat, table: seq<Entry>, owner: map<nat, (nat, nat)>, c: seq<nat>)
    requires Inv(d, nb, table, owner) && Elems(c) <= owner.Keys
    ensures FreeOf(d, nb) !! Elems(c)
  {
    hide ChainsOk, DirectoryOk, Indexed, Grounded, NamesDiffer;
  }

  // ---------- reading ----------

  // What ryfs_get_size returns for a file of `size` bytes.
  function StoredSize(size: nat): nat
    requires size > 0
  {
    PAYLOAD * (Sectors(size) - 1) + size % PAYLOAD
  }

  // It is the size except when the last sector is full.
  lemma StoredSizeIsSize(size: nat)
    requires size > 0
    ensures StoredSize(size) == (if size % PAYLOAD == 0 then size - PAYLOAD else size)
  {
  }

  // n bytes from offset o of the payloads along a chain, joined.
  ghost function Payload(d: Disk, chain: seq<nat>, o: nat, n: nat): (r: seq<u8>)
    requires WholeSectors(d) && o + n <= PAYLOAD * |chain| && forall k | 0 <= k < |chain| :: chain[k] < |d|
    ensures |r| == n
  {
    Data(d, chain, o + n)[o..]
  }

  lemma ReadMore(d: Disk, chain: seq<nat>, o: nat, p: nat, n: nat)
    requires WholeSectors(d) && forall k | 0 <= k < |chain| :: chain[k] < |d|
    requires o <= p && p + n <= PAYLOAD * |chain| && 0 < n && p % PAYLOAD + n <= PAYLOAD
    ensures p / PAYLOAD < |chain|
    ensures var at := HEADER + p % PAYLOAD;
            Payload(d, chain, o, p + n - o) == Payload(d, chain, o, p - o) + d[chain[p / PAYLOAD]][at..at + n]
  {
    var s := d[chain[p / PAYLOAD]];
    var at := HEADER + p % PAYLOAD;
    forall q | p <= q < p + n ensures ByteAt(d, chain, q) == s[at..at + n][q - p] {
      WithinSector(p, q - p);
    }
  }

  // One round of the loops of ryfs_read and ryfs_write, which goes no further than the end of a sector.
  lemma Round(p: nat, size: nat, n: nat, length: nat)
    requires 0 < size && p + size <= PAYLOAD * length
    requires n == if PAYLOAD - p % PAYLOAD >= size then size else PAYLOAD - p % PAYLOAD
    ensures 0 < n <= size && p % PAYLOAD + n <= PAYLOAD
    ensures (p % PAYLOAD + size + 505) / PAYLOAD - 1 == (size - n + 505) / PAYLOAD
    ensures p / PAYLOAD < length
    ensures n < size ==> (p + n) % PAYLOAD == 0 && (p + n) / PAYLOAD == p / PAYLOAD + 1 < length
  {
    if n < size {
      assert p + n == PAYLOAD * (p / PAYLOAD + 1);
    }
  }

  // Where these loops stand with `size` bytes to go from offset p on.
  predicate Rounds(count: int, modulo: int, size: int, p: nat) {
    && 0 <= count && 0 <= modulo && 0 <= size
    && count == (modulo + size + 505) / PAYLOAD && modulo == if size > 0 then p % PAYLOAD else 0
  }

  lemma RoundsBegin(size: nat, p: nat)
    requires size > 0
    ensures Rounds((p % PAYLOAD + size + 505) / PAYLOAD, p % PAYLOAD, size, p)
  {
  }

  lemma RoundsGoOn(count: int, modulo: int, size: int, p: nat)
    requires Rounds(count, modulo, size, p)
    ensures count > 0 <==> size > 0
    ensures count > 0 ==>
              var n := if PAYLOAD - modulo >= size then size else PAYLOAD - modulo;
              && modulo == p % PAYLOAD && 0 < n <= size && modulo + n <= PAYLOAD && Rounds(count - 1, 0, size - n, p + n)
              && (n < size ==> (p + n) % PAYLOAD == 0 && (p + n) / PAYLOAD == p / PAYLOAD + 1)
  {
    if size > 0 {
      Round(p, size, if PAYLOAD - modulo >= size then size else PAYLOAD - modulo, p + size);
    }
  }

  lemma NextSector(p: nat, size: nat, n: nat)
    requires 0 < size && n == if PAYLOAD - p % PAYLOAD >= size then size else PAYLOAD - p % PAYLOAD
    ensures 0 < n <= size
    ensures n < size ==> (p + n) / PAYLOAD == p / PAYLOAD + 1
  {
    Round(p, size, n, p + size);
  }

  // With bytes to go from offset p on, `sector` is the one of chain c that holds p.
  predicate Reached(c: seq<nat>, p: nat, left: int, sector: nat) {
    left > 0 ==> p / PAYLOAD < |c| && sector == c[p / PAYLOAD]
  }

  lemma ReachedFirst(c: seq<nat>, p: nat, left: nat)
    requires p / PAYLOAD < |c|
    ensures Reached(c, p, left, c[p / PAYLOAD])
  {
  }

  // It leads to the next one.
  lemma ReachedOne(d: Disk, c: seq<nat>, p: nat, left: nat, sector: nat)
    requires WholeSectors(d) && Reached(c, p, left, sector) && 0 < left && p + left <= PAYLOAD * |c|
    requires forall k | 0 <= k < |c| :: c[k] < |d|
    requires forall k | 0 <= k < |c| - 1 :: Link(d[c[k]]) == c[k + 1]
    ensures p / PAYLOAD < |c| && sector == c[p / PAYLOAD]
    ensures var n := if PAYLOAD - p % PAYLOAD >= left then left else PAYLOAD - p % PAYLOAD;
            Reached(c, p + n, left - n, Link(d[sector]))
  {
    hide Link;
    var n := if PAYLOAD - p % PAYLOAD >= left then left else PAYLOAD - p % PAYLOAD;
    Round(p, left, n, |c|);
  }

  lemma WithinSector(p: nat, k: nat)
    requires p % PAYLOAD + k < PAYLOAD
    ensures (p + k) / PAYLOAD == p / PAYLOAD && (p + k) % PAYLOAD == p % PAYLOAD + k
  {
  }
}
