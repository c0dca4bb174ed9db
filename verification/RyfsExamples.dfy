/** Disks on which the RYFS driver falls short of what is wanted of it. */
module RyfsExamples {
  import opened Bytes
  import opened Devices
  import opened Sequences
  import opened RyfsDisk
  import opened RyfsTable
  import opened RyfsGrowth
  import opened RyfsStray
  import opened Ryfs

  function BlankDisk(total: nat): (d: Disk)
    ensures |d| == total && WholeSectors(d)
  {
    if total == 0 then [] else BlankDisk(total - 1) + [Zeros(SECTOR)]
  }

  lemma TwoSectorsFree(free: set<nat>)
    requires 3 in free && 4 in free
    ensures |free| >= 2
  {
    SubsetCount({3, 4}, free);
  }

  // The first sectors taken on a new disk are 3 and 4.
  lemma FirstTwo(free: set<nat>, c: seq<nat>)
    requires 3 in free && 4 in free && forall n | n in free :: n >= 3
    requires Elems(c) <= free && Distinct(c) && LeastOf(free, c) && 1 <= |c| <= 2
    ensures c == if |c| == 1 then [3] else [3, 4]
  {
    hide LeastOf;
    assert c[0] in c && c[0] in free;
    Least(free, c, 0, 3);
    if |c| == 2 {
      assert c[1] in c && c[1] in free && c[..1] == [3];
      Least(free, c, 1, 4);
    }
  }

  lemma Least(free: set<nat>, c: seq<nat>, k: nat, n: nat)
    requires LeastOf(free, c) && k < |c| && n in free
    ensures n < c[k] ==> n in c[..k]
  {
  }

  method NewDisk(total: nat) returns (disk: Driver)
    requires 3 < total <= 4096
    ensures fresh(disk) && fresh(disk.buf) && disk.Valid() && disk.nb == 1 && disk.table == FreeTable(ENTRIES)
    ensures forall n: nat :: n in FreeOf(disk.sectors, disk.nb) <==> 3 <= n < total
  {
    hide Inv, Used, Slots, FreeOf;
    disk := new Driver(BlankDisk(total));
    disk.Format(total);
  }

  // A new disk of 16 sectors with one file, of one or two sectors of zeros.
  method DiskWithAFile(name: Name, size: nat) returns (disk: Driver, f: RomFile)
    requires name != NO_NAME && 0 < size <= 1012
    ensures fresh(disk) && fresh(disk.buf) && fresh(f)
    ensures disk.Valid() && disk.nb == 1 && |disk.table| == ENTRIES && disk.Refers(f, 1) && f.seekOffset == 0
    ensures disk.table[1] == File(name, if size <= 506 then [3] else [3, 4], size)
    ensures Slots(disk.sectors, disk.table)[1] == Holds(name, Zeros(size))
    ensures MagicKept(disk.sectors, disk.table[1].chain) && |FreeOf(disk.sectors, disk.nb)| > 0
  {
    hide Inv, Used, Slots, Chained, FreeOf, ChainsOk, MagicKept, LeastOf;
    disk := NewDisk(16);
    ghost var t: seq<Entry>, free := disk.table, FreeOf(disk.sectors, disk.nb);
    TwoSectorsFree(free);
    f := new RomFile();
    ghost var e, gone;
    var r;
    r, e, gone := disk.Create(name, f, size);
    assert gone == 0 && t[0 := Free][1].Free?;
    assert t[0 := Free] == t && Elems([]) == {} && free + {} == free;
    FileFacts(disk.sectors, disk.nb, disk.table, disk.owner, 1);
    ChainEnds(disk.sectors, disk.table[1].chain, size);
    FirstTwo(free, disk.table[1].chain);
    assert 5 in FreeOf(disk.sectors, disk.nb);
  }

  // A sector that loses its magic byte: the first of two, whose link is 4.
  method LosesMagic(name: Name) returns (first: seq<u8>)
    requires name != NO_NAME
    ensures |first| == SECTOR && Link(first) == 4 && first[0] != 0xFF
  {
    hide Inv, Used, Slots, Chained, FreeOf, ChainsOk, Link, LastSize;
    var disk, f := DiskWithAFile(name, 1000);
    FileFacts(disk.sectors, disk.nb, disk.table, disk.owner, 1);
    ghost var c: seq<nat> := disk.table[1].chain;
    assert c[0] == 3 && c[1] == 4;
    first := disk.sectors[3];
  }

  // A write that goes astray: 506 bytes written at offset 506 of a file of 1000 bytes overwrite the boot
  // sector.
  method WriteAtABoundary(name: Name, source: array<u8>) returns (astray: bool, boot: seq<u8>)
    requires name != NO_NAME && source.Length == 506
    ensures astray && |boot| == SECTOR && boot[HEADER..] == source[..]
  {
    hide Inv, Used, Slots, Chained, FreeOf, ChainsOk, Overwrite, Data, Written, Diverted, KeepsPayloads, HoldsWritten;
    var disk, f := DiskWithAFile(name, 1000);
    f.seekOffset := 506;
    var stray, from, n;
    ghost var mid;
    astray, stray, from, n, mid := disk.WriteUntilAstray(506, f, source, 1);
    boot := disk.sectors[0];
  }

  // 506 bytes written at the start of a new file of 506 bytes: the sector of the file stays zero, and a
  // second one with the bytes is linked behind it.
  method WriteOverAFullSector(name: Name, source: array<u8>)
    returns (astray: bool, first: seq<u8>, next: nat, second: seq<u8>, count: u16)
    requires name != NO_NAME && source.Length == 506
    ensures astray && |first| == SECTOR && Link(first) == next && first[HEADER..] == Zeros(506)
    ensures |second| == SECTOR && Link(second) == 0 && second[HEADER..] == source[..] && count == 2
  {
    hide Inv, Used, Slots, Chained, FreeOf, ChainsOk, Overwrite, Data, Written, KeepsPayloads, HoldsWritten,
      Count, First, NameAt, OnlyEntry, Link, LastSize;
    var disk, f := DiskWithAFile(name, 506);
    var from, n;
    ghost var mid;
    astray, next, from, n, mid := disk.WriteUntilAstray(506, f, source, 1);
    first, second, count := disk.sectors[3], disk.sectors[next], Count(disk.sectors[1], 1);
    assert disk.table[1].chain[Cut(1, 0)] == 3;
    PayloadOfOne(disk.sectors, 3);
    OverwriteNothing(Zeros(506), 0);
    OverwriteAll(Zeros(506), source[..]);
    assert source[..][..0] == [] && source[..][0..506] == source[..];
  }

  lemma PayloadOfOne(d: Disk, n: nat)
    requires WholeSectors(d) && n < |d|
    ensures Data(d, [n], PAYLOAD) == d[n][HEADER..]
  {
    forall k | 0 <= k < PAYLOAD ensures Data(d, [n], PAYLOAD)[k] == d[n][HEADER..][k] {
      assert k / PAYLOAD == 0 && k % PAYLOAD == k;
    }
  }

  lemma OverwriteAll(data: seq<u8>, bytes: seq<u8>)
    requires |data| == |bytes|
    ensures Overwrite(data, 0, bytes) == bytes
  {
  }

  // Ten bytes written inside the full last sector of a new file of 1012 bytes: what is left is a disk of no
  // table of files.
  method WriteInsideAFullSector(name: Name, source: array<u8>) returns (astray: bool, disk: Disk)
    requires name != NO_NAME && source.Length == 10
    ensures astray && forall table, owner :: !Inv(disk, 1, table, owner)
  {
    hide Inv, Used, Slots, Chained, FreeOf, ChainsOk, Overwrite, Data, Written, Diverted, KeepsPayloads, HoldsWritten;
    var driver, f := DiskWithAFile(name, 1012);
    f.seekOffset := 600;
    var stray, from, n;
    ghost var mid;
    astray, stray, from, n, mid := driver.WriteUntilAstray(10, f, source, 1);
    disk := driver.sectors;
    assert from == 0;
  }

  // ---------- a directory with a free entry that is not found ----------

  function Numbered(k: u8): Name {
    [k, 0, 0, 0, 0, 0, 0, 0, 0, 0, 0]
  }

  // Entries 1 to n are files with numbered names, and the others are free.
  ghost predicate Filled(t: seq<Entry>, n: nat) {
    && |t| == ENTRIES && t[0].Free? && (forall g: nat | n < g < ENTRIES :: t[g].Free?)
    && forall g: nat | 1 <= g <= n && g < ENTRIES :: t[g].File? && t[g].name == Numbered(g)
  }

  lemma FilledMore(t: seq<Entry>, n: nat, entry: Entry)
    requires Filled(t, n) && n + 1 < ENTRIES && entry.File? && entry.name == Numbered(n + 1)
    ensures Filled(t[n + 1 := entry], n + 1)
  {
  }

  lemma NotYetNamed(t: seq<Entry>, n: nat)
    requires Filled(t, n) && n + 1 < ENTRIES
    ensures Numbered(n + 1) != NO_NAME && t[0 := Free] == t
    ensures forall g: nat | g < |t| && t[g].File? :: t[g].name != Numbered(n + 1)
  {
    forall g: nat | g < |t| && t[g].File? ensures t[g].name != Numbered(n + 1) {
      assert Numbered(g)[0] == g;
    }
  }

  lemma FirstFree(t: seq<Entry>, n: nat, e: nat)
    requires Filled(t, n) && 1 <= e <= 30 && t[e].Free? && forall g: nat | 1 <= g < e :: t[g].File?
    ensures e == n + 1
  {
    if n < 30 {
      assert t[n + 1].Free?;
    }
  }

  lemma OneLess(free: set<nat>, c: seq<nat>)
    requires |c| == 1
    ensures |free - Elems(c)| >= |free| - 1
  {
    assert Elems(c) == {c[0]};
  }

  // One more file of one sector, as long as there is room for its entry among 1 to 30.
  method CreateNumbered(disk: Driver, f: RomFile, n: u8) returns (r: u16)
    requires disk.Valid() && n <= 30 && Filled(disk.table, n) && |FreeOf(disk.sectors, disk.nb)| >= 1
    modifies disk, disk.buf, f
    ensures disk.Valid() && disk.nb == old(disk.nb)
    ensures n < 30 ==> Filled(disk.table, n + 1)
    ensures n < 30 ==> |FreeOf(disk.sectors, disk.nb)| >= old(|FreeOf(disk.sectors, disk.nb)|) - 1
    ensures n == 30 ==> r == 0 && disk.table == old(disk.table)
    ensures n == 30 ==> FreeOf(disk.sectors, disk.nb) == old(FreeOf(disk.sectors, disk.nb))
  {
    hide Inv, Used, Slots, Chained, FreeOf, ChainsOk, MagicKept, LeastOf, Numbered;
    ghost var t, free := disk.table, FreeOf(disk.sectors, disk.nb);
    NotYetNamed(t, n);
    ghost var e, gone;
    r, e, gone := disk.Create(Numbered(n + 1), f, 1);
    assert gone == 0 && Elems([]) == {} && free + {} == free;
    if r != 0 {
      FirstFree(t, n, e);
      FileFacts(disk.sectors, disk.nb, disk.table, disk.owner, e);
      ChainEnds(disk.sectors, disk.table[e].chain, 1);
      OneLess(free, disk.table[e].chain);
      FilledMore(t, n, disk.table[e]);
    }
  }

  // With 30 files a 31st is refused, though entry 31 is free and half the disk is.
  method ThirtyFiles() returns (disk: Driver, r: u16)
    ensures fresh(disk) && disk.Valid() && r == 0
    ensures |disk.table| == ENTRIES && disk.table[31].Free? && |FreeOf(disk.sectors, disk.nb)| >= 31
  {
    hide Inv, FreeOf, Numbered;
    disk := NewDisk(64);
    var f := new RomFile();
    ManyFree(FreeOf(disk.sectors, disk.nb), 64);
    for n := 0 to 30
      invariant fresh(disk) && fresh(disk.buf) && disk.Valid() && Filled(disk.table, n)
      invariant |FreeOf(disk.sectors, disk.nb)| >= 61 - n
    {
      r := CreateNumbered(disk, f, n);
    }
    r := CreateNumbered(disk, f, 30);
  }

  lemma ManyFree(free: set<nat>, total: nat)
    requires total > 3 && forall n: nat :: n in free <==> 3 <= n < total
    ensures |free| == total - 3
  {
    hide Numbers;
    assert Numbers(total) == free + {0, 1, 2};
    NumbersCount(total);
  }
}
