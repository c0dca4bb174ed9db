/** The RYFS driver: every routine works through the one shared sector buffer, and is proved against
    the table of files. */
module Ryfs {
  import opened Bytes
  import opened Bitmaps
  import opened Devices
  import opened Sequences
  import opened RyfsDisk
  import opened RyfsTable
  import opened RyfsGrowth
  import opened RyfsStray

  class RomFile {
    var firstSector: u16
    var seekOffset: u32
    var reserved: u8

    constructor ()
    {
      firstSector, seekOffset, reserved := 0, 0, 0;
    }
  }

  // PUTSHORT on a value
  function WithShort(s: seq<u8>, o: nat, v: u16): (r: seq<u8>)
    requires o + 1 < |s|
    ensures |r| == |s| && Short(r, o) == v
  {
    s[o := v % 0x100][o + 1 := v / 0x100]
  }

  // The directory sector byte by byte.
  lemma DirectoryBytes(g: seq<u8>, nb: u8, size: u16, name: seq<u8>)
    requires |g| == SECTOR && |name| == 8 && forall k | 0 <= k < SECTOR :: g[k] == 0
    ensures var h := WithShort(g[0 := nb][1 := 1][2 := 82][3 := 89], 4, size);
            var b := h[..6] + name + h[14..];
            && |b| == SECTOR && b[0] == nb && b[1..4] == [1, 82, 89] && Short(b, 4) == size && b[6..14] == name
            && forall k | 16 <= k < SECTOR :: b[k] == 0
  {
    var h := WithShort(g[0 := nb][1 := 1][2 := 82][3 := 89], 4, size);
    var b := h[..6] + name + h[14..];
    assert h[0] == nb && h[1] == 1 && h[2] == 82 && h[3] == 89;
    assert forall k | 0 <= k < 6 :: b[k] == h[k];
    assert forall k | 0 <= k < 8 :: b[6 + k] == name[k];
    assert forall k | 14 <= k < SECTOR :: b[k] == h[k];
    assert b[1..4] == [b[1], b[2], b[3]];
  }

  class Driver {
    var sectors: Disk
    const buf: array<u8>          // TEMP_SECTOR_BUF
    ghost var nb: nat
    ghost var table: seq<Entry>
    ghost var owner: map<nat, (nat, nat)>

    ghost predicate Ready()
      reads `sectors, `nb
    {
      buf.Length == SECTOR && WholeSectors(sectors) && Shape(sectors, nb)
    }

    ghost predicate Valid()
      reads `sectors, `nb, `table, `owner
    {
      Ready() && Inv(sectors, nb, table, owner)
    }

    constructor (contents: Disk)
      requires WholeSectors(contents)
      ensures sectors == contents && buf.Length == SECTOR && fresh(buf)
    {
      buf := new u8[SECTOR];
      sectors := contents;
      nb, table, owner := 0, [], map[];
    }

    // ---------- the buffer ----------

    method ReadSector(n: nat)
      requires buf.Length == SECTOR && WholeSectors(sectors) && n < |sectors|
      modifies buf
      ensures buf[..] == sectors[n]
    {
      forall k | 0 <= k < SECTOR {
        buf[k] := sectors[n][k];
      }
    }

    method WriteSector(n: nat)
      requires buf.Length == SECTOR && WholeSectors(sectors) && n < |sectors|
      modifies this`sectors
      ensures WholeSectors(sectors) && sectors == old(sectors)[n := buf[..]]
    {
      sectors := sectors[n := buf[..]];
    }

    method GetShort(o: nat) returns (v: u16)
      requires o + 1 < buf.Length
      ensures v == Short(buf[..], o)
    {
      var lo: int, hi: int := buf[o], buf[o + 1];
      v := lo + 0x100 * hi;
    }

    method GetLink() returns (v: u16)
      requires buf.Length == SECTOR
      ensures v == Link(buf[..])
    {
      v := GetShort(2);
    }

    method GetLastSize() returns (v: u16)
      requires buf.Length == SECTOR
      ensures v == LastSize(buf[..])
    {
      v := GetShort(4);
    }

    method PutShort(o: nat, v: u16)
      requires o + 1 < buf.Length
      modifies buf
      ensures buf[..] == WithShort(old(buf[..]), o, v)
    {
      buf[o] := v % 0x100;
      buf[o + 1] := v / 0x100;
    }

    method PutHeader(link: u16, lastSize: u16)
      requires buf.Length == SECTOR
      modifies buf
      ensures Link(buf[..]) == link && LastSize(buf[..]) == lastSize
      ensures buf[6..] == old(buf[6..]) && buf[..2] == old(buf[..2])
    {
      PutShort(2, link);
      PutShort(4, lastSize);
    }

    method PutLastSize(lastSize: u16)
      requires buf.Length == SECTOR
      modifies buf
      ensures Link(buf[..]) == old(Link(buf[..])) && LastSize(buf[..]) == lastSize
      ensures buf[6..] == old(buf[6..]) && buf[..2] == old(buf[..2])
    {
      PutShort(4, lastSize);
    }

    // The clearing loops: every byte from offset `from` on.
    method ClearFrom(from: nat)
      requires buf.Length == SECTOR && from <= SECTOR
      modifies buf
      ensures buf[..from] == old(buf[..from]) && forall k | from <= k < SECTOR :: buf[k] == 0
    {
      var i := from;
      while i < SECTOR
        invariant from <= i <= SECTOR
        invariant buf[..from] == old(buf[..from])
        invariant forall k | from <= k < i :: buf[k] == 0
      {
        buf[i] := 0;
        i := i + 1;
      }
    }

    // A header before a payload of zeros.
    method PutHeaderAndClear(link: u16, lastSize: u16)
      requires buf.Length == SECTOR
      modifies buf
      ensures Link(buf[..]) == link && LastSize(buf[..]) == lastSize && ZeroPayload(buf[..])
      ensures buf[..2] == old(buf[..2])
    {
      PutHeader(link, lastSize);
      ghost var header := buf[..];
      ClearFrom(6);
      SameHeader(header, buf[..]);
      assert buf[..2] == buf[..6][..2] == header[..6][..2];
    }

    // ---------- the bitmap ----------

    // ryfs_find_free_sector: the least number the bitmap does not have, or 0.
    method FindFreeSector() returns (r: nat)
      requires Ready()
      modifies buf
      ensures r == 0 || IsLeastFree(Used(sectors, nb), BITS * nb, r)
      ensures r == 0 ==> 0 !in Used(sectors, nb) || forall n: nat | n < BITS * nb :: n in Used(sectors, nb)
      ensures r != 0 ==> buf[..] == sectors[2 + r / BITS]
    {
      hide Used;
      ReadSector(1);
      var totalBitmapSectors := buf[0];
      assert totalBitmapSectors == nb;
      var bitmapSector := 0;
      while bitmapSector < totalBitmapSectors
        invariant 0 <= bitmapSector <= nb
        invariant forall n: nat | n < BITS * bitmapSector :: n in Used(sectors, nb)
      {
        var bitmapByte := 0;
        ReadSector(bitmapSector + 2);
        ghost var s := sectors[bitmapSector + 2];
        while bitmapByte < 512
          invariant 0 <= bitmapByte <= 512 && buf[..] == s
          invariant forall m: nat | m < 8 * bitmapByte :: MapBit(s, m)
        {
          var firstClearBit := FindFirstClear(buf[bitmapByte]);
          if firstClearBit != 0xFF {
            r := bitmapSector * 4096 + bitmapByte * 8 + firstClearBit;
            FoundFree(sectors, nb, bitmapSector, s, bitmapByte, firstClearBit);
            return;
          }
          assert forall m: nat | 8 * bitmapByte <= m < 8 * bitmapByte + 8 :: MapBit(s, m);
          bitmapByte := bitmapByte + 1;
        }
        NoneFree(sectors, nb, bitmapSector, s);
        bitmapSector := bitmapSector + 1;
      }
      return 0;
    }

    // ryfs_mark_used
    method MarkUsed(n: nat)
      requires Ready() && n < BITS * nb
      modifies this`sectors, buf
      ensures Ready() && OnlyBitmap(old(sectors), sectors, nb)
      ensures Used(sectors, nb) == old(Used(sectors, nb)) + {n}
    {
      hide Used, Members;
      var bitmapSector := Ceil(n + 1, 4096) / 4096 + 1;
      var bitmapByte := (Ceil(n + 1, 8) / 8 - 1) % 512;
      var bitmapBit := n % 8;
      CeilFindsBit(n);
      ReadSector(bitmapSector);
      ghost var s := buf[..];
      SetBitAdds(s, n % BITS);
      buf[bitmapByte] := SetBit(buf[bitmapByte], bitmapBit);
      assert buf[..] == s[bitmapByte := SetBit(s[bitmapByte], bitmapBit)];
      UsedAfter(sectors, nb, n, buf[..], true);
      WriteSector(bitmapSector);
    }

    // ryfs_mark_free
    method MarkFree(n: nat)
      requires Ready() && n < BITS * nb
      modifies this`sectors, buf
      ensures Ready() && OnlyBitmap(old(sectors), sectors, nb)
      ensures Used(sectors, nb) == old(Used(sectors, nb)) - {n}
    {
      hide Used, Members;
      var bitmapSector := Ceil(n + 1, 4096) / 4096 + 1;
      var bitmapByte := (Ceil(n + 1, 8) / 8 - 1) % 512;
      var bitmapBit := n % 8;
      CeilFindsBit(n);
      ReadSector(bitmapSector);
      ghost var s := buf[..];
      ClearBitRemoves(s, n % BITS);
      buf[bitmapByte] := ClearBit(buf[bitmapByte], bitmapBit);
      assert buf[..] == s[bitmapByte := ClearBit(s[bitmapByte], bitmapBit)];
      UsedAfter(sectors, nb, n, buf[..], false);
      WriteSector(bitmapSector);
    }

    // ---------- the directory ----------

    ghost predicate Refers(f: RomFile, e: nat)
      reads `table, f`firstSector
    {
      e < |table| && table[e].File? && |table[e].chain| > 0 && f.firstSector == table[e].chain[0]
    }

    ghost predicate NotNamed(name: Name)
      reads `table
    {
      forall e: nat | e < |table| && table[e].File? :: table[e].name != name
    }

    // ryfs_open, of a disk that is inserted; e is the entry found.
    method Open(fileName: Name, f: RomFile) returns (r: u16, ghost e: nat)
      requires Valid()
      modifies buf, f
      ensures Valid()
      ensures r == 0 <==> NotNamed(fileName)
      ensures r != 0 ==> Refers(f, e) && table[e].name == fileName && f.firstSector == r
      ensures f.seekOffset == 0
    {
      f.seekOffset := 0;
      f.reserved := 0;
      ReadSector(1);
      ghost var dir := sectors[1];
      hide Inv;
      var tempPtr := 20;
      var i := 31;
      e := 1;
      while i > 0
        invariant 0 <= i <= 31 && e == 32 - i && tempPtr == 16 * e + 4
        invariant buf[..] == dir && f.seekOffset == 0
        invariant forall g: nat | 1 <= g < e :: NameAt(dir, g) != fileName
      {
        if buf[tempPtr..tempPtr + 11] == fileName {
          assert NameAt(dir, e) == fileName;
          f.firstSector := GetShort(tempPtr - 4);
          r := f.firstSector;
          FoundName(sectors, nb, table, owner, e, fileName);
          return;
        }
        assert NameAt(dir, e) == buf[tempPtr..tempPtr + 11];
        tempPtr := tempPtr + 16;
        i := i - 1;
        e := e + 1;
      }
      MissingName(sectors, nb, table, owner, fileName);
      return 0, e;
    }

    // ryfs_find_free_entry: the offset of the first unused of entries 1..30, or 0.
    method FindFreeEntry() returns (offset: nat)
      requires Valid()
      modifies buf
      ensures Valid()
      ensures offset == 0 ==> forall e: nat | 1 <= e <= 30 :: table[e].File?
      ensures offset != 0 ==> exists e: nat :: 1 <= e <= 30 && offset == 16 * e && table[e].Free?
                                              && forall g: nat | 1 <= g < e :: table[g].File?
    {
      ReadSector(1);
      ghost var dir := sectors[1];
      var i := 0;
      offset := 16;
      while i < 30
        invariant 0 <= i <= 30 && offset == 16 * (i + 1) && buf[..] == dir
        invariant forall g: nat | 1 <= g <= i :: table[g].File?
      {
        var first := GetShort(offset);
        FreeIffZero(sectors, nb, table, owner, i + 1);
        if first == 0 {
          return;
        }
        offset := offset + 16;
        i := i + 1;
      }
      return 0;
    }

    // ---------- ryfs_create ----------

    // One round of the loop of ryfs_create.  Looking up the link refills the buffer with a bitmap
    // sector, so the first two bytes of a sector that is not the last are whatever that one holds.
    method AllocateSector(last: bool, sizeInBytes: nat) returns (n: nat)
      requires Ready() && Reserved(nb) <= Used(sectors, nb)
      requires |FreeOf(sectors, nb)| >= if last then 1 else 2
      modifies this`sectors, buf
      ensures Ready() && n in old(FreeOf(sectors, nb)) && 2 + nb <= n
      ensures IsLeastFree(old(Used(sectors, nb)), BITS * nb, n)
      ensures Used(sectors, nb) == old(Used(sectors, nb)) + {n}
      ensures OnlyTouches(old(sectors), sectors, nb, {n}) && sectors[1] == old(sectors[1])
      ensures ZeroPayload(sectors[n])
      ensures last ==> Link(sectors[n]) == 0 && LastSize(sectors[n]) == sizeInBytes % 506
      ensures !last ==> IsLeastFree(Used(sectors, nb), BITS * nb, Link(sectors[n]))
      ensures sectors[n][..2] == if last then [0xFF, 0] else sectors[2 + Link(sectors[n]) / BITS][..2]
      ensures sectors[n][0] == 0xFF <==> last || Link(sectors[n]) % BITS >= 8
    {
      hide Used, FreeOf, Reserved, Link, LastSize, ZeroPayload, OnlyTouches, IsLeastFree;
      ghost var d := sectors;
      n := FindFreeSector();
      LeastFreeIsOnDisk(d, nb, n);
      MarkUsed(n);
      TakenIsLess(d, sectors, nb, n);
      ReadSector(n);
      buf[0] := 0xFF;
      buf[1] := 0;
      if !last {
        ghost var marked := sectors;
        var link := FindFreeSector();
        LeastFreeIsOnDisk(marked, nb, link);
        FirstByteFull(marked, nb, link);
        PutHeaderAndClear(link, 0);
      } else {
        PutHeaderAndClear(0, sizeInBytes % 506);
      }
      assert buf[0] == buf[..2][0];
      WroteSector(d, sectors, nb, n, buf[..]);
      WriteSector(n);
    }

    // The loop of ryfs_create: a chain of fresh sectors, each one the link its predecessor stored.
    method BuildChain(sizeInSectors: nat, sizeInBytes: nat) returns (ghost c: seq<nat>)
      requires Ready() && Reserved(nb) <= Used(sectors, nb)
      requires 1 <= sizeInSectors <= |FreeOf(sectors, nb)|
      modifies this`sectors, buf
      ensures Ready() && Building(old(sectors), sectors, nb, c, sizeInSectors) && |c| == sizeInSectors
      ensures Link(sectors[c[|c| - 1]]) == 0 && LastSize(sectors[c[|c| - 1]]) == sizeInBytes % 506
    {
      hide Used, FreeOf, Reserved, Link, LastSize, ZeroPayload;
      ghost var d0 := sectors;
      var sector := 0;
      c := [];
      NothingBuilt(d0, nb, sizeInSectors);
      while sector < sizeInSectors
        invariant Ready() && sector == |c| && Building(d0, sectors, nb, c, sizeInSectors)
        invariant Reserved(nb) <= Used(sectors, nb)
        invariant |FreeOf(sectors, nb)| >= sizeInSectors - |c|
        invariant sector == sizeInSectors ==>
                    Link(sectors[c[|c| - 1]]) == 0 && LastSize(sectors[c[|c| - 1]]) == sizeInBytes % 506
      {
        ghost var d := sectors;
        var n := AllocateSector(sector == sizeInSectors - 1, sizeInBytes);
        BuiltMore(d0, d, sectors, nb, c, sizeInSectors, n);
        TakenIsLess(d, sectors, nb, n);
        c := c + [n];
        sector := sector + 1;
      }
    }

    // The directory part of ryfs_create: entry e gets a first sector, a size in sectors and a name.
    method WriteEntry(ghost e: nat, firstFreeEntry: nat, firstFreeSector: nat, sizeInSectors: nat, fileName: Name)
      requires Ready() && 1 <= e < ENTRIES && firstFreeEntry == 16 * e
      requires firstFreeSector < 0x1_0000 && sizeInSectors < 0x1_0000
      modifies this`sectors, buf
      ensures Ready() && sectors == old(sectors)[1 := sectors[1]] && Used(sectors, nb) == old(Used(sectors, nb))
      ensures OnlyEntry(old(sectors[1]), sectors[1], e)
      ensures First(sectors[1], e) == firstFreeSector && Count(sectors[1], e) == sizeInSectors
      ensures NameAt(sectors[1], e) == fileName && sectors[1][16 * e + 15] == 0
    {
      ReadSector(1);
      ghost var dir := buf[..];
      PutShort(firstFreeEntry, firstFreeSector);
      PutShort(firstFreeEntry + 2, sizeInSectors);
      CopyBytes(fileName, firstFreeEntry + 4);
      buf[firstFreeEntry + 4 + 11] := 0;
      EntryPlaced(dir, buf[..], e);
      WriteSector(1);
    }

    // copy_memory_bytes of a file name, or copy_string, into the buffer
    method CopyBytes(bytes: seq<u8>, to: nat)
      requires to + |bytes| <= buf.Length
      modifies buf
      ensures buf[..] == old(buf[..])[..to] + bytes + old(buf[..])[to + |bytes|..]
    {
      var i := 0;
      while i < |bytes|
        invariant 0 <= i <= |bytes|
        invariant forall k | 0 <= k < buf.Length && !(to <= k < to + i) :: buf[k] == old(buf[k])
        invariant forall k | 0 <= k < i :: buf[to + k] == bytes[k]
      {
        buf[to + i] := bytes[i];
        i := i + 1;
      }
      assert forall k | to <= k < to + |bytes| :: buf[k] == bytes[k - to];
    }

    // The directory part of ryfs_delete: entry e is zeroed.
    method ClearEntry(e: nat)
      requires Ready() && 1 <= e < ENTRIES && buf[..] == sectors[1]
      modifies this`sectors, buf
      ensures Ready() && sectors == old(sectors)[1 := sectors[1]] && Used(sectors, nb) == old(Used(sectors, nb))
      ensures OnlyEntry(old(sectors[1]), sectors[1], e) && EntryMatches(sectors[1], e, Free)
    {
      ghost var dir := buf[..];
      var j := 0;
      while j < 16
        modifies buf
        invariant 0 <= j <= 16
        invariant forall k | 0 <= k < SECTOR && !(16 * e <= k < 16 * e + j) :: buf[k] == dir[k]
        invariant forall k | 16 * e <= k < 16 * e + j :: buf[k] == 0
      {
        buf[e * 16 + j] := 0;
        j := j + 1;
      }
      EntryPlaced(dir, buf[..], e);
      WriteSector(1);
    }

    // ---------- ryfs_delete ----------

    // The search of ryfs_delete for the entry of a file; 32 when there is none.
    method FindEntryOf(f: RomFile) returns (i: nat)
      requires Valid()
      modifies buf
      ensures 1 <= i <= 32 && buf[..] == sectors[1]
      ensures forall g: nat | 1 <= g < i :: First(sectors[1], g) != f.firstSector
      ensures i < 32 ==> First(sectors[1], i) == f.firstSector
    {
      ReadSector(1);
      ghost var dir := sectors[1];
      ghost var first := f.firstSector;
      hide Inv;
      i := 1;
      while i < 32
        invariant 1 <= i <= 32 && buf[..] == dir && f.firstSector == first
        invariant forall g: nat | 1 <= g < i :: First(dir, g) != first
      {
        var v := GetShort(i * 16);
        assert v == First(dir, i);
        if v == f.firstSector {
          break;
        }
        i := i + 1;
      }
    }

    // The freeing loop of ryfs_delete.
    method FreeChain(first: nat, sizeInSectors: nat, ghost c: seq<nat>)
      requires Ready() && Distinct(c) && |c| == sizeInSectors && (|c| > 0 ==> first == c[0])
      requires forall k | 0 <= k < |c| :: 2 + nb <= c[k] < |sectors|
      requires forall k | 0 <= k < |c| - 1 :: Link(sectors[c[k]]) == c[k + 1]
      modifies this`sectors, buf
      ensures Ready() && sectors[1] == old(sectors[1]) && OnlyTouches(old(sectors), sectors, nb, Elems(c))
      ensures Used(sectors, nb) == old(Used(sectors, nb)) - Elems(c)
      ensures Zeroed(sectors, c, |c|)
    {
      hide Used, Link, Zeroed;
      ghost var d0 := sectors;
      var sector := first;
      var i := 0;
      NoneZeroed(sectors, c);
      while i < sizeInSectors
        invariant 0 <= i <= sizeInSectors && Ready() && sectors[1] == d0[1]
        invariant i < sizeInSectors ==> sector == c[i]
        invariant OnlyTouches(d0, sectors, nb, Elems(c[..i]))
        invariant Used(sectors, nb) == Used(d0, nb) - Elems(c[..i])
        invariant Zeroed(sectors, c, i)
      {
        ghost var d := sectors;
        StillLinked(d0, d, nb, c, i);
        ReadSector(sector);
        var nextSector := GetLink();
        MarkFree(sector);
        ClearFrom(0);
        WroteSector(d, sectors, nb, sector, buf[..]);
        WriteSector(sector);
        FreedMore(d0, d, sectors, nb, c, i);
        ZeroedMore(d, sectors, nb, c, i);
        sector := nextSector;
        i := i + 1;
      }
      assert c[..|c|] == c;
    }

    // ryfs_delete past its search: entry i goes, with its whole chain.
    method DeleteEntry(i: nat)
      requires Valid() && 1 <= i < ENTRIES && buf[..] == sectors[1]
      modifies this, buf
      ensures Valid() && nb == old(nb) && sectors[0] == old(sectors[0]) && |sectors| == old(|sectors|)
      ensures table == old(table)[i := Free]
      ensures Slots(sectors, table) == old(Slots(sectors, table))[i := Empty]
      ensures FreeOf(sectors, nb) == old(FreeOf(sectors, nb)) + Elems(old(ChainOf(table[i])))
    {
      hide Used, Inv, EntryMatches, FreeOf, Chained, OnlyEntry, Slots;
      ghost var d0 := sectors;
      EntryFacts(sectors, nb, table, owner, i);
      ghost var chain := ChainOf(table[i]);
      var sector := GetShort(i * 16);
      var sizeInSectors := GetShort(i * 16 + 2);
      ClearEntry(i);
      FreeChain(sector, sizeInSectors, chain);
      DeletedEntry(d0, sectors, nb, table, owner, i);
      owner := Reown(owner, i, chain, []);
      table := table[i := Free];
    }

    // ryfs_delete; e is the entry deleted, or 0 when the struct names no file.
    method Delete(f: RomFile) returns (ghost e: nat)
      requires Valid()
      modifies this, buf
      ensures Valid() && nb == old(nb) && sectors[0] == old(sectors[0]) && |sectors| == old(|sectors|)
      ensures e == 0 ==> forall g: nat :: !old(Refers(f, g))
      ensures e == 0 ==> table == old(table) && Slots(sectors, table) == old(Slots(sectors, table))
                         && FreeOf(sectors, nb) == old(FreeOf(sectors, nb))
      ensures e != 0 ==> old(Refers(f, e)) && table == old(table)[e := Free]
                         && Slots(sectors, table) == old(Slots(sectors, table))[e := Empty]
                         && FreeOf(sectors, nb) == old(FreeOf(sectors, nb)) + Elems(old(table[e].chain))
    {
      hide Used, Inv, FreeOf, Slots, First, ChainsOk;
      SearchFacts(sectors, nb, table, owner, f.firstSector);
      var i := FindEntryOf(f);
      if i == 32 {
        return 0;
      }
      e := if table[i].File? then i else 0;
      EntryFacts(sectors, nb, table, owner, i);
      assert Elems([]) == {};
      DeleteEntry(i);
    }

    // ryfs_create past its searches: entry e becomes a file of zeros.
    method AddFile(ghost e: nat, firstFreeEntry: nat, firstFreeSector: nat, fileName: Name, sizeInBytes: nat)
      requires Valid() && fileName != NO_NAME && NotNamed(fileName)
      requires 1 <= e < ENTRIES && e < |table| && table[e].Free? && firstFreeEntry == 16 * e
      requires IsLeastFree(Used(sectors, nb), BITS * nb, firstFreeSector) && firstFreeSector < 0x1_0000
      requires 0 < Sectors(sizeInBytes) <= |FreeOf(sectors, nb)|
      modifies this, buf
      ensures Valid() && nb == old(nb) && sectors[0] == old(sectors[0])
      ensures FileMade(old(table), old(Slots(sectors, table)), old(FreeOf(sectors, nb)), sectors, nb, table, e,
                       fileName, sizeInBytes)
    {
      hide Used, Inv, FreeOf, Slots, EntryMatches, Chained, Reserved, OnlyEntry, Building, First, Count, NameAt, ChainsOk,
        Link, LastSize, Elems, Reown, Ceil, Sectors, IsLeastFree, Distinct, OnlyTouches, OnlyBitmap, FileMade;
      ghost var d0 := sectors;
      RoomFacts(sectors, nb, table, owner);
      CeilCountsSectors(sizeInBytes);
      SectorsHold(sizeInBytes);
      var sizeInSectors := Ceil(sizeInBytes, 506) / 506;
      WriteEntry(e, firstFreeEntry, firstFreeSector, sizeInSectors, fileName);
      ghost var d1 := sectors;
      SameFree(d0, d1, nb);
      assert FreeOf(sectors, nb) == FreeOf(d0, nb) && Used(sectors, nb) == Used(d0, nb);
      ghost var c := BuildChain(sizeInSectors, sizeInBytes);
      CreatedEntry(d0, d1, sectors, nb, table, owner, e, fileName, sizeInBytes, c, firstFreeSector);
      owner := Reown(owner, e, [], c);
      table := table[e := File(fileName, c, sizeInBytes)];
    }

    // What ryfs_create comes to on a disk of files t and contents slots, with these sectors free: the first
    // unused entry of 1 to 30 is a file of zeros, and f refers to it; r is its first sector.
    ghost predicate Made(t: seq<Entry>, slots: seq<Slot>, free: set<nat>, f: RomFile, e: nat, r: nat, fileName: Name,
                         size: nat)
      requires Valid()
      reads `sectors, `nb, `table, `owner, f`firstSector, f`seekOffset
    {
      && 1 <= e <= 30 && |t| == ENTRIES && t[e].Free? && (forall g: nat | 1 <= g < e :: t[g].File?)
      && Refers(f, e) && f.firstSector == r && f.seekOffset == 0
      && FileMade(t, slots, free, sectors, nb, table, e, fileName, size)
    }

    // What it comes to when these entries are all in use.
    ghost predicate NoEntryLeft(t: seq<Entry>, slots: seq<Slot>, free: set<nat>)
      requires Valid()
      reads `sectors, `nb, `table, `owner
    {
      && |t| == ENTRIES && (forall g: nat | 1 <= g <= 30 :: t[g].File?)
      && table == t && Slots(sectors, table) == slots && FreeOf(sectors, nb) == free
    }

    // ryfs_create of a name that is not on the disk.
    method MakeFile(fileName: Name, f: RomFile, sizeInBytes: nat) returns (r: u16, ghost e: nat)
      requires Valid() && fileName != NO_NAME && NotNamed(fileName)
      requires 0 < Sectors(sizeInBytes) <= |FreeOf(sectors, nb)|
      modifies this, buf, f
      ensures Valid() && nb == old(nb) && sectors[0] == old(sectors[0])
      ensures r == 0 ==> sectors == old(sectors)
      ensures var t, slots, free := old(table), old(Slots(sectors, table)), old(FreeOf(sectors, nb));
              if r == 0 then NoEntryLeft(t, slots, free)
              else Made(t, slots, free, f, e, r, fileName, sizeInBytes)
    {
      hide Used, Inv, FreeOf, Slots, Chained, Reserved, First, Count, NameAt, ChainsOk, Elems, Sectors, IsLeastFree;
      RoomFacts(sectors, nb, table, owner);
      var firstFreeEntry := FindFreeEntry();
      var firstFreeSector := FindFreeSector();
      LeastFreeIsOnDisk(sectors, nb, firstFreeSector);
      if firstFreeEntry == 0 || firstFreeSector == 0 {
        return 0, 0;
      }
      e := firstFreeEntry / 16;
      AddFile(e, firstFreeEntry, firstFreeSector, fileName, sizeInBytes);
      ghost var g;
      r, g := Open(fileName, f);
      assert table[e].File? && table[e].name == fileName;
      OneOfTheName(sectors, nb, table, owner, e, g);
    }

    // ryfs_create; gone is the entry of that name it replaced, or 0.
    method Create(fileName: Name, f: RomFile, sizeInBytes: nat) returns (r: u16, ghost e: nat, ghost gone: nat)
      requires Valid() && fileName != NO_NAME && sizeInBytes > 0
      requires NotNamed(fileName) ==> Sectors(sizeInBytes) <= |FreeOf(sectors, nb)|
      requires forall g: nat | g < |table| && table[g].File? && table[g].name == fileName ::
                 Sectors(sizeInBytes) <= |FreeOf(sectors, nb)| + |table[g].chain|
      modifies this, buf, f
      ensures Valid() && nb == old(nb) && sectors[0] == old(sectors[0])
      ensures gone == 0 ==> old(NotNamed(fileName))
      ensures gone != 0 ==> gone < ENTRIES && old(table)[gone].File? && old(table)[gone].name == fileName
      ensures var t := old(table)[gone := Free];
              var slots := old(Slots(sectors, table))[gone := Empty];
              var free := old(FreeOf(sectors, nb)) + Elems(old(ChainOf(table[gone])));
              if r == 0 then NoEntryLeft(t, slots, free)
              else Made(t, slots, free, f, e, r, fileName, sizeInBytes)
    {
      hide Used, Inv, FreeOf, Slots, ChainsOk, Made, NoEntryLeft;
      SectorsHold(sizeInBytes);
      HeaderSlot(sectors, nb, table, owner);
      ghost var g;
      var i;
      i, g := Open(fileName, f);
      gone := 0;
      if i != 0 {
        FileFacts(sectors, nb, table, owner, g);
        GoneIsFree(sectors, nb, table, owner, g);
        gone := Delete(f);
      }
      r, e := MakeFile(fileName, f, sizeInBytes);
    }

    // ---------- reading ----------

    // ryfs_get_size: a full last sector counts as empty.
    method GetSize(f: RomFile, ghost e: nat) returns (size: nat)
      requires Valid() && Refers(f, e)
      modifies buf
      ensures size == StoredSize(table[e].size)
    {
      FileFacts(sectors, nb, table, owner, e);
      ChainEnds(sectors, table[e].chain, table[e].size);
      ghost var c, first := table[e].chain, f.firstSector;
      hide Inv, Used, Link, LastSize, Chained;
      size := 0;
      var nextSector := f.firstSector;
      ghost var i := 0;
      while true
        invariant 0 <= i < |c| && nextSector == c[i] && size == 506 * i && f.firstSector == first
        decreases |c| - i
      {
        assert i + 1 < |c| ==> Link(sectors[c[i]]) == c[i + 1] != 0;
        ReadSector(nextSector);
        nextSector := GetLink();
        if nextSector != 0 {
          size := size + 506;
        } else {
          var rest: int := GetLastSize();
          size := size + rest;
          return;
        }
        i := i + 1;
      }
    }

    // The traversals of ryfs_read, ryfs_write and ryfs_add_size_to_file: the sector before the n-th
    // link of a chain.  One link too many leads to sector 0.
    method Traverse(first: nat, n: nat, ghost c: seq<nat>) returns (startSector: nat)
      requires Ready() && 0 < |c| && first == c[0] && n <= |c| + 1
      requires forall k | 0 <= k < |c| :: c[k] < |sectors|
      requires forall k | 0 <= k < |c| - 1 :: Link(sectors[c[k]]) == c[k + 1]
      requires Link(sectors[c[|c| - 1]]) == 0
      modifies buf
      ensures startSector == if n == 0 then c[0] else if n <= |c| then c[n - 1] else 0
      ensures n > 0 ==> buf[..] == sectors[startSector]
    {
      hide Link;
      var sectorsToTraverse := n;
      var thisSector := first;
      startSector := thisSector;
      while sectorsToTraverse > 0
        invariant 0 <= sectorsToTraverse <= n
        invariant var i := n - sectorsToTraverse;
                  && (i < |c| ==> thisSector == c[i]) && (i == |c| ==> thisSector == 0)
                  && startSector == if i == 0 then c[0] else if i <= |c| then c[i - 1] else 0
        invariant sectorsToTraverse < n ==> buf[..] == sectors[startSector]
      {
        ReadSector(thisSector);
        startSector := thisSector;
        thisSector := GetLink();
        sectorsToTraverse := sectorsToTraverse - 1;
      }
    }

    // The number of sectors ryfs_read and ryfs_write traverse to reach an offset.
    method SectorsBefore(seekOffset: nat) returns (n: nat)
      ensures n == if seekOffset == 0 then 0 else seekOffset / 506 + 1
    {
      n := Ceil(seekOffset, 506) / 506;
      if seekOffset > 0 && seekOffset % 506 == 0 {
        n := n + 1;
      }
    }

    // copy_memory_bytes from the sector buffer, of at least one byte
    method CopyFromBuffer(from: nat, destination: array<u8>, to: nat, n: nat)
      requires 0 < n && from + n <= buf.Length && to + n <= destination.Length && destination != buf
      modifies destination
      ensures destination[..to + n] == old(destination[..to]) + buf[from..from + n]
      ensures forall k | to + n <= k < destination.Length :: destination[k] == old(destination[k])
    {
      for i := 0 to n
        invariant destination[..to + i] == old(destination[..to]) + buf[from..from + i]
        invariant forall k | to + i <= k < destination.Length :: destination[k] == old(destination[k])
      {
        destination[to + i] := buf[from + i];
      }
    }

    // The loop of ryfs_read, from the sector that holds offset o of chain c.
    method LoadSectors(first: nat, o: nat, sizeToRead: nat, destination: array<u8>, ghost c: seq<nat>)
      requires buf.Length == SECTOR && WholeSectors(sectors) && destination != buf
      requires forall k | 0 <= k < |c| :: c[k] < |sectors|
      requires forall k | 0 <= k < |c| - 1 :: Link(sectors[c[k]]) == c[k + 1]
      requires 1 <= sizeToRead <= destination.Length && o + sizeToRead <= 506 * |c| && first == c[o / 506]
      modifies buf, destination
      ensures destination[..sizeToRead] == Payload(sectors, c, o, sizeToRead)
      ensures destination[sizeToRead..] == old(destination[sizeToRead..])
    {
      hide Payload, Link, Rounds, Reached;
      RoundsBegin(sizeToRead, o);
      assert Reached(c, o, sizeToRead, first) by { ReachedFirst(c, o, sizeToRead); }
      var size := sizeToRead;
      var sectorsToLoad := (o % 506 + size + 505) / 506;
      var thisSector: nat := first;
      var modulo := o % 506;
      var to := 0;
      while sectorsToLoad > 0
        invariant 0 <= to <= sizeToRead && size == sizeToRead - to
        invariant Rounds(sectorsToLoad, modulo, size, o + to)
        invariant Reached(c, o + to, size, thisSector)
        invariant destination[..to] == Payload(sectors, c, o, to)
        invariant forall k | to <= k < destination.Length :: destination[k] == old(destination[k])
      {
        RoundsGoOn(sectorsToLoad, modulo, size, o + to);
        ReachedOne(sectors, c, o + to, size, thisSector);
        ReadSector(thisSector);
        var bytesToLoad := 506 - modulo;
        if bytesToLoad >= size {
          bytesToLoad := size;
        }
        CopyFromBuffer(6 + modulo, destination, to, bytesToLoad);
        ReadMore(sectors, c, o, o + to, bytesToLoad);
        thisSector := GetLink();
        to := to + bytesToLoad;
        size := size - bytesToLoad;
        sectorsToLoad := sectorsToLoad - 1;
        modulo := 0;
      }
      RoundsGoOn(sectorsToLoad, modulo, size, o + to);
    }

    // ryfs_read
    method Read(size: nat, f: RomFile, destination: array<u8>, ghost e: nat)
      requires Valid() && Refers(f, e) && destination != buf && 1 <= size <= destination.Length
      requires f.seekOffset + size <= 506 * |table[e].chain| && f.seekOffset + size < WORD
      modifies buf, destination, f`seekOffset
      ensures f.seekOffset == old(f.seekOffset) + size
      ensures destination[..size] == Payload(sectors, table[e].chain, old(f.seekOffset), size)
      ensures destination[size..] == old(destination[size..])
    {
      FileFacts(sectors, nb, table, owner, e);
      ghost var c := table[e].chain;
      ChainEnds(sectors, c, table[e].size);
      hide Inv, Used, Payload, Link, LastSize, Chained;
      var sectorsToTraverse := SectorsBefore(f.seekOffset);
      var startSector := Traverse(f.firstSector, sectorsToTraverse, c);
      LoadSectors(startSector, f.seekOffset, size, destination, c);
      f.seekOffset := f.seekOffset + size;
    }

    // ---------- ryfs_add_size_to_file ----------

    // The loop over the entries, of which e is the one with that first sector.
    method CountUp(first: u16, ghost e: nat)
      requires buf.Length == SECTOR && 1 <= e < ENTRIES && Count(buf[..], e) < 0xFFFF
      requires forall i: nat | 1 <= i < ENTRIES :: First(buf[..], i) == first <==> i == e
      modifies buf
      ensures forall k | 0 <= k < SECTOR && k != 16 * e + 2 && k != 16 * e + 3 :: buf[k] == old(buf[k])
      ensures Count(buf[..], e) == old(Count(buf[..], e)) + 1
    {
      hide Count, First, Short;
      ghost var dir := buf[..];
      var i := 1;
      while i < 32
        invariant 1 <= i <= 32
        invariant forall k | 0 <= k < SECTOR && k != 16 * e + 2 && k != 16 * e + 3 :: buf[k] == dir[k]
        invariant Count(buf[..], e) == if e < i then Count(dir, e) + 1 else Count(dir, e)
      {
        var v := GetShort(i * 16);
        SameFirst(dir, buf[..], i, e);
        CountIs(buf[..], i);
        if v == first {
          var temp: int := GetShort(i * 16 + 2);
          PutShort(i * 16 + 2, temp + 1);
          CountIs(buf[..], i);
        }
        i := i + 1;
      }
    }

    lemma SameFirst(dir: seq<u8>, dir': seq<u8>, i: nat, e: nat)
      requires |dir| == |dir'| == SECTOR && 1 <= i < ENTRIES && 1 <= e < ENTRIES
      requires forall k | 0 <= k < SECTOR && k != 16 * e + 2 && k != 16 * e + 3 :: dir'[k] == dir[k]
      ensures First(dir', i) == First(dir, i)
    {
    }

    lemma CountIs(dir: seq<u8>, i: nat)
      requires |dir| == SECTOR && 1 <= i < ENTRIES
      ensures First(dir, i) == Short(dir, 16 * i) && Count(dir, i) == Short(dir, 16 * i + 2)
    {
    }

    // The directory part: one more sector for the file.
    method AddToCount(f: RomFile, ghost e: nat)
      requires Valid() && Refers(f, e)
      modifies this`sectors, buf
      ensures Ready() && sectors == old(sectors)[1 := sectors[1]] && Used(sectors, nb) == old(Used(sectors, nb))
      ensures 1 <= e < ENTRIES && OnlyEntry(old(sectors[1]), sectors[1], e)
      ensures First(sectors[1], e) == old(First(sectors[1], e)) && NameAt(sectors[1], e) == old(NameAt(sectors[1], e))
      ensures Count(sectors[1], e) == |table[e].chain| + 1
    {
      FileFacts(sectors, nb, table, owner, e);
      OnlyEntryWithFirst(sectors, nb, table, owner, e);
      ChainIsShort(sectors, nb, table[e].chain);
      hide Inv, Used, Chained, ChainsOk, NameAt, Elems, Distinct, Link, LastSize;
      ReadSector(1);
      ghost var dir := buf[..];
      CountUp(f.firstSector, e);
      EntryPlaced(dir, buf[..], e);
      WriteSector(1);
    }

    // The growing part: the least free sector, zeroed, is linked behind oldThisSector.
    method LinkSector(oldThisSector: nat, rest: u16) returns (temp: nat)
      requires Ready() && Reserved(nb) <= Used(sectors, nb) && FreeOf(sectors, nb) != {}
      requires 2 + nb <= oldThisSector < |sectors| && oldThisSector in Used(sectors, nb)
      modifies this`sectors, buf
      ensures Ready() && sectors[1] == old(sectors[1]) && |sectors| == old(|sectors|)
      ensures temp in old(FreeOf(sectors, nb)) && 2 + nb <= temp < |sectors|
      ensures Used(sectors, nb) == old(Used(sectors, nb)) + {temp}
      ensures OnlyTouches(old(sectors), sectors, nb, {oldThisSector, temp})
      ensures Link(sectors[oldThisSector]) == temp && LastSize(sectors[oldThisSector]) == 0
      ensures sectors[oldThisSector][HEADER..] == old(sectors[oldThisSector][HEADER..])
      ensures Link(sectors[temp]) == 0 && LastSize(sectors[temp]) == rest && ZeroPayload(sectors[temp])
      ensures sectors[temp][..2] == [0xFF, 0] && sectors[oldThisSector][..2] == old(sectors[oldThisSector][..2])
    {
      hide Used, Reserved, Link, LastSize, ZeroPayload;
      ghost var d := sectors;
      temp := FindFreeSector();
      LeastFreeIsOnDisk(d, nb, temp);
      assert temp != oldThisSector;
      ReadSector(oldThisSector);
      PutHeader(temp, 0);
      WroteSector(d, d, nb, oldThisSector, buf[..]);
      WriteSector(oldThisSector);
      ghost var linked := sectors;
      MarkUsed(temp);
      buf[0] := 0xFF;
      buf[1] := 0;
      PutHeaderAndClear(0, rest);
      WroteSector(linked, sectors, nb, temp, buf[..]);
      WriteSector(temp);
    }

    // ryfs_add_size_to_file when the count of sectors goes up, from the directory on.
    method AppendSector(oldThisSector: nat, rest: u16, ghost d: Disk, ghost e: nat, ghost size: nat, ghost well: bool)
      returns (r: nat)
      requires Ready() && Inv(d, nb, table, owner) && FreeOf(d, nb) != {} && 1 <= e < ENTRIES && table[e].File?
      requires sectors == d[1 := sectors[1]] && Used(sectors, nb) == Used(d, nb) && OnlyEntry(d[1], sectors[1], e)
      requires First(sectors[1], e) == First(d[1], e) && NameAt(sectors[1], e) == NameAt(d[1], e)
      requires Count(sectors[1], e) == |table[e].chain| + 1
      requires oldThisSector in table[e].chain
      requires well ==> oldThisSector == table[e].chain[|table[e].chain| - 1] && rest == size % 506
                        && table[e].size % 506 == 0 && table[e].size < size <= table[e].size + 506
      modifies this, buf
      ensures Ready() && nb == old(nb) && r !in old(table[e].chain) && r in FreeOf(d, nb)
      ensures |sectors| == |d| && r < |d|
      ensures KeepsPayloads(d, sectors, old(table[e].chain)) && (!well ==> table == old(table) && owner == old(owner))
      ensures Branched(d, sectors, nb, e, old(table[e].chain), oldThisSector, r, rest, 0, [])
      ensures well ==>
                && Valid() && Extended(d, sectors, nb, old(table), table, e, size)
                && e < |table| && table[e].File? && table[e].chain == old(table[e].chain) + [r]
    {
      hide Used, Inv, FreeOf, Chained, Slots, Link, LastSize, Rewritten, First, Count, NameAt, OnlyEntry, Reserved, Reown,
        Elems, OnlyTouches, Takes, ChainsOk, Distinct, ZeroPayload, KeepsPayloads, Extended;
      RoomFacts(d, nb, table, owner);
      FileFacts(d, nb, table, owner, e);
      ghost var c, counted := table[e].chain, sectors;
      OwnedAlready(d, nb, table, owner, c);
      SameFree(d, sectors, nb);
      r := LinkSector(oldThisSector, rest);
      DirectoryFirst(d, counted, sectors, nb, {oldThisSector, r});
      NewSectorIsTaken(d, nb, table, owner, c, r);
      KeptAround(d, sectors, nb, c, oldThisSector, r);
      BranchedOff(d, sectors, nb, e, c, oldThisSector, r, rest);
      if well {
        GrownEntry(d, sectors, nb, table, owner, e, r, size);
        owner := Reown(owner, e, c, c + [r]);
        table := table[e := File(table[e].name, c + [r], size)];
      }
    }

    // ryfs_add_size_to_file when the count of sectors stays, with oldThisSector in the buffer.
    method ResizeSector(oldThisSector: nat, rest: u16, ghost e: nat, ghost size: nat)
      requires Ready() && (oldThisSector == 0 || Valid()) && buf.Length == SECTOR
      requires e < |table| && table[e].File? && 0 < |table[e].chain|
      requires oldThisSector != 0 ==>
                 |table[e].chain| == Sectors(size) && table[e].size <= size && rest == size % 506
      requires oldThisSector == 0 || oldThisSector == table[e].chain[|table[e].chain| - 1]
      requires oldThisSector < |sectors| && buf[..] == sectors[oldThisSector]
      modifies this, buf
      ensures Ready() && nb == old(nb)
      ensures oldThisSector == 0 ==>
                && table == old(table) && owner == old(owner) && sectors == old(sectors)[0 := sectors[0]]
                && BootHit(old(sectors[0]), sectors[0], rest, 0, [])
      ensures oldThisSector != 0 ==>
                && Valid() && Extended(old(sectors), sectors, nb, old(table), table, e, size)
                && e < |table| && table[e].File? && table[e].chain == old(table[e].chain)
    {
      hide Used, Inv, FreeOf, Chained, Slots, Link, LastSize, Extended, Reown, Elems, ChainsOk, Distinct;
      ghost var d, c := sectors, table[e].chain;
      PutLastSize(rest);
      if oldThisSector == 0 {
        OverwriteNothing(d[0][HEADER..], 0);
        WriteSector(oldThisSector);
        return;
      }
      FileFacts(d, nb, table, owner, e);
      ChainEnds(d, c, table[e].size);
      WroteSector(d, d, nb, oldThisSector, buf[..]);
      WriteSector(oldThisSector);
      ResizedEntry(d, sectors, nb, table, owner, e, size);
      owner := Reown(owner, e, c, c);
      table := table[e := File(table[e].name, c, size)];
    }

    // ryfs_add_size_to_file, for a write of n bytes at the seek offset: it returns the sector these
    // bytes belong to exactly when AddsWell says so.
    method AddSize(size: nat, f: RomFile, ghost e: nat, ghost n: nat) returns (r: nat)
      requires Valid() && Refers(f, e) && Extends(f.seekOffset, n, table[e].size)
      requires size == f.seekOffset + n - StoredSize(table[e].size)
      requires table[e].size % 506 == 0 ==> FreeOf(sectors, nb) != {}
      modifies this, buf
      ensures Ready() && nb == old(nb)
      ensures !AddsWell(f.seekOffset, old(table[e].size)) ==>
                && f.seekOffset / 506 < |old(table[e].chain)| && r !in old(table[e].chain)
                && (if old(table[e].size) % 506 == 0 then r in old(FreeOf(sectors, nb)) else r == 0)
                && table == old(table) && owner == old(owner) && KeepsPayloads(old(sectors), sectors, table[e].chain)
                && r < |sectors| == old(|sectors|)
                && Diverted(old(sectors), sectors, nb, table, e, f.seekOffset, r, (f.seekOffset + n) % 506, 0, [])
      ensures AddsWell(f.seekOffset, old(table[e].size)) ==>
                && Valid() && Extended(old(sectors), sectors, nb, old(table), table, e, f.seekOffset + n)
                && e < |table| && table[e].File?
                && f.seekOffset / 506 < |table[e].chain| && r == table[e].chain[f.seekOffset / 506]
    {
      hide Used, Inv, FreeOf, Chained, Slots, Link, LastSize, First, Count, NameAt, OnlyEntry, Reserved, Reown,
        AddsWell, Extends, StoredSize, Sectors, Ceil, Elems, ChainsOk, Distinct, KeepsPayloads, Extended, Branched, BootHit,
        Diverted;
      ghost var d, p, s, c := sectors, f.seekOffset, table[e].size, table[e].chain;
      FileFacts(d, nb, table, owner, e);
      ChainEnds(d, c, s);
      AddedSize(p, n, s);
      var sizeInBytesBefore := GetSize(f, e);
      var sizeInBytesAfter := sizeInBytesBefore + size;
      var sizeInSectorsBefore := Ceil(sizeInBytesBefore, 506) / 506;
      var sizeInSectorsAfter := Ceil(sizeInBytesAfter, 506) / 506;
      if sizeInSectorsAfter != sizeInSectorsBefore {
        AddToCount(f, e);
      }
      ghost var counted := sectors;
      var sectorsToTraverse := sizeInSectorsBefore;
      if f.seekOffset > 0 && f.seekOffset % 506 == 0 {
        sectorsToTraverse := sectorsToTraverse + 1;
      }
      var oldThisSector := Traverse(f.firstSector, sectorsToTraverse, c);
      if sizeInSectorsAfter != sizeInSectorsBefore {
        r := AppendSector(oldThisSector, sizeInBytesAfter % 506, d, e, p + n, AddsWell(p, s));
        if !AddsWell(p, s) {
          DivertedFull(d, sectors, nb, table, e, p, oldThisSector, r, (p + n) % 506);
        }
      } else {
        ResizeSector(oldThisSector, sizeInBytesAfter % 506, e, p + n);
        r := oldThisSector;
        if r == 0 {
          KeptBeside(d, sectors, c, 0);
          DivertedBoot(d, sectors, nb, table, e, p, (p + n) % 506);
        }
      }
      assert AddsWell(p, s) ==> table[e].File? && |table[e].chain| - 1 == p / 506 && r == table[e].chain[|table[e].chain| - 1];
    }

    // ---------- ryfs_write ----------

    // copy_memory_bytes into the sector buffer, of at least one byte
    method CopyToBuffer(source: array<u8>, from: nat, to: nat, n: nat)
      requires 0 < n && from + n <= source.Length && to + n <= buf.Length == SECTOR && source != buf
      modifies buf
      ensures Patched(old(buf[..]), buf[..], to, source[from..from + n])
    {
      for i := 0 to n
        invariant forall k | 0 <= k < SECTOR && !(to <= k < to + i) :: buf[k] == old(buf[k])
        invariant forall k | to <= k < to + i :: buf[k] == source[from + k - to]
      {
        buf[to + i] := source[from + i];
      }
    }

    // Bytes of one sector are replaced through the buffer, which is left holding the sector.
    method PatchBytes(thisSector: nat, modulo: nat, source: array<u8>, from: nat, n: nat)
      requires buf.Length == SECTOR && WholeSectors(sectors) && thisSector < |sectors|
      requires 0 < n && modulo + n <= 506 && from + n <= source.Length && source != buf
      modifies this`sectors, buf
      ensures WholeSectors(sectors) && sectors == old(sectors)[thisSector := buf[..]]
      ensures Patched(old(sectors[thisSector]), buf[..], 6 + modulo, source[from..from + n])
    {
      hide Patched;
      ReadSector(thisSector);
      CopyToBuffer(source, from, 6 + modulo, n);
      WriteSector(thisSector);
    }

    // The same in the sector of a file that holds offset p.
    method PatchSector(thisSector: nat, modulo: nat, source: array<u8>, from: nat, n: nat, ghost e: nat, ghost p: nat)
      requires Valid() && e < |table| && table[e].File? && p / 506 < |table[e].chain|
      requires thisSector == table[e].chain[p / 506] && modulo == p % 506
      requires 0 < n && modulo + n <= 506 && p + n <= table[e].size
      requires from + n <= source.Length && source != buf
      modifies this, buf
      ensures Valid() && nb == old(nb) && table == old(table)
      ensures PatchedWith(old(sectors), sectors, nb, table, e, p, source[from..from + n])
      ensures var i := p / 506 + 1; i < |table[e].chain| ==> Link(buf[..]) == table[e].chain[i]
    {
      hide Used, Inv, FreeOf, Chained, Slots, Reown, Overwrite, Patched, Link, ChainsOk;
      ghost var d, c := sectors, table[e].chain;
      FileFacts(d, nb, table, owner, e);
      PatchBytes(thisSector, modulo, source, from, n);
      SameLink(d[thisSector], buf[..], 6 + modulo, source[from..from + n]);
      WroteSector(d, d, nb, thisSector, buf[..]);
      PatchedEntry(d, sectors, nb, table, owner, e, p, source[from..from + n]);
      owner := Reown(owner, e, c, c);
    }

    // One round of the loop of ryfs_write.
    method WritePiece(sector: nat, modulo: nat, n: nat, f: RomFile, source: array<u8>, from: nat, ghost e: nat)
      returns (next: nat)
      requires Valid() && Refers(f, e) && modulo == f.seekOffset % 506
      requires 0 < n && modulo + n <= 506 && f.seekOffset <= table[e].size
      requires if f.seekOffset + n <= StoredSize(table[e].size) then
                 f.seekOffset / 506 < |table[e].chain| && sector == table[e].chain[f.seekOffset / 506]
               else
                 AddsWell(f.seekOffset, table[e].size) && (table[e].size % 506 == 0 ==> FreeOf(sectors, nb) != {})
      requires from + n <= source.Length && source != buf
      modifies this, buf
      ensures Valid() && nb == old(nb) && Refers(f, e)
      ensures PieceWritten(old(sectors), sectors, nb, old(table), table, e, f.seekOffset, source[from..from + n])
      ensures var i := f.seekOffset / 506 + 1; i < |table[e].chain| ==> next == table[e].chain[i]
    {
      hide Used, Inv, FreeOf, Chained, Overwrite, Link, LastSize, ChainsOk, Extended, PatchedWith, PieceWritten, Elems,
        StoredSize, Shape, Distinct;
      ghost var d, t, bytes := sectors, table, source[from..from + n];
      ValidIsReady();
      FileFacts(d, nb, table, owner, e);
      ChainEnds(d, table[e].chain, table[e].size);
      OwnedIsUsed(d, nb, table, owner, table[e].chain);
      StoredSizeIsSize(table[e].size);
      var thisSector := sector;
      var temp := GetSize(f, e);
      if f.seekOffset + n > temp {
        thisSector := AddSize(f.seekOffset - temp + n, f, e, n);
        ValidIsReady();
        ExtendedFile(d, sectors, nb, t, table, e, f.seekOffset + n);
      }
      ghost var d1 := sectors;
      PatchSector(thisSector, modulo, source, from, n, e, f.seekOffset);
      next := GetLink();
      ValidIsReady();
      if f.seekOffset + n > temp {
        GrownAndPatched(d, d1, sectors, nb, t, table, e, f.seekOffset, bytes);
      } else {
        JustPatched(d, sectors, nb, t, e, f.seekOffset, bytes);
      }
    }

    // How far a write has come that started in disk d and table t at offset o.
    ghost predicate Going(d: Disk, t: seq<Entry>, free: set<nat>, e: nat, o: nat, done: seq<u8>, left: nat, well: bool)
      reads `sectors, `nb, `table, `owner
    {
      Valid() && Underway(d, t, free, sectors, nb, table, e, o, done, left, well)
    }

    // f refers to file e, and with bytes to go from offset p on, thisSector is the sector that holds p, if
    // the file has one.
    ghost predicate Stands(f: RomFile, e: nat, p: nat, left: int, thisSector: nat)
      reads `table, f`firstSector
    {
      Refers(f, e) && (left > 0 && p / 506 < |table[e].chain| ==> thisSector == table[e].chain[p / 506])
    }

    lemma ValidIsReady()
      requires Valid()
      ensures Ready() && WholeSectors(sectors) && Covers(sectors, nb) && ChainsOk(sectors, table)
    {
    }

    lemma StartsGoing(f: RomFile, e: nat, o: nat, left: nat, well: bool, first: nat)
      requires Valid() && Refers(f, e) && o <= table[e].size
      requires o / 506 < |table[e].chain| ==> first == table[e].chain[o / 506]
      requires table[e].size > 0 && |table[e].chain| == Sectors(table[e].size)
      requires Sectors(o + left) <= |table[e].chain| + |FreeOf(sectors, nb)|
      requires WritesWell(o, left, table[e].size) == well
      ensures Going(sectors, table, FreeOf(sectors, nb), e, o, [], left, well)
      ensures FreeOf(sectors, nb) - Elems(table[e].chain) == FreeOf(sectors, nb)
      ensures Stands(f, e, o, left, first)
    {
      hide Used, Inv, FreeOf, Chained, ChainsOk, Elems, Written, WritesWell, Sectors;
      RoomFacts(sectors, nb, table, owner);
      FileFacts(sectors, nb, table, owner, e);
      OwnedIsUsed(sectors, nb, table, owner, table[e].chain);
      DisjointMinus(FreeOf(sectors, nb), Elems(table[e].chain));
      NothingWritten(sectors, table, e, o);
    }

    // One round of the loop of ryfs_write within the whole write.
    method WriteNext(thisSector: nat, modulo: nat, size: nat, f: RomFile, source: array<u8>, from: nat, ghost e: nat,
                     ghost d: Disk, ghost t: seq<Entry>, ghost free: set<nat>, ghost o: nat, ghost well: bool)
      returns (next: nat, bytesToLoad: nat)
      requires source != buf && 0 < size && from + size <= source.Length && f.seekOffset == o + from
      requires Going(d, t, free, e, o, source[..from], size, well) && modulo == f.seekOffset % 506
      requires Stands(f, e, f.seekOffset, size, thisSector)
      requires well || FindsItsSector(f.seekOffset, if 506 - modulo >= size then size else 506 - modulo,
                                      StoredSize(table[e].size))
      modifies this, buf
      ensures bytesToLoad == if 506 - modulo >= size then size else 506 - modulo
      ensures nb == old(nb) && Stands(f, e, f.seekOffset + bytesToLoad, size - bytesToLoad, next)
      ensures Going(d, t, free, e, o, source[..from + bytesToLoad], size - bytesToLoad, well)
    {
      hide Valid, Inv, Used, FreeOf, Elems, Underway, PieceWritten, StoredSize, AddsWell, FindsItsSector, ChainsOk;
      ghost var d1, t1, done := sectors, table, source[..from];
      bytesToLoad := 506 - modulo;
      if bytesToLoad >= size {
        bytesToLoad := size;
      }
      ghost var piece := source[from..from + bytesToLoad];
      UnderwayMeans(d, t, free, d1, nb, t1, e, o, done, size, well);
      NextSector(f.seekOffset, size, bytesToLoad);
      UnderwayRound(d, t, free, d1, nb, t1, e, o, done, size, well, bytesToLoad);
      next := WritePiece(thisSector, modulo, bytesToLoad, f, source, from, e);
      ValidIsReady();
      UnderwayMore(d, t, free, d1, sectors, nb, t1, table, e, o, done, size, well, piece);
      assert done + piece == source[..from + bytesToLoad];
    }

    // The loop of ryfs_write, from the sector that holds the seek offset, if the chain is that long.
    method WriteSectors(first: nat, sizeToWrite: nat, f: RomFile, source: array<u8>, ghost e: nat)
      requires Valid() && Refers(f, e) && source != buf && 1 <= sizeToWrite <= source.Length
      requires table[e].size > 0 && |table[e].chain| == Sectors(table[e].size) && f.seekOffset <= table[e].size
      requires f.seekOffset / 506 < |table[e].chain| ==> first == table[e].chain[f.seekOffset / 506]
      requires WritesWell(f.seekOffset, sizeToWrite, table[e].size)
      requires Sectors(f.seekOffset + sizeToWrite) <= |table[e].chain| + |FreeOf(sectors, nb)|
      requires f.seekOffset + sizeToWrite < WORD
      modifies this, buf, f`seekOffset
      ensures Valid() && nb == old(nb) && sectors[0] == old(sectors[0])
      ensures f.seekOffset == old(f.seekOffset) + sizeToWrite
      ensures Written(old(sectors), sectors, old(table), table, e, old(f.seekOffset), source[..sizeToWrite])
      ensures FreeOf(sectors, nb) == old(FreeOf(sectors, nb)) - Elems(table[e].chain)
    {
      hide Rounds, Valid, Stands, Underway, Inv, Used, FreeOf, Slots, Elems, Written, WritesWell, Sectors;
      ValidIsReady();
      ghost var d, t, o, free := sectors, table, f.seekOffset, FreeOf(sectors, nb);
      StartsGoing(f, e, o, sizeToWrite, true, first);
      var sectorsToLoad := (f.seekOffset % 506 + sizeToWrite + 505) / 506;
      var thisSector := first;
      var modulo := f.seekOffset % 506;
      var size, from := sizeToWrite, 0;
      RoundsBegin(sizeToWrite, f.seekOffset);
      assert source[..0] == [];
      while sectorsToLoad > 0
        invariant 0 <= from <= sizeToWrite && size == sizeToWrite - from && f.seekOffset == o + from
        invariant Rounds(sectorsToLoad, modulo, size, f.seekOffset)
        invariant nb == old(nb) && Going(d, t, free, e, o, source[..from], size, true)
        invariant Stands(f, e, f.seekOffset, size, thisSector)
      {
        RoundsGoOn(sectorsToLoad, modulo, size, f.seekOffset);
        var bytesToLoad;
        thisSector, bytesToLoad := WriteNext(thisSector, modulo, size, f, source, from, e, d, t, free, o, true);
        from := from + bytesToLoad;
        size := size - bytesToLoad;
        sectorsToLoad := sectorsToLoad - 1;
        f.seekOffset := f.seekOffset + bytesToLoad;
        modulo := 0;
      }
      RoundsGoOn(sectorsToLoad, modulo, size, f.seekOffset);
      assert source[..from] == source[..sizeToWrite];
      UnderwayMeans(d, t, free, sectors, nb, table, e, o, source[..from], 0, true);
    }

    // ryfs_write
    method Write(size: nat, f: RomFile, source: array<u8>, ghost e: nat)
      requires Valid() && Refers(f, e) && source != buf && 1 <= size <= source.Length
      requires table[e].size > 0 && f.seekOffset <= table[e].size && WritesWell(f.seekOffset, size, table[e].size)
      requires Sectors(f.seekOffset + size) <= |table[e].chain| + |FreeOf(sectors, nb)|
      requires f.seekOffset + size < WORD
      modifies this, buf, f`seekOffset
      ensures Valid() && nb == old(nb) && sectors[0] == old(sectors[0])
      ensures e < |table| && Refers(f, e) && f.seekOffset == old(f.seekOffset) + size
      ensures Written(old(sectors), sectors, old(table), table, e, old(f.seekOffset), source[..size])
      ensures FreeOf(sectors, nb) == old(FreeOf(sectors, nb)) - Elems(table[e].chain)
    {
      hide Used, Inv, FreeOf, Chained, Slots, Link, ChainsOk, LastSize, Written, WritesWell, StoredSize, Overwrite;
      ghost var d, t := sectors, table;
      FileFacts(d, nb, t, owner, e);
      ChainEnds(d, t[e].chain, t[e].size);
      var sectorsToTraverse := SectorsBefore(f.seekOffset);
      var startSector := Traverse(f.firstSector, sectorsToTraverse, t[e].chain);
      WriteSectors(startSector, size, f, source, e);
      RoomFacts(sectors, nb, table, owner);
      WrittenFile(d, sectors, t, table, e, old(f.seekOffset), source[..size]);
    }

    // The round of ryfs_write that does not find the end of the file.
    method StrayPiece(modulo: nat, n: nat, f: RomFile, source: array<u8>, from: nat, ghost e: nat) returns (stray: nat)
      requires Valid() && Refers(f, e) && Extends(f.seekOffset, n, table[e].size)
      requires !AddsWell(f.seekOffset, table[e].size) && (table[e].size % 506 == 0 ==> FreeOf(sectors, nb) != {})
      requires modulo == f.seekOffset % 506 && from + n <= source.Length && source != buf
      modifies this, buf
      ensures nb == old(nb) && table == old(table) && owner == old(owner) && Ready() && old(Ready())
      ensures Misplaced(old(sectors), sectors, nb, table, e, f.seekOffset, source[from..from + n], stray)
    {
      hide Used, Inv, FreeOf, Chained, Link, LastSize, AddsWell, Sectors, ChainsOk, Elems, KeepsPayloads, Diverted, Extended,
        Distinct, Shape, StoredSize;
      ghost var d, c, p, bytes := sectors, table[e].chain, f.seekOffset, source[from..from + n];
      FileFacts(d, nb, table, owner, e);
      ChainEnds(d, c, table[e].size);
      AddedSize(p, n, table[e].size);
      InsideFile(p, n, table[e].size);
      var temp := GetSize(f, e);
      stray := AddSize(f.seekOffset - temp + n, f, e, n);
      ghost var d1 := sectors;
      PatchBytes(stray, modulo, source, from, n);
      KeptBeside(d1, sectors, c, stray);
      KeepsPayloadsTwice(d, d1, sectors, c);
      assert bytes == source[from..from + n];
      DivertedAndPatched(d, d1, sectors, nb, table, e, p, stray, (p + n) % 506, modulo, bytes);
    }

    // The same within the whole write.
    method StrayRound(modulo: nat, size: nat, f: RomFile, source: array<u8>, from: nat, ghost e: nat,
                      ghost d: Disk, ghost t: seq<Entry>, ghost free: set<nat>, ghost o: nat, ghost well: bool)
      returns (stray: nat, bytesToLoad: nat, ghost mid: Disk)
      requires source != buf && 0 < size && from + size <= source.Length && f.seekOffset == o + from
      requires Going(d, t, free, e, o, source[..from], size, well) && Refers(f, e) && modulo == f.seekOffset % 506
      requires from == 0 || modulo == 0
      requires !FindsItsSector(f.seekOffset, if 506 - modulo >= size then size else 506 - modulo,
                               StoredSize(table[e].size))
      requires !well && table[e].size % 506 == 0 ==> free - Elems(table[e].chain) != {}
      modifies this, buf
      ensures !well && nb == old(nb) && table == t && Ready() && WholeSectors(d) && |d| > 0 && ChainsOk(d, t)
      ensures e < |t| && t[e].File? && WentAstray(d, mid, sectors, nb, t, owner, free - Elems(t[e].chain), e, o,
                                                 source[..from + size], from, bytesToLoad, stray)
    {
      hide Used, Inv, FreeOf, Chained, Slots, ChainsOk, Elems, Overwrite, Written, Link, LastSize,
        WritesWell, StoredSize, AddsWell, Sectors, Extends, FindsItsSector, Data, Misplaced;
      ghost var bytes := source[..from + size];
      mid := sectors;
      WrittenFile(d, mid, t, table, e, o, source[..from]);
      bytesToLoad := if 506 - modulo >= size then size else 506 - modulo;
      WrongRound(d, mid, t, table, e, o, source[..from], f.seekOffset, size, bytesToLoad, well);
      stray := StrayPiece(modulo, bytesToLoad, f, source, from, e);
      MisplacedKeeps(mid, sectors, nb, t, e, f.seekOffset, source[from..from + bytesToLoad], stray);
      SameDataKept(mid, sectors, t[e].chain, t[e].size);
      assert bytes[..from] == source[..from] && bytes[from..from + bytesToLoad] == source[from..from + bytesToLoad];
    }

    // One round, after a test that is not in the original: whether it finds its sector.
    method TryRound(thisSector: nat, modulo: nat, size: nat, f: RomFile, source: array<u8>, from: nat, ghost e: nat,
                    ghost d: Disk, ghost t: seq<Entry>, ghost free: set<nat>, ghost o: nat, ghost well: bool)
      returns (astray: bool, next: nat, bytesToLoad: nat, ghost mid: Disk)
      requires source != buf && 0 < size && from + size <= source.Length && f.seekOffset == o + from
      requires Going(d, t, free, e, o, source[..from], size, well) && modulo == f.seekOffset % 506
      requires Stands(f, e, f.seekOffset, size, thisSector) && (from == 0 || modulo == 0)
      requires e < |t| && t[e].File? && (!well && t[e].size % 506 == 0 ==> free - Elems(t[e].chain) != {})
      modifies this, buf
      ensures nb == old(nb)
      ensures astray ==>
                && !well && table == t && Ready() && WholeSectors(d) && |d| > 0 && ChainsOk(d, t)
                && e < |t| && t[e].File? && WentAstray(d, mid, sectors, nb, t, owner, free - Elems(t[e].chain), e, o,
                                                      source[..from + size], from, bytesToLoad, next)
      ensures !astray ==>
                && bytesToLoad == (if 506 - modulo >= size then size else 506 - modulo)
                && Going(d, t, free, e, o, source[..from + bytesToLoad], size - bytesToLoad, well)
                && Stands(f, e, f.seekOffset + bytesToLoad, size - bytesToLoad, next)
    {
      hide Valid, Underway, FindsItsSector, StoredSize, Elems, WentAstray, ChainsOk;
      bytesToLoad := if 506 - modulo >= size then size else 506 - modulo;
      UnderwayMeans(d, t, free, sectors, nb, table, e, o, source[..from], size, well);
      var temp := GetSize(f, e);
      astray := !FindsItsSector(f.seekOffset, bytesToLoad, temp);
      if astray {
        next, bytesToLoad, mid := StrayRound(modulo, size, f, source, from, e, d, t, free, o, well);
      } else {
        mid := [];
        next, bytesToLoad := WriteNext(thisSector, modulo, size, f, source, from, e, d, t, free, o, well);
      }
    }

    // The loop of ryfs_write up to the first round that puts its bytes into a wrong sector, if there is
    // one.  The original goes on from that sector.
    method WriteSectorsUntilAstray(first: nat, sizeToWrite: nat, f: RomFile, source: array<u8>, ghost e: nat)
      returns (astray: bool, stray: nat, from: nat, bytesToLoad: nat, ghost mid: Disk)
      requires Valid() && Refers(f, e) && source != buf && 1 <= sizeToWrite <= source.Length
      requires table[e].size > 0 && |table[e].chain| == Sectors(table[e].size) && f.seekOffset <= table[e].size
      requires f.seekOffset / 506 < |table[e].chain| ==> first == table[e].chain[f.seekOffset / 506]
      requires Sectors(f.seekOffset + sizeToWrite) <= |table[e].chain| + |FreeOf(sectors, nb)|
      requires !WritesWell(f.seekOffset, sizeToWrite, table[e].size) && table[e].size % 506 == 0 ==>
                 FreeOf(sectors, nb) != {}
      requires f.seekOffset + sizeToWrite < WORD
      modifies this, buf, f`seekOffset
      ensures astray <==> !WritesWell(old(f.seekOffset), sizeToWrite, old(table[e].size))
      ensures nb == old(nb) && Ready() && f.seekOffset == old(f.seekOffset) + from
      ensures !astray ==>
                && from == sizeToWrite && Valid() && sectors[0] == old(sectors[0])
                && Written(old(sectors), sectors, old(table), table, e, old(f.seekOffset), source[..sizeToWrite])
                && FreeOf(sectors, nb) == old(FreeOf(sectors, nb)) - Elems(table[e].chain)
      ensures astray ==>
                && table == old(table)
                && WentAstray(old(sectors), mid, sectors, nb, table, owner, old(FreeOf(sectors, nb)), e,
                              old(f.seekOffset), source[..sizeToWrite], from, bytesToLoad, stray)
    {
      hide Rounds, Valid, Ready, Stands, Underway, Inv, Used, FreeOf, Slots, Elems, Written, WritesWell, Sectors, WentAstray,
        Shape, WholeSectors, Covers, FindsItsSector, StoredSize, ChainsOk, Chained;
      ValidIsReady();
      ghost var d, t, o, free := sectors, table, f.seekOffset, FreeOf(sectors, nb);
      ghost var well := WritesWell(o, sizeToWrite, t[e].size);
      StartsGoing(f, e, o, sizeToWrite, well, first);
      var sectorsToLoad := (f.seekOffset % 506 + sizeToWrite + 505) / 506;
      var thisSector := first;
      var modulo := f.seekOffset % 506;
      var size := sizeToWrite;
      astray, stray, from, bytesToLoad, mid := false, 0, 0, 0, [];
      RoundsBegin(sizeToWrite, f.seekOffset);
      assert source[..0] == [];
      while sectorsToLoad > 0
        invariant 0 <= from <= sizeToWrite && size == sizeToWrite - from && f.seekOffset == o + from
        invariant Rounds(sectorsToLoad, modulo, size, f.seekOffset)
        invariant size > 0 ==> from == 0 || f.seekOffset % 506 == 0
        invariant nb == old(nb) && Going(d, t, free, e, o, source[..from], size, well)
        invariant Stands(f, e, f.seekOffset, size, thisSector)
      {
        RoundsGoOn(sectorsToLoad, modulo, size, f.seekOffset);
        astray, thisSector, bytesToLoad, mid :=
          TryRound(thisSector, modulo, size, f, source, from, e, d, t, free, o, well);
        if astray {
          assert source[..from + size] == source[..sizeToWrite];
          return true, thisSector, from, bytesToLoad, mid;
        }
        from := from + bytesToLoad;
        size := size - bytesToLoad;
        sectorsToLoad := sectorsToLoad - 1;
        f.seekOffset := f.seekOffset + bytesToLoad;
        modulo := 0;
      }
      RoundsGoOn(sectorsToLoad, modulo, size, f.seekOffset);
      assert source[..from] == source[..sizeToWrite];
      UnderwayMeans(d, t, free, sectors, nb, table, e, o, source[..from], 0, well);
      ValidIsReady();
    }

    // ryfs_write of anything, up to the first round that goes astray.
    method WriteUntilAstray(sizeToWrite: nat, f: RomFile, source: array<u8>, ghost e: nat)
      returns (astray: bool, stray: nat, from: nat, bytesToLoad: nat, ghost mid: Disk)
      requires Valid() && Refers(f, e) && source != buf && 1 <= sizeToWrite <= source.Length
      requires table[e].size > 0 && f.seekOffset <= table[e].size
      requires Sectors(f.seekOffset + sizeToWrite) <= |table[e].chain| + |FreeOf(sectors, nb)|
      requires !WritesWell(f.seekOffset, sizeToWrite, table[e].size) && table[e].size % 506 == 0 ==>
                 FreeOf(sectors, nb) != {}
      requires f.seekOffset + sizeToWrite < WORD
      modifies this, buf, f`seekOffset
      ensures astray <==> !WritesWell(old(f.seekOffset), sizeToWrite, old(table[e].size))
      ensures nb == old(nb) && Ready() && f.seekOffset == old(f.seekOffset) + from
      ensures !astray ==>
                && from == sizeToWrite && Valid() && sectors[0] == old(sectors[0])
                && Written(old(sectors), sectors, old(table), table, e, old(f.seekOffset), source[..sizeToWrite])
                && FreeOf(sectors, nb) == old(FreeOf(sectors, nb)) - Elems(table[e].chain)
      ensures astray ==>
                && table == old(table)
                && WentAstray(old(sectors), mid, sectors, nb, table, owner, old(FreeOf(sectors, nb)), e,
                              old(f.seekOffset), source[..sizeToWrite], from, bytesToLoad, stray)
      ensures astray && table[e].size % 506 != 0 ==> Valid()
      ensures astray ==> ((exists table', owner' :: Inv(sectors, nb, table', owner')) <==>
                            table[e].size % 506 != 0 || f.seekOffset % 506 == 0 || table[e].size == 506)
      ensures astray ==> !HoldsWritten(old(sectors), sectors, nb, table, e, old(f.seekOffset), source[..from + bytesToLoad])
    {
      hide Used, Inv, FreeOf, Chained, Slots, Link, ChainsOk, LastSize, Written, WritesWell, StoredSize, Overwrite,
        WentAstray, Elems;
      FileFacts(sectors, nb, table, owner, e);
      ChainEnds(sectors, table[e].chain, table[e].size);
      var sectorsToTraverse := SectorsBefore(f.seekOffset);
      var startSector := Traverse(f.firstSector, sectorsToTraverse, table[e].chain);
      ghost var d, t, o := sectors, table, f.seekOffset;
      astray, stray, from, bytesToLoad, mid := WriteSectorsUntilAstray(startSector, sizeToWrite, f, source, e);
      if astray {
        AstrayIsNotWritten(d, mid, sectors, nb, t, owner, old(FreeOf(sectors, nb)), e, o, source[..sizeToWrite], from,
                           bytesToLoad, stray);
        AstrayInvariant(d, mid, sectors, nb, t, owner, old(FreeOf(sectors, nb)), e, o, source[..sizeToWrite], from,
                        bytesToLoad, stray);
        assert source[..sizeToWrite][..from + bytesToLoad] == source[..from + bytesToLoad];
      }
    }

    // ---------- ryfs_format ----------

    // The directory sector of an empty disk.
    method WriteDirectory(diskSizeInSectors: u16, bitmapSectors: u8)
      requires buf.Length == SECTOR && WholeSectors(sectors) && |sectors| > 1
      modifies this`sectors, buf
      ensures |sectors| == old(|sectors|) && sectors == old(sectors)[1 := sectors[1]] && WholeSectors(sectors)
      ensures sectors[1][0] == bitmapSectors && forall k | 16 <= k < SECTOR :: sectors[1][k] == 0
      ensures sectors[1][1..4] == [1, 82, 89] && Short(sectors[1], 4) == diskSizeInSectors
      ensures sectors[1][6..14] == [114, 97, 109, 100, 105, 115, 107, 0]
    {
      hide Short, WithShort;
      ClearFrom(0);
      ghost var g := buf[..];
      buf[0] := bitmapSectors;
      buf[1], buf[2], buf[3] := 1, 82, 89;
      assert buf[..] == g[0 := bitmapSectors][1 := 1][2 := 82][3 := 89];
      PutShort(4, diskSizeInSectors);
      CopyBytes([114, 97, 109, 100, 105, 115, 107, 0], 6);     // "ramdisk"
      DirectoryBytes(g, bitmapSectors, diskSizeInSectors, [114, 97, 109, 100, 105, 115, 107, 0]);
      WriteSector(1);
    }

    // Its first loop: every bitmap sector is zeroed.
    method ClearBitmap(bitmapSectors: nat)
      requires buf.Length == SECTOR && WholeSectors(sectors) && 2 + bitmapSectors <= |sectors|
      modifies this`sectors, buf
      ensures WholeSectors(sectors) && OnlyBitmap(old(sectors), sectors, bitmapSectors)
      ensures Used(sectors, bitmapSectors) == {}
    {
      hide Used, Members;
      ghost var d0 := sectors;
      ClearFrom(0);
      var i := 0;
      while i < bitmapSectors
        modifies this`sectors
        invariant 0 <= i <= bitmapSectors && WholeSectors(sectors) && OnlyBitmap(d0, sectors, bitmapSectors)
        invariant forall b | 2 <= b < 2 + i :: sectors[b] == buf[..]
      {
        WriteSector(i + 2);
        i := i + 1;
      }
      ZeroBitmap(sectors, bitmapSectors);
    }

    // The rest: the boot sector, the directory and the bitmap are marked.
    method ReserveSectors(ghost d: Disk, bitmapSectors: nat)
      requires Ready() && bitmapSectors == nb && OnlyBitmap(d, sectors, nb) && Used(sectors, nb) == {}
      modifies this`sectors, buf
      ensures Ready() && OnlyBitmap(d, sectors, nb) && Used(sectors, nb) == Reserved(nb)
    {
      hide Used;
      MarkUsed(0);
      MarkUsed(1);
      var i := 0;
      while i < bitmapSectors
        modifies this`sectors, buf
        invariant 0 <= i <= bitmapSectors && Ready() && OnlyBitmap(d, sectors, nb)
        invariant Used(sectors, nb) == Reserved(i)
      {
        MarkUsed(i + 2);
        i := i + 1;
      }
    }

    // ryfs_format
    method Format(diskSizeInSectors: nat)
      requires buf.Length == SECTOR && WholeSectors(sectors) && |sectors| == diskSizeInSectors < 0x1_0000
      requires 2 + Ceil(diskSizeInSectors, 4096) / 4096 < diskSizeInSectors
      modifies this, buf
      ensures Valid() && nb == Ceil(diskSizeInSectors, 4096) / 4096 && table == FreeTable(ENTRIES)
      ensures forall e | 0 <= e < ENTRIES :: Slots(sectors, table)[e].Empty?
      ensures forall n: nat :: n in FreeOf(sectors, nb) <==> 2 + nb <= n < diskSizeInSectors
      ensures |sectors| == old(|sectors|) && sectors[0] == old(sectors[0])
      ensures forall k | 2 + nb <= k < |sectors| :: sectors[k] == old(sectors[k])
    {
      hide Used, Members, Inv, Slots, FreeOf, Reserved;
      var bitmapSectors := Ceil(diskSizeInSectors, 4096) / 4096;
      CeilCovers(diskSizeInSectors);
      nb := bitmapSectors;
      WriteDirectory(diskSizeInSectors, bitmapSectors);
      ghost var d1 := sectors;
      ClearBitmap(bitmapSectors);
      ReserveSectors(d1, bitmapSectors);
      FormattedDisk(sectors, nb);
      table, owner := FreeTable(ENTRIES), map[];
    }
  }
}
