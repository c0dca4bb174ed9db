/** Demand-paged guest memory: the tables and stream state of fox32_vm_t, SPI RAM and the card.
    Every method is proved against `Contents`, a flat array of 1 MiB. */
module GuestMemory {
  import opened Bitmaps
  import opened Bytes
  import opened Devices
  import opened PageTables

  class Memory {
    const spi: SpiRam
    const card: Card
    const swapBegin: nat
    const resident: array<u8>     // page_is_in_memory_bitmap
    const frames: array<u8>       // physical_memory_bitmap
    const table: array<u8>        // page_on_disk_is_at
    var isConsecutive: bool       // is_consecutive_read
    var previous: u32             // previous_read_address

    ghost var tables: Tables
    ghost var Contents: seq<u8>

    ghost function Repr(): set<object>
    {
      {this, spi, card, card.buffer, resident, frames, table}
    }

    ghost function S(): Store
      reads spi`data, card`sectors
    {
      Store(spi.data, card.sectors, swapBegin)
    }

    ghost predicate Apart(a: array<u8>) {
      a as object != this && a as object != spi && a as object != card
    }

    // The objects are distinct and of the right size.
    ghost predicate Shape()
      reads `tables, spi`data, card`sectors
    {
      && card.Valid() && spi.Valid()
      && resident.Length == 32 && frames.Length == 4 && table.Length == PAGES && tables.Sized()
      && card.buffer != resident && card.buffer != frames && card.buffer != table
      && resident != frames && resident != table && frames != table
      && Apart(card.buffer) && Apart(resident) && Apart(frames) && Apart(table)
      && S().Sized()
    }

    // A stream is open exactly when the flag says so, and it stands just after the last address read.
    ghost predicate StreamOk()
      reads `isConsecutive, `previous, spi`open, spi`cursor
    {
      && isConsecutive == spi.open
      && previous < SPI_SIZE
      && (spi.open ==> spi.cursor == previous + 1)
    }

    // The ghost tables are what the arrays hold.
    ghost predicate Coupled()
      reads `tables, resident, frames, table
    {
      && tables.resident == Members(resident[..])
      && tables.used == Members(frames[..])
      && tables.table == table[..]
    }

    ghost predicate Valid()
      reads Repr()
    {
      Shape() && StreamOk() && Coupled() && tables.Bijective() && Backs(tables, S(), Contents)
    }

    constructor (contents: seq<seq<u8>>, swapBegin: nat)
      requires swapBegin + PAGES * 8 <= |contents|
      requires WholeSectors(contents)
      ensures Valid() && fresh(Repr())
      ensures Contents == Joined(contents, swapBegin, 8 * PAGES)
      ensures tables.resident == {}
    {
      spi := new SpiRam();
      card := new Card(contents);
      resident := new u8[32](_ => 0);
      frames := new u8[4](_ => 0);
      table := new u8[PAGES](_ => 0);
      isConsecutive, previous := false, 0;
      this.swapBegin := swapBegin;
      tables := Tables({}, {}, seq(PAGES, _ => 0), seq(FRAMES, _ => 0));
      Contents := Joined(contents, swapBegin, 8 * PAGES);
      new;
      hide Valid, Joined, WholeSectors;
      LivesInSwap();
    }

    // With no page resident, the contents are the swap region.
    lemma LivesInSwap()
      requires Shape() && StreamOk() && tables == Tables({}, {}, seq(PAGES, _ => 0), seq(FRAMES, _ => 0))
      requires forall k | 0 <= k < 32 :: resident[k] == 0
      requires forall k | 0 <= k < 4 :: frames[k] == 0
      requires forall k | 0 <= k < PAGES :: table[k] == 0
      requires Contents == Joined(card.sectors, swapBegin, 8 * PAGES)
      ensures Valid()
    {
      hide Members, Joined, Backs, Tables.Bijective;
      ZeroBytesAreEmpty(resident[..]);
      ZeroBytesAreEmpty(frames[..]);
      ClearedTables(tables, S());
    }

    // flush any open sequential read
    method CloseStream()
      requires Shape() && StreamOk()
      modifies this`isConsecutive, spi`open
      ensures Shape() && StreamOk() && !spi.open
    {
      if isConsecutive {
        isConsecutive := false;
        spi.SeqReadEnd();
      }
    }

    // spi_read8
    method SpiRead8(address: u32) returns (b: u8)
      requires Shape() && StreamOk() && address < SPI_SIZE
      modifies this`isConsecutive, this`previous, spi`open, spi`cursor
      ensures Shape() && StreamOk()
      ensures b == spi.data[address] && previous == address
    {
      var bank, low := if address > 0xFFFF then 1 else 0, address % BANK;
      if !isConsecutive && address == previous + 1 {
        isConsecutive := true;
        previous := address;
        spi.SeqReadStart(bank, low);
        b := spi.SeqReadU8();
        return;
      }
      if isConsecutive && address == previous + 1 {
        previous := address;
        b := spi.SeqReadU8();
        return;
      }
      previous := address;
      if isConsecutive {
        isConsecutive := false;
        spi.SeqReadEnd();
        b := spi.ReadU8(bank, low);
      } else {
        b := spi.ReadU8(bank, low);
      }
    }

    method SeekPage(page: nat)
      modifies card`pos
      ensures card.pos == swapBegin + 8 * page
    {
      card.SetPos(swapBegin);
      for i := 0 to page * 8
        invariant card.pos == swapBegin + i
      {
        card.NextSector();
      }
    }

    // One round of the sector loop of flush_physical_page_out.
    method CopySectorOut(bank: nat, address: u16)
      requires Shape() && !spi.open && bank < 2 && address + SECTOR <= BANK && card.pos < |card.sectors|
      modifies card, card.buffer
      ensures Shape() && card.pos == old(card.pos) + 1
      ensures var from := bank * BANK + address;
              card.sectors == old(card.sectors)[old(card.pos) := spi.data[from..from + SECTOR]]
    {
      spi.ReadInto(bank, address, card.buffer);
      card.WriteSector();
      card.NextSector();
    }

    // The sector loop of flush_physical_page_out: frame f goes to the eight sectors at the cursor.
    method CopyOut(f: nat)
      requires Shape() && !spi.open && f < FRAMES && card.pos + 8 <= |card.sectors|
      modifies card, card.buffer
      ensures Shape() && SameOutside(old(card.sectors), card.sectors, old(card.pos), 8)
      ensures Joined(card.sectors, old(card.pos), 8) == Page(spi.data, f)
    {
      hide At, Joined;
      FirstSector(f, card.sectors, card.pos);
      ghost var start, was := card.pos, card.sectors;
      var address := f * PAGE;
      var bank := 0;
      for j := 0 to 8
        invariant Shape() && card.pos == start + j
        invariant At(bank, address, f, j)
        invariant SameOutside(was, card.sectors, start, j)
        invariant Joined(card.sectors, start, j) == spi.data[f * PAGE..f * PAGE + j * SECTOR]
      {
        AtNext(bank, address, f, j);
        if address > 0xFFFF {
          bank := 1;
          address := address % BANK;
        }
        CopiedMore(was, card.sectors, start, j, spi.data, f * PAGE);
        CopySectorOut(bank, address);
        address := address + SECTOR;
      }
    }

    // One round of the sector loop of load_page_in.
    method CopySectorIn(bank: nat, address: u16)
      requires Shape() && !spi.open && bank < 2 && address + SECTOR <= BANK && card.pos < |card.sectors|
      modifies card`pos, card.buffer, spi`data
      ensures Shape() && card.pos == old(card.pos) + 1
      ensures var from := bank * BANK + address;
              Spliced(old(spi.data), spi.data, from, card.sectors[old(card.pos)])
    {
      card.ReadSector();
      spi.WriteFrom(bank, address, card.buffer);
      card.NextSector();
    }

    // The sector loop of load_page_in: the eight sectors at the cursor go to frame f.
    method CopyIn(f: nat)
      requires Shape() && !spi.open && f < FRAMES && card.pos + 8 <= |card.sectors|
      modifies card`pos, card.buffer, spi`data
      ensures Shape() && card.pos == old(card.pos) + 8
      ensures Page(spi.data, f) == Joined(card.sectors, old(card.pos), 8)
      ensures forall g: nat | g < FRAMES && g != f :: Page(spi.data, g) == Page(old(spi.data), g)
    {
      hide At, Joined, Spliced;
      FirstSector(f, card.sectors, card.pos);
      SpliceNothing(spi.data, f * PAGE);
      ghost var start, was := card.pos, spi.data;
      var address := f * PAGE;
      var bank := 0;
      for j := 0 to 8
        invariant Shape() && card.pos == start + j
        invariant At(bank, address, f, j)
        invariant Spliced(was, spi.data, f * PAGE, Joined(card.sectors, start, j))
      {
        AtNext(bank, address, f, j);
        if address > 0xFFFF {
          bank := 1;
          address := address % BANK;
        }
        ghost var mid := spi.data;
        CopySectorIn(bank, address);
        JoinedMore(card.sectors, start, j);
        SpliceMore(was, mid, spi.data, f * PAGE, Joined(card.sectors, start, j), card.sectors[start + j]);
        address := address + SECTOR;
      }
      FrameReplaced(was, spi.data, f, Joined(card.sectors, start, 8));
    }

    // The first loop of flush_physical_page_out.  With a bijective page table it finds the page in
    // frame f, since only frame 0 can be confused with the zero entries of absent pages.
    method FindPageInFrame(f: nat) returns (page: u16)
      requires Shape() && Coupled() && tables.Bijective() && 0 < f < FRAMES && f in tables.used
      ensures page == tables.owner[f] && page < PAGES
    {
      assert table[tables.owner[f]] == f;
      page := 0xFFFF;
      for i := 0 to PAGES
        invariant forall k | 0 <= k < i :: table[k] != f
      {
        if table[i] == f {
          page := i;
          break;
        }
      }
      if page == 0xFFFF {
        // "page not found?"
        assert false;
      }
    }

    // flush_physical_page_out
    method FlushPhysicalPageOut(f: nat)
      requires Valid() && 0 < f < FRAMES && f in tables.used
      modifies Repr()
      ensures Valid() && !spi.open && Contents == old(Contents) && card.pos == old(card.pos)
      ensures tables.owner == old(tables.owner) && Evicted(old(tables), tables, {f})
    {
      hide Backs, Evicted, Tables.Bijective, SameOutside, Members, Store.Swap, Store.Frame;
      ghost var t, s := tables, S();
      var page := WriteBack(f);
      tables := Tables(t.resident - {page}, t.used - {f}, t.table[page := 0], t.owner);
      FlushKeepsContents(t, tables, s, S(), f, Contents);
    }

    // What it does to the arrays and the card.
    method WriteBack(f: nat) returns (page: u16)
      requires Shape() && StreamOk() && Coupled() && tables.Bijective() && 0 < f < FRAMES && f in tables.used
      modifies this`isConsecutive, spi`open, card, card.buffer, frames, resident, table
      ensures Shape() && StreamOk() && !spi.open && card.pos == old(card.pos)
      ensures page == tables.owner[f] && page < PAGES
      ensures Members(resident[..]) == tables.resident - {page} && Members(frames[..]) == tables.used - {f}
      ensures table[..] == tables.table[page := 0]
      ensures SameOutside(old(S()).sectors, S().sectors, swapBegin + 8 * page, 8) && S().Swap(page) == old(S()).Frame(f)
    {
      hide Tables.Bijective, Joined, Page, SameOutside, Members, Store.Swap, Store.Frame, MapBit;
      CloseStream();
      var oldPos := card.GetPos();
      page := FindPageInFrame(f);
      SeekPage(page);
      Unmark(frames, f);
      Unmark(resident, page);
      CopyOut(f);
      table[page] := 0;
      card.SetPos(oldPos);
      StoreHolds(S(), page, f);
      StoreHolds(old(S()), page, f);
    }

    // The first loop of load_page_in: the lowest free frame is 8 * i + firstClear, and firstClear
    // is 0xFF when there is none.
    method FindFreeFrame() returns (i: nat, firstClear: u8)
      requires Shape() && Coupled()
      ensures firstClear == 0xFF ==> tables.Full()
      ensures firstClear != 0xFF ==> firstClear < 8 && i < 4 && IsLowestFree(tables.used, 8 * i + firstClear)
    {
      firstClear := 0xFF;
      i := 0;
      while i < 4
        invariant i <= 4 && firstClear == 0xFF
        invariant forall f: nat | f < 8 * i :: MapBit(frames[..], f)
      {
        firstClear := FindFirstClear(frames[i]);
        if firstClear != 0xFF {
          assert forall f: nat | 8 * i <= f < 8 * i + firstClear :: MapBit(frames[..], f);
          break;
        }
        assert forall f: nat | 8 * i <= f < 8 * i + 8 :: MapBit(frames[..], f);
        i := i + 1;
      }
      if firstClear == 0xFF {
        forall f: nat | f < FRAMES ensures f in tables.used {
          assert MapBit(frames[..], f);
        }
      }
    }

    // The eviction loop of load_page_in: with every frame in use, frames 20..27 are given up.
    method EvictFrames()
      requires Valid() && tables.Full()
      modifies Repr()
      ensures Valid() && !spi.open && Contents == old(Contents)
      ensures Evicted(old(tables), tables, EvictedFrames(8))
    {
      for j := 0 to 8
        invariant Valid() && Contents == old(Contents)
        invariant j > 0 ==> !spi.open
        invariant Evicted(old(tables), tables, EvictedFrames(j))
      {
        ghost var t := tables;
        FlushPhysicalPageOut(EVICT + j);
        EvictedOneMore(old(tables), t, tables, j);
      }
    }

    // The second half of load_page_in: page goes to the free frame f.
    method PutPageIn(page: nat, f: nat)
      requires Valid() && !spi.open && page < PAGES && page !in tables.resident && f < FRAMES && f !in tables.used
      modifies Repr()
      ensures Valid() && !spi.open && Contents == old(Contents)
      ensures Loaded(old(tables), tables, page, f)
    {
      ghost var t, s := tables, S();
      Mark(frames, f);
      Mark(resident, page);
      SeekPage(page);
      CopyIn(f);
      table[page] := f;
      tables := Tables(t.resident + {page}, t.used + {f}, t.table[page := f], t.owner[f := page]);
      LoadKeepsContents(t, tables, s, S(), page, f, Contents);
    }

    // The search of load_page_in for a free frame, with one eviction round when there is none.
    method ObtainFrame() returns (f: nat, ghost mid: Tables)
      requires Valid() && !spi.open
      modifies Repr()
      ensures Valid() && !spi.open && Contents == old(Contents)
      ensures mid == tables && IsLowestFree(mid.used, f)
      ensures if old(tables).Full() then Evicted(old(tables), mid, EvictedFrames(8)) && f == EVICT
              else mid == old(tables)
    {
      var i, firstClear := FindFreeFrame();
      var flag := false;
      while firstClear == 0xFF
        invariant Valid() && !spi.open && Contents == old(Contents)
        invariant if firstClear == 0xFF then tables.Full()
                  else firstClear < 8 && IsLowestFree(tables.used, 8 * i + firstClear)
        invariant if flag then old(tables).Full() && Evicted(old(tables), tables, EvictedFrames(8))
                  else tables == old(tables)
        decreases !flag
      {
        if flag {
          // "flushed but still no page?"
          assert false;
        }
        EvictFrames();
        flag := true;
        i, firstClear := FindFreeFrame();
      }
      f := 8 * i + firstClear;
      mid := tables;
    }

    // load_page_in: with a free frame the lowest one is taken and nothing else moves; with none,
    // exactly the pages in frames 20..27 are dropped first and the page goes to frame 20.
    method LoadPageIn(page: nat) returns (ghost mid: Tables)
      requires Valid() && page < PAGES && page !in tables.resident
      modifies Repr()
      ensures Valid() && !spi.open && Contents == old(Contents)
      ensures mid.Sized() && IsLowestFree(mid.used, table[page]) && Loaded(mid, tables, page, table[page])
      ensures if old(tables).Full() then Evicted(old(tables), mid, EvictedFrames(8)) && table[page] == EVICT
              else mid == old(tables)
    {
      CloseStream();
      var f;
      f, mid := ObtainFrame();
      PutPageIn(page, f);
    }

    // The common start of vm_read8 and vm_write8: load the page if needed and find its bytes.
    method Locate(page: nat, offset: nat) returns (physical: u32)
      requires Valid() && page < PAGES && offset < PAGE
      modifies Repr()
      ensures Valid() && Contents == old(Contents) && (old(!spi.open) ==> !spi.open)
      ensures page in tables.resident && physical == table[page] * PAGE + offset < SPI_SIZE
    {
      if !MapBit(resident[..], page) {
        ghost var mid := LoadPageIn(page);
      }
      physical := table[page] * PAGE + offset;
    }

    // The part of vm_read8 that reads RAM.
    method ReadRam(address: u32) returns (b: u8)
      requires Valid() && address < RAM
      modifies Repr()
      ensures Valid() && Contents == old(Contents)
      ensures b == Contents[address]
    {
      var page, offset := address / PAGE, address % PAGE;
      SplitAddress(address);
      b := ReadAt(page, offset);
    }

    method ReadAt(page: nat, offset: nat) returns (b: u8)
      requires Valid() && page < PAGES && offset < PAGE
      modifies Repr()
      ensures Valid() && Contents == old(Contents)
      ensures b == Contents[page * PAGE + offset]
    {
      hide Backs, Tables.Bijective, Members, Store.Swap, Store.Frame;
      var physical := Locate(page, offset);
      ResidentByte(tables, S(), Contents, page, offset);
      b := SpiRead8(physical);
    }

    // vm_write8
    method Write8(address: u32, value: u8)
      requires Valid()
      modifies Repr()
      ensures Valid() && Contents == old(Contents)[address % RAM := value]
    {
      CloseStream();
      var page, offset := address / PAGE % PAGES, address % PAGE;
      SplitAddress(address);
      WriteAt(page, offset, value);
    }

    method WriteAt(page: nat, offset: nat, value: u8)
      requires Valid() && !spi.open && page < PAGES && offset < PAGE
      modifies Repr()
      ensures Valid() && Contents == old(Contents)[page * PAGE + offset := value]
    {
      var physical := Locate(page, offset);
      StoreResident(page, offset, physical, value);
    }

    method StoreResident(page: nat, offset: nat, physical: u32, value: u8)
      requires Valid() && !spi.open && page in tables.resident && offset < PAGE
      requires physical == table[page] * PAGE + offset < SPI_SIZE
      modifies spi`data, `Contents
      ensures Valid() && Contents == old(Contents)[page * PAGE + offset := value]
    {
      hide Backs, Members, Tables.Bijective;
      WriteKeepsBacking(tables, S(), page, offset, value, Contents);
      PutByte(physical, value);
      Contents := Contents[page * PAGE + offset := value];
    }

    method PutByte(physical: u32, value: u8)
      requires Shape() && !spi.open && physical < SPI_SIZE
      modifies spi`data
      ensures Shape() && spi.data == old(spi.data)[physical := value]
    {
      var bank, address := 0, physical;
      if address > 0xFFFF {
        bank := 1;
        address := address % BANK;
      }
      spi.WriteU8(bank, address, value);
    }
  }
}
