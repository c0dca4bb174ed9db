/** The two devices behind guest memory, reduced to what their drivers promise.

    SPI RAM is a linear array of two 64 KiB banks with one sequential read stream, which must be
    closed around every random access and which runs on from bank 0 into bank 1.  The card is an
    array of 512-byte sectors with a cursor; its driver transfers one sector at a time through a
    shared buffer. */
module Devices {
  import opened Bytes

  const BANK := 0x1_0000
  const SPI_SIZE := 0x2_0000
  const SECTOR := 512

  predicate WholeSectors(sectors: seq<seq<u8>>) {
    forall n | 0 <= n < |sectors| :: |sectors[n]| == SECTOR
  }

  class SpiRam {
    var data: seq<u8>
    var open: bool
    var cursor: nat

    ghost predicate Valid()
      reads `data
    {
      |data| == SPI_SIZE
    }

    constructor ()
      ensures Valid() && !open && fresh(this)
    {
      data := seq(SPI_SIZE, _ => 0);
      open, cursor := false, 0;
    }

    method ReadU8(bank: nat, address: u16) returns (b: u8)
      requires Valid() && !open && bank < 2
      ensures b == data[bank * BANK + address]
    {
      b := data[bank * BANK + address];
    }

    method WriteU8(bank: nat, address: u16, b: u8)
      requires Valid() && !open && bank < 2
      modifies this`data
      ensures Valid() && data == old(data)[bank * BANK + address := b]
    {
      data := data[bank * BANK + address := b];
    }

    method ReadInto(bank: nat, address: u16, buffer: array<u8>)
      requires Valid() && !open && bank < 2 && address + buffer.Length <= BANK
      modifies buffer
      ensures buffer[..] == data[bank * BANK + address..bank * BANK + address + buffer.Length]
    {
      var from := bank * BANK + address;
      forall k | 0 <= k < buffer.Length {
        buffer[k] := data[from + k];
      }
    }

    method WriteFrom(bank: nat, address: u16, buffer: array<u8>)
      requires Valid() && !open && bank < 2 && address + buffer.Length <= BANK
      modifies this`data
      ensures Valid()
      ensures data == old(data)[..bank * BANK + address] + buffer[..]
                      + old(data)[bank * BANK + address + buffer.Length..]
    {
      var from := bank * BANK + address;
      data := data[..from] + buffer[..] + data[from + buffer.Length..];
    }

    method SeqReadStart(bank: nat, address: u16)
      requires Valid() && !open && bank < 2
      modifies this`open, this`cursor
      ensures open && cursor == bank * BANK + address
    {
      open, cursor := true, bank * BANK + address;
    }

    method SeqReadU8() returns (b: u8)
      requires Valid() && open && cursor < SPI_SIZE
      modifies this`cursor
      ensures b == data[old(cursor)] && cursor == old(cursor) + 1
    {
      b := data[cursor];
      cursor := cursor + 1;
    }

    method SeqReadEnd()
      requires open
      modifies this`open
      ensures !open
    {
      open := false;
    }
  }

  class Card {
    var sectors: seq<seq<u8>>
    var pos: nat
    const buffer: array<u8>

    ghost predicate Valid()
      reads `sectors
    {
      buffer.Length == SECTOR && WholeSectors(sectors)
    }

    constructor (contents: seq<seq<u8>>)
      requires WholeSectors(contents)
      ensures Valid() && sectors == contents && fresh(this) && fresh(buffer)
    {
      buffer := new u8[SECTOR];
      sectors, pos := contents, 0;
    }

    method GetPos() returns (p: nat)
      ensures p == pos
    {
      p := pos;
    }

    method SetPos(p: nat)
      modifies this`pos
      ensures pos == p
    {
      pos := p;
    }

    method NextSector()
      modifies this`pos
      ensures pos == old(pos) + 1
    {
      pos := pos + 1;
    }

    method ReadSector()
      requires Valid() && pos < |sectors|
      modifies buffer
      ensures buffer[..] == sectors[pos]
    {
      forall k | 0 <= k < SECTOR {
        buffer[k] := sectors[pos][k];
      }
    }

    method WriteSector()
      requires Valid() && pos < |sectors|
      modifies this`sectors
      ensures Valid() && sectors == old(sectors)[pos := buffer[..]]
    {
      sectors := sectors[pos := buffer[..]];
    }
  }
}
