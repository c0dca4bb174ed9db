/** The kernel heap: a first-fit allocator over one array of bytes, which holds its own free list. */
module Heap {
  import opened Bytes
  import opened Sequences
  import opened HeapBlocks

  // No free block has n bytes.
  ghost predicate NoneFits(b: Blocks, n: nat)
    requires Sorted(b)
  {
    forall j | 0 <= j < |b.free| :: b.size[b.free[j]] < n
  }

  // Block k of the free list is the first that has n bytes.
  ghost predicate FirstFit(b: Blocks, k: nat, n: nat)
    requires Sorted(b)
  {
    k < |b.free| && b.size[b.free[k]] >= n && forall j | 0 <= j < k :: b.size[b.free[j]] < n
  }

  class Allocator {
    var mem: seq<u8>
    var freeListHead: u32
    var totalHeapSize: u32
    ghost var blocks: Blocks

    ghost predicate Valid()
      reads this
    {
      Inv(mem, freeListHead, blocks)
    }

    constructor (contents: seq<u8>)
      requires |contents| == MEMORY
      ensures mem == contents
    {
      mem, freeListHead, totalHeapSize, blocks := contents, 0, 0, START;
    }

    // initialize_allocator
    method Initialize()
      requires |mem| == MEMORY
      modifies this
      ensures Valid() && blocks == START && totalHeapSize == 0
      ensures forall i | 0 <= i < MEMORY && !InHeap(i) :: mem[i] == old(mem[i])
    {
      hide Inv, SetWord;
      Starting(mem);
      freeListHead := 0x1000;
      mem := SetWord(mem, freeListHead, 0x1_6FFF - freeListHead);
      totalHeapSize := 0;
      mem := SetWord(mem, freeListHead + 4, 0);
      mem := SetWord(mem, freeListHead + 8, 0x2_0000);
      mem := SetWord(mem, 0x2_0000, 0xE_0000);
      mem := SetWord(mem, 0x2_0000 + 4, freeListHead);
      mem := SetWord(mem, 0x2_0000 + 8, 0);
      blocks := START;
    }

    // The search of allocate_memory: the first block of at least realSize bytes, or 0.
    method FindBlock(realSize: nat) returns (block: u32, ghost k: nat)
      requires Valid()
      ensures Sorted(blocks) && |mem| == MEMORY
      ensures block == 0 ==> NoneFits(blocks, realSize)
      ensures block != 0 ==> FirstFit(blocks, k, realSize) && block == blocks.free[k] && block in blocks.size
                             && block + 12 <= MEMORY && SizeOf(mem, block) == blocks.size[block]
    {
      hide Inv, SizeOf, PrevOf, NextOf;
      HeadIsFree(mem, freeListHead, blocks);
      block, k := freeListHead, 0;
      while block != 0
        invariant k <= |blocks.free| && block == if k < |blocks.free| then blocks.free[k] else 0
        invariant forall j | 0 <= j < k :: blocks.size[blocks.free[j]] < realSize
        decreases |blocks.free| - k
      {
        Neighbours(mem, freeListHead, blocks, k);
        if SizeOf(mem, block) >= realSize {
          return;
        }
        block := NextOf(mem, block);
        k := k + 1;
      }
      if k < |blocks.free| {
        Neighbours(mem, freeListHead, blocks, k);
      }
    }

    // The whole block is granted: it leaves the free list.
    method Unlink(block: u32, ghost b: Blocks, ghost k: nat)
      requires k < |b.free| && block == b.free[k] && blocks == b && Valid()
      modifies this`mem, this`freeListHead, this`blocks
      ensures blocks == Blocks(Without(b.free, k), b.live + {block}, b.size)
      ensures block !in b.live && Kept(old(mem), mem, b.live, b.size) && Valid()
    {
      hide Inv, SizeOf, PrevOf, NextOf, SetWord, Kept, Without;
      Unlinking(mem, freeListHead, blocks, k);
      var next := NextOf(mem, block);
      var prev := PrevOf(mem, block);
      if next != 0 {
        mem := SetWord(mem, next + 4, prev);
      }
      if prev != 0 {
        mem := SetWord(mem, prev + 8, next);
      } else {
        freeListHead := next;
      }
      blocks := Blocks(Without(blocks.free, k), blocks.live + {blocks.free[k]}, blocks.size);
    }

    // The tail of the block is granted: it gets a header of its own.
    method Carve(block: u32, realSize: nat, ghost k: nat) returns (tail: u32)
      requires Valid() && k < |blocks.free| && block == blocks.free[k] && block in blocks.size
      requires 12 < realSize && realSize + 12 < blocks.size[block]
      modifies this`mem, this`blocks
      ensures Valid() && Kept(old(mem), mem, old(blocks.live), old(blocks.size))
      ensures tail == block + old(blocks.size[block]) - realSize && tail !in old(blocks.live) && tail != block
      ensures blocks == Blocks(old(blocks.free), old(blocks.live) + {tail}, Split(old(blocks.size), block, realSize))
    {
      hide Inv, PrevOf, NextOf, SetWord, Kept, Word, Split;
      Carving(mem, freeListHead, blocks, k, realSize);
      mem := SetWord(mem, block, SizeOf(mem, block) - realSize);
      tail := block + SizeOf(mem, block);
      mem := SetWord(mem, tail, realSize);
      blocks := Blocks(blocks.free, blocks.live + {tail}, Split(blocks.size, block, realSize));
    }

    // The clearing loop, of at least one byte.
    method Clear(block: u32, count: nat)
      requires Valid() && block in blocks.live && block in blocks.size && 0 < count && count + 12 <= blocks.size[block]
      modifies this`mem
      ensures Valid() && Kept(old(mem), mem, blocks.live - {block}, blocks.size)
      ensures block + 12 + count <= MEMORY && forall i | block + 12 <= i < block + 12 + count :: mem[i] == 0
    {
      ghost var m := mem;
      var r31 := count;
      var r0 := block + 12;
      while r31 > 0
        invariant 0 <= r31 <= count && r0 + r31 == block + 12 + count
        invariant OnlyIn(m, mem, block + 12, block + blocks.size[block])
        invariant forall i | block + 12 <= i < r0 :: mem[i] == 0
      {
        mem := mem[r0 := 0];
        r0 := r0 + 1;
        r31 := r31 - 1;
      }
      hide Covered, Sum;
      PayloadSet(m, mem, blocks.size, block, blocks.free, freeListHead);
      KeptOutside(m, mem, blocks.live - {block}, blocks.size, block, block + 12, block + blocks.size[block]);
    }

    // allocate_memory; k is the place of the granted block in the free list.
    method Allocate(request: u32) returns (r: u32, ghost k: nat)
      requires Valid() && 1 <= request && request + 12 < WORD
      modifies this
      ensures Valid() && old(Sorted(blocks))
      ensures r == 0 <==> old(NoneFits(blocks, request + 12))
      ensures r == 0 ==> mem == old(mem) && blocks == old(blocks) && totalHeapSize == old(totalHeapSize)
      ensures r != 0 ==> old(FirstFit(blocks, k, request + 12)) && Granted(old(blocks), blocks, k, r, request)
      ensures r != 0 ==> totalHeapSize == Wrap(old(totalHeapSize) + request + 12)
      ensures r != 0 ==> r + request <= MEMORY && forall i | r <= i < r + request :: mem[i] == 0
      ensures Kept(old(mem), mem, old(blocks.live), old(blocks.size))
    {
      hide Inv, SizeOf, Kept, Layout, Sorted;
      ghost var m, b := mem, blocks;
      var block;
      var realSize := request + 12;
      block, k := FindBlock(realSize);
      if block == 0 {
        KeptSame(m, b.live, b.size);
        return 0, 0;
      }
      LiveInSize(b);
      var limit := realSize + 12 + 16;
      if SizeOf(mem, block) > limit {
        block := Carve(block, realSize, k);
      } else {
        Unlink(block, b, k);
      }
      ghost var m1 := mem;
      Clear(block, realSize - 12);
      assert blocks.live - {block} == b.live;
      KeptAlso(m1, mem, b.live, b.size, blocks.size);
      KeptTwice(m, m1, mem, b.live, b.size);
      r := block + 12;
      totalHeapSize := Wrap(totalHeapSize + realSize);
    }

    // free_memory
    method Free(p: u32)
      requires Valid() && p >= 12 && p - 12 in blocks.live
      modifies this
      ensures Valid() && blocks == Blocks([p - 12] + old(blocks.free), old(blocks.live) - {p - 12}, old(blocks.size))
      ensures Kept(old(mem), mem, blocks.live, blocks.size)
      ensures p - 12 in blocks.size && totalHeapSize == Wrap(old(totalHeapSize) - blocks.size[p - 12])
    {
      hide Inv, PrevOf, NextOf, SizeOf, SetWord, Kept;
      var block := p - 12;
      Relinking(mem, freeListHead, blocks, block);
      totalHeapSize := Wrap(totalHeapSize - SizeOf(mem, block));
      mem := SetWord(mem, block + 4, 0);
      mem := SetWord(mem, block + 8, freeListHead);
      if freeListHead != 0 {
        mem := SetWord(mem, freeListHead + 4, block);
      }
      freeListHead := block;
      blocks := Blocks([block] + blocks.free, blocks.live - {block}, blocks.size);
    }
  }

  // What a grant of `request` bytes at r does to the blocks: the tail of block k when more than 28
  // bytes of it are left over, else all of it.
  ghost predicate Granted(b: Blocks, b': Blocks, k: nat, r: nat, request: nat)
    requires Sorted(b)
  {
    && k < |b.free| && 12 <= r && r - 12 !in b.live && b'.live == b.live + {r - 12}
    && var c := b.free[k];
       if b.size[c] > request + 40 then
         && r == c + b.size[c] - request && b'.free == b.free
         && b'.size == b.size[c := b.size[c] - request - 12][r - 12 := request + 12]
       else
         r == c + 12 && b'.free == Without(b.free, k) && b'.size == b.size
  }

  // The granted block holds the request, lies apart from every other block, and what is left of the
  // block it was carved from can hold more than 16 bytes.
  lemma GrantIsApart(m: seq<u8>, m': seq<u8>, head: u32, head': u32, b: Blocks, b': Blocks, k: nat, r: nat, request: nat)
    requires Inv(m, head, b) && Inv(m', head', b') && FirstFit(b, k, request + 12) && Granted(b, b', k, r, request)
    ensures r - 12 in b'.size && b'.size[r - 12] >= request + 12
    ensures forall a | a in b'.size && a != r - 12 :: Apart(a, b'.size[a], r - 12, b'.size[r - 12])
    ensures forall a | a in b.live :: a in b.size && a in b'.size && b'.size[a] == b.size[a]
    ensures r - 12 != b.free[k] ==> b.free[k] in b'.size && b'.size[b.free[k]] > 12 + 16
  {
    hide Covered, Sum, Headers, Linked;
    FreeInSize(b);
    Neighbours(m, head, b, k);
  }
}
