/**
 * structure/memory.cpp: the bump-pointer arena the skip list allocates from.
 * Memory is handed out from the current 4096-byte block; a request that does
 * not fit starts a new block, or gets a block of its own when it is larger
 * than a quarter block.
 *
 * A pointer into the arena is a block index and an offset. Blocks come from
 * operator new[], whose result is aligned for any fundamental type, so the
 * address of a pointer modulo 8 (the size of a pointer) is its offset modulo 8.
 */
module Arena {
  import opened Coding

  const BlockSize: int := 4096
  const Align: int := 8

  datatype Pointer = Null | At(block: nat, offset: nat)

  /** The low bits of a pointer's address, `address & (align - 1)`. */
  function AddressMod(p: Pointer): (m: nat)
    ensures m < Align
  {
    if p.Null? then 0 else p.offset % Align
  }

  predicate Aligned(p: Pointer) {
    AddressMod(p) == 0
  }

  /** p moved forward by n bytes. */
  function Advance(p: Pointer, n: nat): Pointer {
    if p.Null? then p else At(p.block, p.offset + n)
  }

  /** The padding that brings the current pointer up to alignment. */
  function Slop(p: Pointer): (s: nat)
    ensures s < Align
    ensures Aligned(Advance(p, s))
  {
    var m := AddressMod(p);
    if m == 0 then 0 else Align - m
  }

  /** A handed-out stretch of memory: `size` bytes at `start` in block `block`. */
  datatype Region = Region(block: nat, start: nat, size: nat)

  predicate Disjoint(r: Region, s: Region) {
    r.block != s.block || r.start + r.size <= s.start || s.start + s.size <= r.start
  }

  function TotalSize(bs: seq<array<uint8>>): nat {
    if bs == [] then 0 else TotalSize(bs[..|bs| - 1]) + bs[|bs| - 1].Length
  }

  class Memory {
    var allocPtr: Pointer
    var allocBytesRemaining: int
    var blocks: seq<array<uint8>>
    var blocksMemory: int
    /** Every region handed out so far, in order. */
    ghost var regions: seq<Region>

    ghost predicate Valid()
      reads this
    {
      && blocksMemory == TotalSize(blocks)
      && 0 <= allocBytesRemaining
      && (allocPtr.Null? ==> allocBytesRemaining == 0)
      && (allocPtr.At? ==>
            allocPtr.block < |blocks| &&
            allocPtr.offset + allocBytesRemaining == blocks[allocPtr.block].Length)
      && (forall i :: 0 <= i < |regions| ==>
            regions[i].block < |blocks| &&
            regions[i].start + regions[i].size <= blocks[regions[i].block].Length)
      && (forall i :: 0 <= i < |regions| && allocPtr.At? && regions[i].block == allocPtr.block ==>
            regions[i].start + regions[i].size <= allocPtr.offset)
      && (forall i, j :: 0 <= i < j < |regions| ==> Disjoint(regions[i], regions[j]))
    }

    /** A new arena owns no blocks and has nothing left to hand out. */
    constructor ()
      ensures Valid()
      ensures blocks == [] && blocksMemory == 0
      ensures allocPtr == Null && allocBytesRemaining == 0
      ensures regions == []
    {
      blocksMemory := 0;
      allocPtr := Null;
      allocBytesRemaining := 0;
      blocks := [];
      regions := [];
    }

    /** AllocateNewBlock: appends one fresh block of blockBytes and counts it. */
    method AllocateNewBlock(blockBytes: nat) returns (result: Pointer)
      requires Valid()
      modifies this
      ensures Valid()
      ensures |blocks| == |old(blocks)| + 1 && blocks[..|old(blocks)|] == old(blocks)
      ensures fresh(blocks[|old(blocks)|]) && blocks[|old(blocks)|].Length == blockBytes
      ensures blocksMemory == old(blocksMemory) + blockBytes
      ensures result == At(|old(blocks)|, 0)
      ensures allocPtr == old(allocPtr) && allocBytesRemaining == old(allocBytesRemaining)
      ensures regions == old(regions)
    {
      var block := new uint8[blockBytes];
      result := At(|blocks|, 0);
      blocks := blocks + [block];
      assert blocks[..|blocks| - 1] == old(blocks);
      blocksMemory := blocksMemory + blockBytes;
    }

    /**
     * AllocateFallback: a request over a quarter block gets a block of its own
     * and the current block is kept; otherwise a new current block is started
     * and the rest of the old one is abandoned.
     */
    method AllocateFallback(bytes: nat) returns (result: Pointer)
      requires Valid()
      modifies this
      ensures Valid()
      ensures |blocks| == |old(blocks)| + 1 && blocks[..|old(blocks)|] == old(blocks)
      ensures fresh(blocks[|old(blocks)|])
      ensures result == At(|old(blocks)|, 0)
      ensures regions == old(regions) + [Region(result.block, 0, bytes)]
      ensures bytes > BlockSize / 4 ==>
        && blocks[|old(blocks)|].Length == bytes
        && blocksMemory == old(blocksMemory) + bytes
        && allocPtr == old(allocPtr) && allocBytesRemaining == old(allocBytesRemaining)
      ensures bytes <= BlockSize / 4 ==>
        && blocks[|old(blocks)|].Length == BlockSize
        && blocksMemory == old(blocksMemory) + BlockSize
        && allocPtr == At(|old(blocks)|, bytes) && allocBytesRemaining == BlockSize - bytes
    {
      if bytes > BlockSize / 4 {
        result := AllocateNewBlock(bytes);
      } else {
        result := AllocateNewBlock(BlockSize);
        allocPtr := Advance(result, bytes);
        allocBytesRemaining := BlockSize - bytes;
      }
      var region := Region(result.block, 0, bytes);
      assert forall i :: 0 <= i < |regions| ==> regions[i].block < result.block && Disjoint(regions[i], region);
      regions := regions + [region];
    }

    /** Allocate: bytes from the current block when they fit, else from the fallback. */
    method Allocate(bytes: int) returns (result: Pointer)
      requires bytes > 0
      requires Valid()
      modifies this
      ensures Valid()
      ensures result.At? && regions == old(regions) + [Region(result.block, result.offset, bytes)]
      ensures bytes <= old(allocBytesRemaining) ==>
        && result == old(allocPtr)
        && allocPtr == Advance(old(allocPtr), bytes)
        && allocBytesRemaining == old(allocBytesRemaining) - bytes
        && blocks == old(blocks) && blocksMemory == old(blocksMemory)
      ensures bytes > old(allocBytesRemaining) ==>
        && |blocks| == |old(blocks)| + 1 && blocks[..|old(blocks)|] == old(blocks)
        && fresh(blocks[|old(blocks)|])
        && result == At(|old(blocks)|, 0)
      ensures bytes > old(allocBytesRemaining) && bytes > BlockSize / 4 ==>
        && blocks[|old(blocks)|].Length == bytes
        && blocksMemory == old(blocksMemory) + bytes
        && allocPtr == old(allocPtr) && allocBytesRemaining == old(allocBytesRemaining)
      ensures bytes > old(allocBytesRemaining) && bytes <= BlockSize / 4 ==>
        && blocks[|old(blocks)|].Length == BlockSize
        && blocksMemory == old(blocksMemory) + BlockSize
        && allocPtr == At(|old(blocks)|, bytes) && allocBytesRemaining == BlockSize - bytes
    {
      if bytes <= allocBytesRemaining {
        result := allocPtr;
        allocPtr := Advance(allocPtr, bytes);
        allocBytesRemaining := allocBytesRemaining - bytes;
        regions := regions + [Region(result.block, result.offset, bytes)];
        return;
      }
      result := AllocateFallback(bytes);
    }

    /**
     * AllocateAligned: like Allocate, but the current pointer is first padded
     * to a multiple of 8; the fallback always returns the start of a block.
     */
    method AllocateAligned(bytes: nat) returns (result: Pointer)
      requires Valid()
      modifies this
      ensures Valid()
      ensures Aligned(result)
      ensures result.At? ==> regions == old(regions) + [Region(result.block, result.offset, bytes)]
      ensures result.Null? ==> bytes == 0 && regions == old(regions)
      ensures bytes + Slop(old(allocPtr)) <= old(allocBytesRemaining) ==>
        && result == Advance(old(allocPtr), Slop(old(allocPtr)))
        && allocPtr == Advance(old(allocPtr), bytes + Slop(old(allocPtr)))
        && allocBytesRemaining == old(allocBytesRemaining) - bytes - Slop(old(allocPtr))
        && blocks == old(blocks) && blocksMemory == old(blocksMemory)
      ensures bytes + Slop(old(allocPtr)) > old(allocBytesRemaining) ==>
        && |blocks| == |old(blocks)| + 1 && blocks[..|old(blocks)|] == old(blocks)
        && fresh(blocks[|old(blocks)|])
        && result == At(|old(blocks)|, 0)
      ensures bytes + Slop(old(allocPtr)) > old(allocBytesRemaining) && bytes > BlockSize / 4 ==>
        && blocks[|old(blocks)|].Length == bytes
        && blocksMemory == old(blocksMemory) + bytes
        && allocPtr == old(allocPtr) && allocBytesRemaining == old(allocBytesRemaining)
      ensures bytes + Slop(old(allocPtr)) > old(allocBytesRemaining) && bytes <= BlockSize / 4 ==>
        && blocks[|old(blocks)|].Length == BlockSize
        && blocksMemory == old(blocksMemory) + BlockSize
        && allocPtr == At(|old(blocks)|, bytes) && allocBytesRemaining == BlockSize - bytes
    {
      var currentMod := AddressMod(allocPtr);
      var slop := if currentMod == 0 then 0 else Align - currentMod;
      var needed := bytes + slop;
      if needed <= allocBytesRemaining {
        result := Advance(allocPtr, slop);
        allocPtr := Advance(allocPtr, needed);
        allocBytesRemaining := allocBytesRemaining - needed;
        if result.At? {
          regions := regions + [Region(result.block, result.offset, bytes)];
        }
      } else {
        result := AllocateFallback(bytes);
      }
    }
  }

  /** Regions recorded by a valid arena never overlap: at most one owner per byte. */
  lemma RegionsDisjoint(m: Memory, i: nat, j: nat)
    requires m.Valid()
    requires i < |m.regions| && j < |m.regions| && i != j
    ensures Disjoint(m.regions[i], m.regions[j])
  {
    if j < i {
      assert Disjoint(m.regions[j], m.regions[i]);
    }
  }
}
