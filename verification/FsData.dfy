/** Data block allocation of os/fs/fs_data.c over the disk bitmap. */
module FsData {
  import opened BitmapModel
  import opened DiskBitmap
  import opened Disk

  /** The allocator with the blocks it has handed out and not got back. */
  class BlockAllocator {
    const bitmap: Bitmap
    ghost var held: set<nat>

    /** fs_data_init */
    constructor (disk: Drive<Block>, startSector: nat, blockCount: nat)
      requires blockCount > 0 && blockCount % 8 == 0 && blockCount + BLOCK_BITS < FAILURE
      modifies disk
      ensures Valid() && Exact() && held == {} && bitmap.blockIndex == 0 && bitmap.totalBits == blockCount
        && bitmap.usedBits == 0
      ensures forall b: nat :: b < blockCount ==> !IsSet(bitmap.Logical(), b)
      ensures fresh(bitmap) && fresh(bitmap.block) && bitmap.disk == disk
    {
      bitmap := new Bitmap(disk, startSector, blockCount);
      held := {};
    }

    ghost predicate Valid()
      reads this, bitmap, bitmap.block, bitmap.disk
    {
      bitmap.Valid() && forall b :: b in held ==> b < bitmap.totalBits && IsSet(bitmap.Logical(), b)
    }

    /** Every block marked is one handed out and not got back: none is lost. */
    ghost predicate Exact()
      reads this, bitmap, bitmap.block, bitmap.disk
    {
      forall b: nat :: b < bitmap.totalBits && IsSet(bitmap.Logical(), b) ==> b in held
    }

    /** The counter never passes the number of blocks, and reaches it exactly when no block is free. */
    lemma CounterBounded()
      requires Valid()
      ensures bitmap.usedBits <= bitmap.totalBits
    {
    }

    lemma FullIffCounted()
      requires Valid()
      ensures Full(bitmap.Logical(), bitmap.totalBits) <==> bitmap.usedBits == bitmap.totalBits
    {
      CountFull(bitmap.Logical(), bitmap.totalBits);
    }

    /**
     * fs_data_alloc_block fails exactly when no block is free. Otherwise it hands out one that was free, held by no
     * one, and marks that one alone.
     */
    method AllocBlock() returns (block: nat)
      requires Valid()
      modifies this, bitmap`dirty, bitmap`blockIndex, bitmap`usedBits, bitmap.block, bitmap.disk
      ensures Valid()
      ensures block == FAILURE <==> Full(old(bitmap.Logical()), bitmap.totalBits)
      ensures old(Exact()) ==> Exact()
      ensures block == FAILURE ==> held == old(held) && bitmap.Logical() == old(bitmap.Logical())
      ensures block != FAILURE ==>
        && block < bitmap.totalBits && !IsSet(old(bitmap.Logical()), block) && IsSet(bitmap.Logical(), block)
        && AgreeExcept(old(bitmap.Logical()), bitmap.Logical(), block, BLOCK_BITS * bitmap.blockCount)
        && block !in old(held) && held == old(held) + {block}
        && bitmap.usedBits == old(bitmap.usedBits) + 1 && bitmap.blockIndex == block / BLOCK_BITS
        && old(bitmap.Order()) != [] && block == old(bitmap.Order())[0] && bitmap.Order() == old(bitmap.Order())[1..]
    {
      hide IsSet, BlocksValid, BlockValid, Overlay, FreeOrder;
      block := bitmap.Take();
      if block == FAILURE {
        return;
      }
      held := held + {block};
    }

    /**
     * fs_data_free_block of a held block. The bit is cleared exactly when the block loaded beforehand has its bit at
     * that offset set, which it has if it is the block's own; otherwise the block stays marked and is lost. A bitmap of
     * one block, as the configured file system has, loses none.
     */
    method FreeBlock(block: nat)
      requires Valid() && block in held
      modifies this, bitmap`dirty, bitmap`blockIndex, bitmap`usedBits, bitmap.block, bitmap.disk
      ensures Valid() && held == old(held) - {block}
      ensures BitAt(old(bitmap.block[..]), block) ==>
        && !IsSet(bitmap.Logical(), block) && bitmap.usedBits == old(bitmap.usedBits) - 1
        && AgreeExcept(old(bitmap.Logical()), bitmap.Logical(), block, BLOCK_BITS * bitmap.blockCount)
      ensures !BitAt(old(bitmap.block[..]), block) ==>
        bitmap.Logical() == old(bitmap.Logical()) && bitmap.usedBits == old(bitmap.usedBits)
      ensures old(bitmap.blockIndex) == block / BLOCK_BITS ==> BitAt(old(bitmap.block[..]), block)
      ensures old(Exact()) ==> (Exact() <==> BitAt(old(bitmap.block[..]), block))
      ensures bitmap.blockCount == 1 ==> BitAt(old(bitmap.block[..]), block) && (old(Exact()) ==> Exact())
    {
      hide IsSet, BlocksValid, BlockValid, Overlay, BitAt;
      ghost var blocks := bitmap.Logical();
      if bitmap.blockIndex == block / BLOCK_BITS {
        bitmap.OffsetLoaded(block);
      }
      bitmap.Unset(block);
      if BitAt(old(bitmap.block[..]), block) {
        CountFlip(bitmap.Logical(), blocks, block, bitmap.totalBits);
      }
      held := held - {block};
    }
  }

  /**
   * A run that loses a block. Of 8192 blocks the first 4097 are handed out, which leaves the second block of the bitmap
   * loaded; block 5 is then freed, but the bit at its offset in that block is clear, so it stays marked.
   */
  method LosesBlock(disk: Drive<Block>) returns (allocator: BlockAllocator)
    modifies disk
    ensures allocator.Valid() && 5 !in allocator.held && IsSet(allocator.bitmap.Logical(), 5)
    ensures allocator.bitmap.usedBits == 4097 && !allocator.Exact()
  {
    hide Overlay, BlockValid, BlocksValid, BitAt, Count, FreeOrder, ClearBits;
    allocator := new BlockAllocator(disk, 0, 8192);
    var bitmap := allocator.bitmap;
    FreshOrder(bitmap.Logical(), 8192);
    var i := 0;
    while i < 4097
      invariant i <= 4097 && allocator.Valid() && fresh(allocator) && fresh(bitmap) && fresh(bitmap.block)
      invariant bitmap.disk == disk && bitmap.totalBits == 8192 && bitmap.usedBits == i
      invariant bitmap.blockIndex == if i == 0 then 0 else (i - 1) / BLOCK_BITS
      invariant |bitmap.Order()| == 8192 - i && forall k :: 0 <= k < 8192 - i ==> bitmap.Order()[k] == i + k
      invariant forall b: nat :: b in allocator.held <==> b < i
    {
      FreeOrderExact(bitmap.Logical(), bitmap.blockIndex, 8192);
      assert bitmap.Order()[0] == i && !IsSet(bitmap.Logical(), i);
      var block := allocator.AllocBlock();
      i := i + 1;
    }
    FreeOrderExact(bitmap.Logical(), bitmap.blockIndex, 8192);
    assert bitmap.Order()[4] == 4101;
    bitmap.OffsetLoaded(4101);
    SameOffsetReads(bitmap.block[..], 5, 4101);
    allocator.FreeBlock(5);
  }

  lemma SameOffsetReads(block: Block, a: nat, b: nat)
    requires |block| == BLOCK_WORDS && a % BLOCK_BITS == b % BLOCK_BITS
    ensures BitAt(block, a) == BitAt(block, b)
  {
    hide WordIndex;
    OffsetSplits(a);
    OffsetSplits(b);
  }

  lemma FreshOrder(blocks: Blocks, total: nat)
    requires forall bit: nat :: bit < total ==> !IsSet(blocks, bit)
    ensures |FreeOrder(blocks, 0, total)| == total
    ensures forall k :: 0 <= k < total ==> FreeOrder(blocks, 0, total)[k] == k
  {
    AllClearBits(blocks, 0, total);
  }
}
