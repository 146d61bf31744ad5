/** The bitmap of os/lib/bitmap.c: one block of an on-disk bitmap is loaded at a time and written back when dirty. */
module DiskBitmap {
  import opened Common
  import opened Bits
  import opened BitmapModel
  import opened Disk

  const FAILURE: nat := 0xFFFF_FFFF_FFFF_FFFF

  /** The whole bitmap: what is on disk, overlaid by the loaded block. */
  function Overlay(sectors: map<nat, Block>, start: nat, count: nat, index: nat, loaded: Block): Blocks {
    seq(count, i requires 0 <= i < count =>
      if i == index then loaded else if start + i in sectors then sectors[start + i] else [])
  }

  /** Writing the loaded block back changes nothing but the disk. */
  lemma WriteBackKeeps(sectors: map<nat, Block>, start: nat, count: nat, index: nat, loaded: Block, next: nat)
    requires index < count && next < count
    ensures var sectors' := sectors[start + index := loaded];
      start + next in sectors' ==>
        Overlay(sectors', start, count, next, sectors'[start + next]) == Overlay(sectors, start, count, index, loaded)
  {
  }

  function BlockCountFor(size: nat): nat {
    (size / 8 + 511) / 512
  }

  lemma BlocksFit(size: nat)
    requires size > 0 && size % 8 == 0
    ensures var n := BlockCountFor(size);
      n > 0 && BLOCK_BITS * (n - 1) < size <= BLOCK_BITS * n
  {
  }

  function ZeroBlock(): Block {
    seq(BLOCK_WORDS, _ => 0)
  }

  lemma ZeroBlockClear(bit: nat)
    ensures BlockValid(ZeroBlock()) && !BitAt(ZeroBlock(), bit)
  {
    ZeroBit(bit % WORD_BITS);
  }

  /** A fresh bitmap: every block zero but the last, whose bits from the given offset on are set. */
  ghost predicate FreshBlocks(blocks: Blocks, extra: nat) {
    && BlocksValid(blocks) && |blocks| > 0
    && (forall b :: 0 <= b < |blocks| - 1 ==> blocks[b] == ZeroBlock())
    && forall bit: nat :: BitAt(blocks[|blocks| - 1], bit) == (bit % BLOCK_BITS >= extra)
  }

  lemma FreshBlocksBits(blocks: Blocks, extra: nat, size: nat)
    requires FreshBlocks(blocks, extra) && extra <= BLOCK_BITS && size == BLOCK_BITS * (|blocks| - 1) + extra
    ensures forall bit: nat :: bit < BLOCK_BITS * |blocks| ==> IsSet(blocks, bit) == (bit >= size)
    ensures Count(blocks, size) == 0
  {
    forall bit: nat | bit < BLOCK_BITS * |blocks| ensures IsSet(blocks, bit) == (bit >= size) {
      ZeroBlockClear(bit);
    }
    NoneSet(blocks, size);
  }

  lemma {:induction false} NoneSet(blocks: Blocks, n: nat)
    requires forall bit: nat :: bit < n ==> !IsSet(blocks, bit)
    ensures Count(blocks, n) == 0
  {
    if n > 0 { NoneSet(blocks, n - 1); }
  }

  /** Fills a zeroed model of the last block: bits from the given offset on are set. */
  method PaddedBlock(extra: nat) returns (model: array<nat>)
    requires extra <= BLOCK_BITS
    ensures fresh(model) && model.Length == BLOCK_WORDS && BlockValid(model[..])
    ensures forall bit: nat :: BitAt(model[..], bit) == (bit % BLOCK_BITS >= extra)
  {
    hide BitAt;
    model := new nat[BLOCK_WORDS](_ => 0);
    assert model[..] == ZeroBlock();
    forall bit: nat ensures !BitAt(model[..], bit) {
      ZeroBlockClear(bit);
    }
    ZeroBlockClear(0);
    for i := 0 to extra
      invariant BlockValid(model[..]) && forall bit: nat :: !BitAt(model[..], bit)
    {
      ClearModelBit(model, i);
    }
    for i := extra to BLOCK_BITS
      invariant BlockValid(model[..]) && forall bit: nat :: BitAt(model[..], bit) == (extra <= bit % BLOCK_BITS < i)
    {
      SetModelBit(model, i);
    }
  }

  /** block[(bit % (block_size * 8)) / 64] |= 1 << (bit % 64) */
  method SetModelBit(model: array<nat>, bit: nat)
    requires model.Length == BLOCK_WORDS && BlockValid(model[..])
    modifies model
    ensures BlockValid(model[..])
    ensures forall b: nat :: BitAt(model[..], b) == (BitAt(old(model[..]), b) || b % BLOCK_BITS == bit % BLOCK_BITS)
  {
    hide BitAt, BlockValid;
    ghost var before := model[..];
    SetChangesOneBit(before, bit);
    model[WordIndex(bit)] := SetBit(model[WordIndex(bit)], bit % WORD_BITS);
    assert model[..] == before[WordIndex(bit) := SetBit(before[WordIndex(bit)], bit % WORD_BITS)];
  }

  /** block[(bit % (block_size * 8)) / 64] &= ~(1 << (bit % 64)) */
  method ClearModelBit(model: array<nat>, bit: nat)
    requires model.Length == BLOCK_WORDS && BlockValid(model[..])
    modifies model
    ensures BlockValid(model[..])
    ensures forall b: nat :: BitAt(model[..], b) == (BitAt(old(model[..]), b) && b % BLOCK_BITS != bit % BLOCK_BITS)
  {
    hide BitAt, BlockValid;
    ghost var before := model[..];
    ClearChangesOneBit(before, bit);
    model[WordIndex(bit)] := ClearBit(model[WordIndex(bit)], bit % WORD_BITS, 64);
    assert model[..] == before[WordIndex(bit) := ClearBit(before[WordIndex(bit)], bit % WORD_BITS, 64)];
  }

  /** bitmap_disk_init: the blocks of a bitmap of the given size, all bits clear but the padding. */
  method InitDisk(disk: Drive<Block>, startSector: nat, size: nat)
    requires size > 0 && size % 8 == 0
    modifies disk
    ensures forall k :: startSector <= k < startSector + BlockCountFor(size) ==> k in disk.sectors
    ensures FreshBlocks(DiskBlocks(disk.sectors, startSector, BlockCountFor(size)),
                        size - BLOCK_BITS * (BlockCountFor(size) - 1))
    ensures forall k :: k in old(disk.sectors) && !(startSector <= k < startSector + BlockCountFor(size)) ==>
      k in disk.sectors && disk.sectors[k] == old(disk.sectors)[k]
  {
    var count := BlockCountFor(size);
    BlocksFit(size);
    for i := 0 to count - 1
      invariant forall k :: startSector <= k < startSector + i ==> k in disk.sectors && disk.sectors[k] == ZeroBlock()
      invariant forall k :: k in old(disk.sectors) && !(startSector <= k < startSector + count) ==>
        k in disk.sectors && disk.sectors[k] == old(disk.sectors)[k]
    {
      disk.sectors := disk.sectors[startSector + i := ZeroBlock()];
    }
    ZeroBlockClear(0);
    var model := PaddedBlock(size - BLOCK_BITS * (count - 1));
    disk.sectors := disk.sectors[startSector + count - 1 := model[..]];
  }

  function DiskBlocks(sectors: map<nat, Block>, start: nat, count: nat): Blocks {
    seq(count, i requires 0 <= i < count => if start + i in sectors then sectors[start + i] else [])
  }

  lemma FullWordScanned(block: Block, j: nat)
    requires BlockValid(block) && j < BLOCK_WORDS && block[j] == 0xFFFF_FFFF_FFFF_FFFF
    ensures forall bit: nat :: WordIndex(bit) == j ==> BitAt(block, bit)
  {
    forall bit: nat | WordIndex(bit) == j ensures BitAt(block, bit) {
      Pow2Constants();
      AllOnesBit(64, bit % WORD_BITS);
    }
  }

  /** Of the bits below total, those of block b up to an offset are set. */
  ghost predicate Scanned(blocks: Blocks, total: nat, b: nat, offset: nat) {
    forall bit: nat :: bit < total && bit / BLOCK_BITS == b && bit % BLOCK_BITS < offset ==> IsSet(blocks, bit)
  }

  /** Going round from the first block, b comes before the last. */
  predicate Between(first: nat, b: nat, last: nat) {
    if first <= last then first <= b < last else b >= first || b < last
  }

  /** Blocks scanned on the way and the found bit's own block up to it leave no clear bit passed. */
  lemma PassedFromScanned(blocks: Blocks, first: nat, total: nat, count: nat, found: nat)
    requires total <= BLOCK_BITS * count
    requires Scanned(blocks, total, found / BLOCK_BITS, found % BLOCK_BITS)
    requires forall b: nat :: b < count && Between(first, b, found / BLOCK_BITS) ==>
      Scanned(blocks, total, b, BLOCK_BITS)
    ensures PassedSet(blocks, first, total, found)
  {
    hide IsSet;
    forall bit: nat | bit < total && OnTheWay(first, bit, found) ensures IsSet(blocks, bit) {
      var b := bit / BLOCK_BITS;
      if b != found / BLOCK_BITS {
        assert Between(first, b, found / BLOCK_BITS) && Scanned(blocks, total, b, BLOCK_BITS);
      }
    }
  }

  lemma AllScanned(blocks: Blocks, total: nat, count: nat)
    requires total <= BLOCK_BITS * count
    requires forall b: nat :: b < count ==> Scanned(blocks, total, b, BLOCK_BITS)
    ensures Full(blocks, total)
  {
    forall bit: nat | bit < total ensures IsSet(blocks, bit) {
      assert Scanned(blocks, total, bit / BLOCK_BITS, BLOCK_BITS);
    }
  }

  class Bitmap {
    const disk: Drive<Block>
    const startSector: nat
    const blockCount: nat
    const totalBits: nat
    const block: array<nat>
    var dirty: bool
    var blockIndex: nat
    var usedBits: nat

    ghost function Logical(): Blocks
      reads this, block, disk
    {
      Overlay(disk.sectors, startSector, blockCount, blockIndex, block[..])
    }

    /** The loaded block and the disk are in step; the last block holds the last bit. */
    ghost predicate Shape()
      reads this, block, disk
    {
      && block.Length == BLOCK_WORDS && BlockValid(block[..])
      && blockIndex < blockCount
      && (forall k :: startSector <= k < startSector + blockCount ==> k in disk.sectors)
      && BlocksValid(Logical())
      && (!dirty ==> disk.sectors[startSector + blockIndex] == block[..])
      && BLOCK_BITS * (blockCount - 1) < totalBits <= BLOCK_BITS * blockCount
      && BLOCK_BITS * blockCount < FAILURE && usedBits < UINT64
    }

    /** Bits past the last one are set, and the counter counts the set bits before it. */
    ghost predicate Valid()
      reads this, block, disk
    {
      && Shape()
      && Padded(Logical(), totalBits, BLOCK_BITS * blockCount)
      && usedBits == Count(Logical(), totalBits)
    }

    /** bitmap_disk_init followed by bitmap_disk_load, as fs_data_init does: block 0 loaded, nothing used. */
    constructor (disk: Drive<Block>, startSector: nat, size: nat)
      requires size > 0 && size % 8 == 0 && size + BLOCK_BITS < FAILURE
      modifies disk
      ensures Valid() && fresh(block) && usedBits == 0 && blockIndex == 0 && !dirty
      ensures forall bit: nat :: bit < size ==> !IsSet(Logical(), bit)
      ensures this.disk == disk && this.startSector == startSector && totalBits == size
    {
      this.disk, this.startSector, totalBits := disk, startSector, size;
      blockCount := BlockCountFor(size);
      block := new nat[BLOCK_WORDS];
      dirty, blockIndex, usedBits := false, 0, 0;
      new;
      BlocksFit(size);
      InitDisk(disk, startSector, size);
      ghost var blocks := DiskBlocks(disk.sectors, startSector, blockCount);
      FreshBlocksBits(blocks, size - BLOCK_BITS * (blockCount - 1), size);
      var sector := disk.sectors[startSector];
      assert sector == blocks[0];
      forall i | 0 <= i < BLOCK_WORDS {
        block[i] := sector[i];
      }
      assert block[..] == sector;
      assert Logical() == blocks;
    }

    /** bitmap_disk_load_block: the bitmap as a whole stays as it is. */
    method LoadBlock(index: nat)
      requires Shape()
      modifies this`dirty, this`blockIndex, block, disk
      ensures Shape() && Logical() == old(Logical())
      ensures index < blockCount ==> blockIndex == index && block[..] == Logical()[index] && !dirty
      ensures index >= blockCount ==>
        blockIndex == old(blockIndex) && block[..] == old(block[..]) && dirty == old(dirty)
      ensures SameElsewhere(old(disk.sectors), disk.sectors, startSector, blockCount)
    {
      if index >= blockCount {
        return;
      }
      ghost var sectors0, index0, loaded0 := disk.sectors, blockIndex, block[..];
      if dirty {
        disk.sectors := disk.sectors[startSector + blockIndex := block[..]];
      }
      assert disk.sectors == sectors0[startSector + index0 := loaded0];
      WriteBackKeeps(sectors0, startSector, blockCount, index0, loaded0, index);
      var sector := disk.sectors[startSector + index];
      assert sector == old(Logical())[index];
      forall i | 0 <= i < BLOCK_WORDS {
        block[i] := sector[i];
      }
      assert block[..] == sector;
      blockIndex := index;
      dirty := false;
    }

    /** bitmap_disk_flush */
    method Flush()
      requires Shape()
      modifies this`dirty, disk
      ensures Shape() && Logical() == old(Logical()) && !dirty
      ensures disk.sectors == old(disk.sectors)[startSector + blockIndex := block[..]]
    {
      ghost var sectors0 := disk.sectors;
      if dirty {
        disk.sectors := disk.sectors[startSector + blockIndex := block[..]];
      }
      WriteBackKeeps(sectors0, startSector, blockCount, blockIndex, block[..], blockIndex);
      assert disk.sectors == sectors0[startSector + blockIndex := block[..]];
      dirty := false;
    }

    /** bitmap_disk_checked_load_block */
    method CheckedLoadBlock(bit: nat)
      requires Shape() && bit < totalBits
      modifies this`dirty, this`blockIndex, block, disk
      ensures Shape() && Logical() == old(Logical()) && blockIndex == bit / BLOCK_BITS
      ensures SameElsewhere(old(disk.sectors), disk.sectors, startSector, blockCount)
    {
      var index := bit / BLOCK_BITS;
      if blockIndex != index {
        LoadBlock(index);
      }
    }

    /** bitmap_disk_test: true for a clear bit. */
    method Test(bit: nat) returns (free: bool)
      requires Shape()
      modifies this`dirty, this`blockIndex, block, disk
      ensures Shape() && Logical() == old(Logical())
      ensures free <==> bit < totalBits && !IsSet(Logical(), bit)
      ensures blockIndex == if bit < totalBits then bit / BLOCK_BITS else old(blockIndex)
      ensures SameElsewhere(old(disk.sectors), disk.sectors, startSector, blockCount)
    {
      if bit >= totalBits {
        return false;
      }
      CheckedLoadBlock(bit);
      TestBitIsBit(block[WordIndex(bit)], bit % WORD_BITS);
      return !TestBit(block[WordIndex(bit)], bit % WORD_BITS);
    }

    /**
     * bitmap_disk_set looks at the block that happens to be loaded before loading the bit's own: it does nothing
     * when that block has the bit at the same offset set. Otherwise the bit becomes set and the counter grows.
     */
    method Set(bit: nat)
      requires Shape()
      modifies this`dirty, this`blockIndex, this`usedBits, block, disk
      ensures Shape()
      ensures bit >= totalBits || BitAt(old(block[..]), bit) ==>
        Logical() == old(Logical()) && usedBits == old(usedBits) && blockIndex == old(blockIndex)
      ensures bit < totalBits && !BitAt(old(block[..]), bit) ==>
        && IsSet(Logical(), bit) && AgreeExcept(old(Logical()), Logical(), bit, BLOCK_BITS * blockCount)
        && usedBits == (old(usedBits) + 1) % UINT64 && blockIndex == bit / BLOCK_BITS
      ensures SameElsewhere(old(disk.sectors), disk.sectors, startSector, blockCount)
    {
      if bit >= totalBits {
        return;
      }
      TestBitIsBit(block[WordIndex(bit)], bit % WORD_BITS);
      if TestBit(block[WordIndex(bit)], bit % WORD_BITS) {
        return;
      }
      CheckedLoadBlock(bit);
      ghost var blocks := Logical();
      SetModelBit(block, bit);
      assert Logical() == blocks[blockIndex := block[..]];
      ReplaceBlock(blocks, blockIndex, block[..], bit, BLOCK_BITS * blockCount);
      usedBits := (usedBits + 1) % UINT64;
      dirty := true;
    }

    /**
     * bitmap_disk_unset looks at the loaded block first as well: it does nothing when that block has the bit at the
     * same offset clear. Otherwise the bit becomes clear and the counter shrinks.
     */
    method Unset(bit: nat)
      requires Shape()
      modifies this`dirty, this`blockIndex, this`usedBits, block, disk
      ensures Shape()
      ensures bit >= totalBits || !BitAt(old(block[..]), bit) ==>
        Logical() == old(Logical()) && usedBits == old(usedBits) && blockIndex == old(blockIndex)
      ensures bit < totalBits && BitAt(old(block[..]), bit) ==>
        && !IsSet(Logical(), bit) && AgreeExcept(old(Logical()), Logical(), bit, BLOCK_BITS * blockCount)
        && usedBits == (old(usedBits) - 1) % UINT64 && blockIndex == bit / BLOCK_BITS
      ensures SameElsewhere(old(disk.sectors), disk.sectors, startSector, blockCount)
    {
      if bit >= totalBits {
        return;
      }
      TestBitIsBit(block[WordIndex(bit)], bit % WORD_BITS);
      if !TestBit(block[WordIndex(bit)], bit % WORD_BITS) {
        return;
      }
      CheckedLoadBlock(bit);
      ghost var blocks := Logical();
      ClearModelBit(block, bit);
      assert Logical() == blocks[blockIndex := block[..]];
      ReplaceBlock(blocks, blockIndex, block[..], bit, BLOCK_BITS * blockCount);
      usedBits := (usedBits - 1) % UINT64;
      dirty := true;
    }

    /** One word of the loaded block: the first clear bit in it below totalBits, or FAILURE. */
    method FindInWord(j: nat) returns (found: nat)
      requires Shape() && j < BLOCK_WORDS && Scanned(Logical(), totalBits, blockIndex, WORD_BITS * j)
      modifies this`dirty, this`blockIndex, block, disk
      ensures Shape() && Logical() == old(Logical()) && blockIndex == old(blockIndex)
      ensures found == FAILURE ==> Scanned(Logical(), totalBits, blockIndex, WORD_BITS * (j + 1))
      ensures found != FAILURE ==>
        && found < totalBits && found / BLOCK_BITS == blockIndex && !IsSet(Logical(), found)
        && Scanned(Logical(), totalBits, blockIndex, found % BLOCK_BITS)
      ensures SameElsewhere(old(disk.sectors), disk.sectors, startSector, blockCount)
    {
      if block[j] == 0xFFFF_FFFF_FFFF_FFFF {
        FullWordScanned(block[..], j);
        forall bit: nat | bit < totalBits && bit / BLOCK_BITS == blockIndex && bit % BLOCK_BITS < WORD_BITS * (j + 1)
          ensures IsSet(Logical(), bit)
        {
          OffsetSplits(bit);
        }
        return FAILURE;
      }
      var bit := blockIndex * BLOCK_BITS + j * WORD_BITS - 1;
      for k := 0 to WORD_BITS
        invariant Shape() && Logical() == old(Logical()) && blockIndex == old(blockIndex)
        invariant bit == blockIndex * BLOCK_BITS + j * WORD_BITS + k - 1
        invariant Scanned(Logical(), totalBits, blockIndex, WORD_BITS * j + k)
        invariant SameElsewhere(old(disk.sectors), disk.sectors, startSector, blockCount)
      {
        bit := bit + 1;
        BitPlace(blockIndex, j, k);
        var free := Test(bit);
        if free {
          return bit;
        }
      }
      return FAILURE;
    }

    /** The first clear bit of the loaded block below totalBits, or FAILURE. */
    method FindInBlock() returns (found: nat)
      requires Shape()
      modifies this`dirty, this`blockIndex, block, disk
      ensures Shape() && Logical() == old(Logical()) && blockIndex == old(blockIndex)
      ensures found == FAILURE ==> Scanned(Logical(), totalBits, blockIndex, BLOCK_BITS)
      ensures found != FAILURE ==>
        && found < totalBits && found / BLOCK_BITS == blockIndex && !IsSet(Logical(), found)
        && Scanned(Logical(), totalBits, blockIndex, found % BLOCK_BITS)
      ensures SameElsewhere(old(disk.sectors), disk.sectors, startSector, blockCount)
    {
      for j := 0 to BLOCK_WORDS
        invariant Shape() && Logical() == old(Logical()) && blockIndex == old(blockIndex)
        invariant Scanned(Logical(), totalBits, blockIndex, WORD_BITS * j)
        invariant SameElsewhere(old(disk.sectors), disk.sectors, startSector, blockCount)
      {
        found := FindInWord(j);
        if found != FAILURE {
          return found;
        }
      }
      return FAILURE;
    }

    /**
     * bitmap_disk_find_free_bit fails exactly when the counter has reached the total or no bit is clear; otherwise it
     * answers the first clear bit from the start of the loaded block on, around the end, and leaves its block loaded.
     */
    method FindFreeBit() returns (found: nat)
      requires Shape()
      modifies this`dirty, this`blockIndex, block, disk
      ensures Shape() && Logical() == old(Logical())
      ensures found == FAILURE <==> usedBits >= totalBits || Full(Logical(), totalBits)
      ensures found != FAILURE ==>
        && found < totalBits && !IsSet(Logical(), found) && blockIndex == found / BLOCK_BITS
        && PassedSet(Logical(), old(blockIndex), totalBits, found)
        && NextFrom(Logical(), 4096 * old(blockIndex), totalBits, found)
      ensures SameElsewhere(old(disk.sectors), disk.sectors, startSector, blockCount)
    {
      hide Overlay, BlocksValid, Scanned, IsSet, Count, PassedSet, NextFrom;
      if usedBits >= totalBits {
        return FAILURE;
      }
      var currentBlock := blockIndex;
      ghost var first := blockIndex;
      for i := 0 to blockCount
        invariant Shape() && Logical() == old(Logical()) && blockIndex == currentBlock
        invariant currentBlock == if first + i < blockCount then first + i else first + i - blockCount
        invariant forall b: nat :: b < blockCount && (first <= b < first + i || b + blockCount < first + i) ==>
          Scanned(Logical(), totalBits, b, BLOCK_BITS)
        invariant SameElsewhere(old(disk.sectors), disk.sectors, startSector, blockCount)
      {
        found := FindInBlock();
        if found != FAILURE {
          PassedFromScanned(Logical(), first, totalBits, blockCount, found);
          PassedMeans(Logical(), first, totalBits, found);
          return found;
        }
        currentBlock := currentBlock + 1;
        if currentBlock >= blockCount {
          currentBlock := currentBlock - blockCount;
        }
        LoadBlock(currentBlock);
      }
      AllScanned(Logical(), totalBits, blockCount);
      return FAILURE;
    }

    /** The clear bits in the order in which they are handed out. */
    ghost function Order(): seq<nat>
      reads this, block, disk
    {
      FreeOrder(Logical(), blockIndex, totalBits)
    }

    lemma OrderDistinct()
      ensures forall i, j :: 0 <= i < j < |Order()| ==> Order()[i] != Order()[j]
    {
      FreeOrderExact(Logical(), blockIndex, totalBits);
    }

    /**
     * The search and the set that follow each other in fs_data_alloc_block and fs_inode_create. It takes the head of
     * the order, marks that bit alone and leaves the rest of the order; it fails exactly when the order is empty.
     */
    method Take() returns (found: nat)
      requires Valid()
      modifies this`dirty, this`blockIndex, this`usedBits, block, disk
      ensures Valid()
      ensures found == FAILURE <==> Full(old(Logical()), totalBits)
      ensures found == FAILURE <==> old(Order()) == []
      ensures found == FAILURE ==> Logical() == old(Logical()) && usedBits == old(usedBits) && Order() == []
      ensures found != FAILURE ==>
        && found < totalBits && !IsSet(old(Logical()), found) && IsSet(Logical(), found)
        && AgreeExcept(old(Logical()), Logical(), found, BLOCK_BITS * blockCount)
        && usedBits == old(usedBits) + 1 && blockIndex == found / BLOCK_BITS
        && old(Order()) != [] && found == old(Order())[0] && Order() == old(Order())[1..]
        && NextFrom(old(Logical()), 4096 * old(blockIndex), totalBits, found)
      ensures SameElsewhere(old(disk.sectors), disk.sectors, startSector, blockCount)
    {
      hide IsSet, BlocksValid, BlockValid, Overlay, FreeOrder, Count, PassedSet, NextFrom;
      ghost var blocks, first := Logical(), blockIndex;
      CountFull(blocks, totalBits);
      FreeOrderExact(blocks, first, totalBits);
      found := FindFreeBit();
      if found == FAILURE {
        FreeOrderExact(Logical(), blockIndex, totalBits);
        return;
      }
      OffsetLoaded(found);
      Set(found);
      CountFlip(blocks, Logical(), found, totalBits);
      FreeOrderStep(blocks, Logical(), first, totalBits, found);
    }

    /** bitmap_disk_compute_used_bits_block: the inner loop runs once per set bit. */
    method ComputeUsedBitsBlock() returns (used: nat)
      requires block.Length == BLOCK_WORDS
      ensures used == BlockPopcount(block[..], BLOCK_WORDS)
    {
      used := 0;
      for i := 0 to BLOCK_WORDS
        invariant used == BlockPopcount(block[..], i)
      {
        var number := block[i];
        while number != 0
          invariant used + Popcount(number) == BlockPopcount(block[..], i + 1)
        {
          DropLowestBit(number);
          number := And(number, number - 1);
          used := used + 1;
        }
      }
    }

    /**
     * bitmap_disk_compute_used_bits: whichever block is loaded, and dirty or not, it counts the set bits of the whole
     * bitmap, padding included, and leaves the bitmap as it is.
     */
    method ComputeUsedBits() returns (used: nat)
      requires Shape()
      modifies this`dirty, this`blockIndex, block, disk
      ensures Shape() && Logical() == old(Logical())
      ensures used == TotalPopcount(Logical(), blockCount) == Count(Logical(), BLOCK_BITS * blockCount)
    {
      hide Overlay, BlockValid, BlockPopcount;
      ghost var blocks := Logical();
      assert |blocks| == blockCount && blocks[blockIndex] == block[..] by { OverlayAtLoaded(); }
      var loaded := blockIndex;
      var first := ComputeUsedBitsBlock();
      used := first;
      for i := 0 to loaded
        invariant Shape() && Logical() == blocks && |blocks| == blockCount
        invariant used == first + TotalPopcount(blocks, i)
      {
        LoadBlock(i);
        var n := ComputeUsedBitsBlock();
        used := used + n;
      }
      for i := loaded + 1 to blockCount
        invariant Shape() && Logical() == blocks && |blocks| == blockCount
        invariant used == TotalPopcount(blocks, i)
      {
        LoadBlock(i);
        var n := ComputeUsedBitsBlock();
        used := used + n;
      }
      PopcountCounts(blocks, blockCount);
    }

    /** In its own block, loaded, a bit reads as it does in the whole bitmap. */
    lemma OffsetLoaded(bit: nat)
      requires Shape() && bit / BLOCK_BITS == blockIndex
      ensures BitAt(block[..], bit) == IsSet(Logical(), bit)
    {
    }

    lemma OverlayAtLoaded()
      requires Shape()
      ensures |Logical()| == blockCount && Logical()[blockIndex] == block[..]
    {
    }

    /**
     * bitmap_disk_load on an existing bitmap: the counter it computes counts the padding too, so it is right exactly
     * when the last block has none.
     */
    method Reload()
      requires Valid() && !dirty
      modifies this`dirty, this`blockIndex, this`usedBits, block, disk
      ensures Shape() && Logical() == old(Logical())
      ensures usedBits == Count(Logical(), totalBits) + (BLOCK_BITS * blockCount - totalBits)
      ensures Valid() <==> totalBits == BLOCK_BITS * blockCount
    {
      hide Overlay, BlockValid, BlocksValid, IsSet, Count, TotalPopcount, Padded;
      LoadBlock(0);
      usedBits := ComputeUsedBits();
      CountAbove(Logical(), totalBits, BLOCK_BITS * blockCount);
    }
  }

  /**
   * A load that miscounts. The bitmap of the 64 configured inodes is made, the root's bit set and written, and the disk
   * loaded again: with 4032 padding bits counted the search refuses although 63 bits are clear.
   */
  method ReloadRefuses(disk: Drive<Block>) returns (bitmap: Bitmap, found: nat)
    modifies disk
    ensures bitmap.Shape() && bitmap.totalBits == 64 && Count(bitmap.Logical(), 64) == 1
    ensures bitmap.usedBits == 4033 && found == FAILURE
  {
    hide Overlay, BlockValid, BlocksValid, BitAt, IsSet, Count;
    bitmap := new Bitmap(disk, 0, 64);
    ghost var blocks := bitmap.Logical();
    bitmap.OffsetLoaded(0);
    assert !IsSet(blocks, 0);
    bitmap.Set(0);
    CountFlip(blocks, bitmap.Logical(), 0, 64);
    bitmap.Flush();
    bitmap.Reload();
    found := bitmap.FindFreeBit();
  }
}
