/** An inode in the cache and its direct data blocks: the growing half of os/fs/fs_inode.c. */
module Inodes {
  import opened BitmapModel
  import opened Disk
  import opened InodeCache
  import DiskBitmap
  import FsData

  const DIRECT_BLOCKS: nat := 8
  const BLOCK_SIZE: nat := 512
  const FAILURE: nat := DiskBitmap.FAILURE

  /** The first blockCount pointers name distinct blocks out of the given ones. */
  ghost predicate OwnsBlocks(inode: Inode, held: set<nat>) {
    && |inode.blocks| == DIRECT_BLOCKS && inode.blockCount <= DIRECT_BLOCKS
    && (forall k :: 0 <= k < inode.blockCount ==> inode.blocks[k] in held)
    && forall j, k :: 0 <= j < k < inode.blockCount ==> inode.blocks[j] != inode.blocks[k]
  }

  function BlocksFor(size: nat): nat {
    (size + BLOCK_SIZE - 1) / BLOCK_SIZE
  }

  /** The least number of 512-byte blocks that hold so many bytes. */
  lemma BlocksForLeast(size: nat, count: nat)
    ensures size <= 512 * BlocksFor(size)
    ensures size <= 512 * count ==> BlocksFor(size) <= count
  {
  }

  /** The inode keeps its blocks and gains fresh ones behind them. */
  ghost predicate Extends(inode: Inode, inode': Inode, count: nat, held: set<nat>, held': set<nat>) {
    && |inode.blocks| == |inode'.blocks| == DIRECT_BLOCKS && inode.blockCount + count <= DIRECT_BLOCKS
    && inode'.blockCount == inode.blockCount + count
    && inode'.kind == inode.kind && inode'.size == inode.size
    && (forall k :: 0 <= k < inode.blockCount ==> inode'.blocks[k] == inode.blocks[k])
    && (forall k :: inode.blockCount <= k < inode'.blockCount ==> inode'.blocks[k] !in held)
    && held <= held'
  }

  /** With i new blocks set but not counted yet. */
  ghost predicate Gained(inode0: Inode, inode: Inode, i: nat, held0: set<nat>, held: set<nat>) {
    && inode.blockCount == inode0.blockCount && inode.size == inode0.size && inode.kind == inode0.kind
    && OwnsBlocks(inode.(blockCount := inode0.blockCount + i), held)
    && Extends(inode0, inode.(blockCount := inode0.blockCount + i), i, held0, held)
  }

  lemma OwnsSelf(inode: Inode, held: set<nat>)
    requires OwnsBlocks(inode, held)
    ensures |inode.blocks| == DIRECT_BLOCKS && inode.blockCount <= DIRECT_BLOCKS
    ensures Gained(inode, inode, 0, held, held) && Extends(inode, inode, 0, held, held)
  {
  }

  /** The blocks the inode counts are still its own ones from before. */
  lemma GainedStands(inode0: Inode, inode: Inode, i: nat, held0: set<nat>, held: set<nat>)
    requires Gained(inode0, inode, i, held0, held)
    ensures |inode.blocks| == |inode0.blocks| == DIRECT_BLOCKS && inode.blockCount + i <= DIRECT_BLOCKS
    ensures OwnsBlocks(inode, held) && inode.blocks[..inode.blockCount] == inode0.blocks[..inode0.blockCount]
  {
  }

  lemma GainOne(inode0: Inode, inode: Inode, i: nat, block: nat, held0: set<nat>, held: set<nat>)
    requires Gained(inode0, inode, i, held0, held) && block !in held && inode0.blockCount + i < DIRECT_BLOCKS
    ensures |inode.blocks| == DIRECT_BLOCKS
    ensures Gained(inode0, inode.(blocks := inode.blocks[inode0.blockCount + i := block]), i + 1, held0, held + {block})
  {
  }

  /** A cache entry as the pointer fs_inode_get hands out. */
  class Icache {
    var inode: Inode
    var reference: bool
    var dirty: bool

    constructor (inode: Inode)
      ensures this.inode == inode && !dirty
    {
      this.inode, reference, dirty := inode, true, false;
    }

    /** fs_inode_get_block on direct blocks; FAILURE past the last. */
    method GetBlock(index: nat) returns (block: nat)
      requires |inode.blocks| == DIRECT_BLOCKS && inode.blockCount <= DIRECT_BLOCKS
      modifies this`reference
      ensures block == if index < inode.blockCount then inode.blocks[index] else 0xFFFF_FFFF_FFFF_FFFF
      ensures reference == (index < inode.blockCount || old(reference))
    {
      if index >= inode.blockCount {
        return FAILURE;
      }
      block := inode.blocks[index];
      reference := true;
    }

    /** fs_inode_set_block on direct blocks; a block number beyond the count of data blocks is ignored. */
    method SetBlock(index: nat, block: nat, dataBlocks: nat)
      requires index < DIRECT_BLOCKS == |inode.blocks|
      modifies this
      ensures block <= dataBlocks ==>
        inode == old(inode).(blocks := old(inode).blocks[index := block]) && dirty && reference
      ensures block > dataBlocks ==> inode == old(inode) && dirty == old(dirty)
    {
      if block > dataBlocks {
        return;
      }
      inode := inode.(blocks := inode.blocks[index := block]);
      reference := true;
      dirty := true;
    }

    /**
     * fs_inode_alloc_blocks. It succeeds exactly when that many blocks are free; then the inode owns that many more,
     * none of them held before. When it fails it has used up every free block, and the inode gains none of them.
     */
    method AllocBlocks(data: FsData.BlockAllocator, count: nat) returns (ok: bool)
      requires data.Valid() && OwnsBlocks(inode, data.held) && inode.blockCount + count <= DIRECT_BLOCKS
      modifies this, data, data.bitmap`dirty, data.bitmap`blockIndex, data.bitmap`usedBits, data.bitmap.block,
        data.bitmap.disk
      ensures data.Valid()
      ensures ok <==> old(data.bitmap.usedBits) + count <= data.bitmap.totalBits
      ensures ok ==>
        && OwnsBlocks(inode, data.held) && Extends(old(inode), inode, count, old(data.held), data.held)
        && data.bitmap.usedBits == old(data.bitmap.usedBits) + count
        && (count > 0 ==> dirty && reference) && (count == 0 ==> dirty == old(dirty))
      ensures old(data.held) <= data.held && inode.kind == old(inode.kind)
      ensures !dirty ==> inode == old(inode) && !old(dirty)
      ensures !ok ==>
        && OwnsBlocks(inode, data.held) && data.bitmap.usedBits == data.bitmap.totalBits
        && inode.blockCount == old(inode.blockCount) && inode.size == old(inode.size)
        && inode.blocks[..inode.blockCount] == old(inode.blocks[..inode.blockCount])
    {
      hide BitmapModel.IsSet, BitmapModel.Count, OwnsBlocks, Extends;
      data.CounterBounded();
      ghost var inode0, held0 := inode, data.held;
      OwnsSelf(inode, data.held);
      if count == 0 {
        return true;
      }
      for i := 0 to count
        invariant data.Valid() && held0 <= data.held && Gained(inode0, inode, i, held0, data.held)
        invariant data.bitmap.usedBits == old(data.bitmap.usedBits) + i <= data.bitmap.totalBits
        invariant !dirty ==> inode == inode0 && !old(dirty)
      {
        data.FullIffCounted();
        GainedStands(inode0, inode, i, held0, data.held);
        ghost var heldBefore := data.held;
        var block := data.AllocBlock();
        if block == FAILURE {
          return false;
        }
        data.CounterBounded();
        GainOne(inode0, inode, i, block, held0, heldBefore);
        SetBlock(inode.blockCount + i, block, data.bitmap.totalBits);
      }
      inode := inode.(blockCount := inode.blockCount + count);
      reference := true;
      dirty := true;
      return true;
    }

    /** fs_inode_set_size when it does not shrink the inode below its block count. */
    method Grow(data: FsData.BlockAllocator, size: nat) returns (ok: bool)
      requires data.Valid() && OwnsBlocks(inode, data.held)
      requires inode.size <= size && inode.blockCount + BlocksFor(size) - BlocksFor(inode.size) <= DIRECT_BLOCKS
      modifies this, data, data.bitmap`dirty, data.bitmap`blockIndex, data.bitmap`usedBits, data.bitmap.block,
        data.bitmap.disk
      ensures data.Valid()
      ensures ok <==>
        old(data.bitmap.usedBits) + (BlocksFor(size) - BlocksFor(old(inode.size))) <= data.bitmap.totalBits
      ensures ok ==>
        && OwnsBlocks(inode, data.held) && inode.size == size && dirty && reference
        && Extends(old(inode).(size := size), inode, BlocksFor(size) - BlocksFor(old(inode.size)),
                   old(data.held), data.held)
        && data.bitmap.usedBits == old(data.bitmap.usedBits) + (BlocksFor(size) - BlocksFor(old(inode.size)))
      ensures old(data.held) <= data.held && inode.kind == old(inode.kind)
      ensures !dirty ==> inode == old(inode) && !old(dirty)
      ensures !ok ==>
        && OwnsBlocks(inode, data.held) && data.bitmap.usedBits == data.bitmap.totalBits
        && inode.size == old(inode.size) && inode.blockCount == old(inode.blockCount)
        && inode.blocks[..inode.blockCount] == old(inode.blocks[..inode.blockCount])
    {
      BlocksMonotone(inode.size, size);
      var change := BlocksFor(size) - BlocksFor(inode.size);
      ok := AllocBlocks(data, change);
      if ok {
        inode := inode.(size := size);
        reference := true;
        dirty := true;
      }
    }
  }

  /** fs_inode_get, and the entry it points at. */
  method Fetch(cache: Cache, n: nat, ghost inode: Inode) returns (slot: nat, icache: Icache)
    requires cache.Shows(n, inode)
    modifies cache`hand, cache.slots, cache.disk
    ensures cache.Shows(n, inode) && slot < CACHE_SIZE == cache.slots.Length && Caches(cache.slots[..], slot, n)
    ensures fresh(icache) && icache.inode == inode && !icache.dirty
  {
    hide SlotsValid, Logical, InodeCache.Coherent;
    slot := cache.Get(n);
    icache := new Icache(cache.slots[slot].inode);
  }

  /** What was done through the pointer stays in the cache, past any lookups that follow. */
  method PutBack(cache: Cache, n: nat, slot: nat, icache: Icache, ghost inode: Inode, others: seq<nat>)
    requires cache.Shows(n, inode) && slot < CACHE_SIZE == cache.slots.Length && Caches(cache.slots[..], slot, n)
    requires !icache.dirty ==> icache.inode == inode
    requires forall k :: 0 <= k < |others| ==> others[k] < cache.layout.count
    modifies cache`hand, cache.slots, cache.disk
    ensures cache.Shows(n, icache.inode)
  {
    hide SlotsValid, Logical, InodeCache.Coherent, CoherentBut;
    if icache.dirty {
      cache.Update(slot, icache.inode);
    }
    cache.GetAll(others);
  }

  lemma NoBlocks(inode: Inode, held: set<nat>)
    requires inode.blockCount == 0 && |inode.blocks| == DIRECT_BLOCKS
    ensures OwnsBlocks(inode, held)
  {
  }

  /**
   * A run that loses blocks: of eight, six are taken, and an inode without any asks for three. The call fails, the last
   * two are used up, and the inode has none of them.
   */
  method LosesLastBlocks(disk: Drive<Block>) returns (data: FsData.BlockAllocator, icache: Icache, ok: bool)
    modifies disk
    ensures data.Valid() && data.bitmap.totalBits == 8 == data.bitmap.usedBits
    ensures !ok && icache.inode.blockCount == 0
  {
    hide IsSet, Count, OwnsBlocks, BlocksValid, DiskBitmap.Overlay, data.Exact;
    data := new FsData.BlockAllocator(disk, 0, 8);
    var bitmap := data.bitmap;
    for i := 0 to 6
      invariant data.Valid() && fresh(data) && data.bitmap == bitmap && fresh(bitmap) && fresh(bitmap.block)
      invariant bitmap.disk == disk && bitmap.totalBits == 8 && bitmap.usedBits == i
    {
      data.FullIffCounted();
      var block := data.AllocBlock();
    }
    icache := new Icache(Inode(0, 0, 0, seq(DIRECT_BLOCKS, _ => FAILURE)));
    NoBlocks(icache.inode, data.held);
    ok := icache.AllocBlocks(data, 3);
  }

  lemma BlocksMonotone(a: nat, b: nat)
    requires a <= b
    ensures BlocksFor(a) <= BlocksFor(b)
  {
  }
}
