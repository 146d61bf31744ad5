/** Sequential file sessions of os/lib/file.c: a one-block buffer over the data blocks of an inode. */
module Files {
  import opened Common
  import opened Disk
  import opened InodeCache
  import opened Inodes
  import BitmapModel
  import DiskBitmap
  import FsData

  type Byte = b: int | 0 <= b < 256
  type Data = map<nat, seq<Byte>>

  ghost predicate DataValid(disk: Data) {
    forall b :: b in disk ==> |disk[b]| == BLOCK_SIZE
  }

  /** Every block of the inode is on disk. */
  ghost predicate BlocksOnDisk(disk: Data, inode: Inode) {
    && |inode.blocks| == DIRECT_BLOCKS && inode.blockCount <= DIRECT_BLOCKS
    && (forall k :: 0 <= k < inode.blockCount ==> inode.blocks[k] in disk)
    && forall j, k :: 0 <= j < k < inode.blockCount ==> inode.blocks[j] != inode.blocks[k]
  }

  /** Byte k of the file as the disk has it. */
  function ByteOnDisk(disk: Data, inode: Inode, k: nat): Byte
    requires DataValid(disk) && BlocksOnDisk(disk, inode) && k / BLOCK_SIZE < inode.blockCount
  {
    disk[inode.blocks[k / BLOCK_SIZE]][k % BLOCK_SIZE]
  }

  /** The first n bytes of the file on disk. */
  function Contents(disk: Data, inode: Inode, n: nat): (s: seq<Byte>)
    requires DataValid(disk) && BlocksOnDisk(disk, inode) && n <= BLOCK_SIZE * inode.blockCount
    ensures |s| == n
  {
    seq(n, k requires 0 <= k < n => ByteOnDisk(disk, inode, k))
  }

  /** They are the blocks of the inode one behind the other, 512 bytes each, as far as n goes. */
  lemma ContentsAreBlocks(disk: Data, inode: Inode, n: nat)
    requires DataValid(disk) && BlocksOnDisk(disk, inode) && n <= BLOCK_SIZE * inode.blockCount
    ensures var blocks := seq(inode.blockCount, k requires 0 <= k < inode.blockCount => disk[inode.blocks[k]]);
      |Flatten(blocks)| == 512 * inode.blockCount && Contents(disk, inode, n) == Flatten(blocks)[..n]
  {
    var blocks := seq(inode.blockCount, k requires 0 <= k < inode.blockCount => disk[inode.blocks[k]]);
    FlattenLength(blocks, 512);
    forall i: nat | i < n ensures Contents(disk, inode, n)[i] == Flatten(blocks)[i] {
      FlattenAt(blocks, 512, i);
    }
  }

  /** The first n bytes as a session sees them: its buffered block stands in for the one on disk. */
  function View(disk: Data, inode: Inode, index: nat, buffer: seq<Byte>, n: nat): (s: seq<Byte>)
    requires DataValid(disk) && BlocksOnDisk(disk, inode) && n <= BLOCK_SIZE * inode.blockCount
    requires |buffer| == BLOCK_SIZE
    ensures |s| == n
  {
    seq(n, k requires 0 <= k < n =>
      if k / BLOCK_SIZE == index then buffer[k % BLOCK_SIZE] else ByteOnDisk(disk, inode, k))
  }

  /** Writing the buffer to its block makes the disk show what the session saw. */
  lemma FlushShows(disk: Data, inode: Inode, index: nat, buffer: seq<Byte>, n: nat)
    requires DataValid(disk) && BlocksOnDisk(disk, inode) && n <= BLOCK_SIZE * inode.blockCount
    requires |buffer| == BLOCK_SIZE && index < inode.blockCount
    ensures var disk' := disk[inode.blocks[index] := buffer];
      DataValid(disk') && BlocksOnDisk(disk', inode) && Contents(disk', inode, n) == View(disk, inode, index, buffer, n)
  {
  }

  /** A block freshly loaded shows what the disk has. */
  lemma LoadShows(disk: Data, inode: Inode, index: nat, n: nat)
    requires DataValid(disk) && BlocksOnDisk(disk, inode) && n <= BLOCK_SIZE * inode.blockCount
    requires index < inode.blockCount
    ensures View(disk, inode, index, disk[inode.blocks[index]], n) == Contents(disk, inode, n)
  {
  }

  /** Storing a byte at the cursor appends it to what the session sees. */
  lemma StoreAppends(disk: Data, inode: Inode, buffer: seq<Byte>, n: nat, b: Byte)
    requires DataValid(disk) && BlocksOnDisk(disk, inode) && n < BLOCK_SIZE * inode.blockCount
    requires |buffer| == BLOCK_SIZE
    ensures View(disk, inode, n / BLOCK_SIZE, buffer[n % BLOCK_SIZE := b], n + 1)
         == View(disk, inode, n / BLOCK_SIZE, buffer, n) + [b]
  {
    var v := View(disk, inode, n / BLOCK_SIZE, buffer[n % BLOCK_SIZE := b], n + 1);
    forall k | 0 <= k < n ensures v[k] == View(disk, inode, n / BLOCK_SIZE, buffer, n)[k] {
      if k / BLOCK_SIZE == n / BLOCK_SIZE { assert k % BLOCK_SIZE != n % BLOCK_SIZE; }
    }
  }

  const NO_BLOCK: nat := 0xFFFF_FFFF_FFFF_FFFF

  /** block_index: UINT64_MAX before the first block, then the block the last byte passed lies in. */
  function IndexBehind(cursor: nat): nat {
    if cursor == 0 then NO_BLOCK else (cursor - 1) / BLOCK_SIZE
  }

  /** Only blocks of the inode may have changed. */
  ghost predicate OthersKept(disk: Data, disk': Data, inode: Inode)
    requires inode.blockCount <= |inode.blocks|
  {
    && disk'.Keys == disk.Keys
    && forall b :: b in disk && b !in inode.blocks[..inode.blockCount] ==> disk'[b] == disk[b]
  }

  lemma OthersKeptRefl(disk: Data, inode: Inode)
    requires inode.blockCount <= |inode.blocks|
    ensures OthersKept(disk, disk, inode)
  {
  }

  lemma NoBlocksForNothing()
    ensures BlocksFor(0) == 0
  {
  }

  lemma BlocksSuffice(n: nat)
    ensures n <= BLOCK_SIZE * BlocksFor(n)
  {
  }

  lemma HeldOnDisk(data: FsData.BlockAllocator)
    requires data.Valid()
    ensures forall b :: b in data.held ==> b < data.bitmap.totalBits
  {
  }

  /** More blocks behind the old ones change nothing a session saw. */
  lemma ExtendKeepsView(disk: Data, inode: Inode, inode': Inode, index: nat, buffer: seq<Byte>, n: nat)
    requires DataValid(disk) && BlocksOnDisk(disk, inode) && BlocksOnDisk(disk, inode')
    requires inode.blockCount <= inode'.blockCount && n <= BLOCK_SIZE * inode.blockCount && |buffer| == BLOCK_SIZE
    requires forall k :: 0 <= k < inode.blockCount ==> inode'.blocks[k] == inode.blocks[k]
    ensures View(disk, inode', index, buffer, n) == View(disk, inode, index, buffer, n)
  {
  }

  /** Blocks held before, other than the inode's own, are not among those it has now. */
  lemma OthersOfOthers(disk: Data, disk': Data, inode: Inode, inode': Inode, held: set<nat>)
    requires inode'.blockCount <= |inode'.blocks| && inode.blockCount <= |inode.blocks|
      && inode.blockCount <= inode'.blockCount
    requires OthersKept(disk, disk', inode')
    requires forall k :: 0 <= k < inode.blockCount ==> inode'.blocks[k] == inode.blocks[k]
    requires forall k :: inode.blockCount <= k < inode'.blockCount ==> inode'.blocks[k] !in held
    ensures forall b :: b in held && b !in inode.blocks[..inode.blockCount] && b in disk' ==> disk'[b] == disk[b]
  {
    forall b | b in held && b !in inode.blocks[..inode.blockCount] && b in disk' ensures disk'[b] == disk[b] {
      forall k | 0 <= k < inode'.blockCount ensures inode'.blocks[k] != b {
        if k < inode.blockCount { assert inode.blocks[..inode.blockCount][k] == inode'.blocks[k]; }
      }
    }
  }

  lemma OthersKeptTwice(d0: Data, d1: Data, d2: Data, inode: Inode)
    requires inode.blockCount <= |inode.blocks| && OthersKept(d0, d1, inode) && OthersKept(d1, d2, inode)
    ensures OthersKept(d0, d2, inode)
  {
  }

  lemma PrefixGrows(s: seq<Byte>, bytes: seq<Byte>, i: nat)
    requires i < |bytes|
    ensures s + bytes[..i] + [bytes[i]] == s + bytes[..i + 1]
  {
  }

  lemma WholePrefix(bytes: seq<Byte>)
    ensures bytes[..|bytes|] == bytes
  {
  }

  class File {
    const block: array<Byte>
    var blockId: nat
    var blockIndex: nat
    var dirty: bool
    var cursor: nat

    /** file_open of an existing file, at its start. */
    constructor ()
      ensures fresh(block) && block.Length == BLOCK_SIZE
      ensures blockIndex == NO_BLOCK && !dirty && cursor == 0
    {
      block := new Byte[BLOCK_SIZE];
      blockId, blockIndex, dirty, cursor := 0, NO_BLOCK, false, 0;
    }

    /** The buffer holds the block behind the cursor, and the inode's blocks cover the cursor. */
    ghost predicate Session(disk: Data, inode: Inode)
      reads this, block
    {
      && block.Length == BLOCK_SIZE
      && DataValid(disk) && BlocksOnDisk(disk, inode) && cursor <= BLOCK_SIZE * inode.blockCount
      && blockIndex == IndexBehind(cursor)
      && (cursor == 0 ==> !dirty)
      && (cursor > 0 ==> blockId == inode.blocks[blockIndex])
      && (!dirty && cursor > 0 ==> block[..] == disk[blockId])
    }

    /** The bytes before the cursor as this session sees them. */
    ghost function Seen(disk: Data, inode: Inode): (s: seq<Byte>)
      requires Session(disk, inode)
      reads this, block
      ensures |s| == cursor
    {
      View(disk, inode, blockIndex, block[..], cursor)
    }

    lemma Opened(disk: Data, inode: Inode)
      requires block.Length == BLOCK_SIZE && blockIndex == NO_BLOCK && !dirty && cursor == 0
      requires DataValid(disk) && BlocksOnDisk(disk, inode)
      ensures Session(disk, inode) && Seen(disk, inode) == []
    {
    }

    /** The blocks cover the bytes passed. */
    lemma Covered(disk: Data, inode: Inode)
      requires Session(disk, inode)
      ensures cursor <= BLOCK_SIZE * inode.blockCount
    {
    }

    /** At a block boundary both file_read and file_write flush a dirty buffer and load the next block. */
    method NextBlock(icache: Icache, drive: Drive<seq<Byte>>)
      requires Session(drive.sectors, icache.inode) && cursor % BLOCK_SIZE == 0
      requires cursor < BLOCK_SIZE * icache.inode.blockCount
      modifies this`blockId, this`blockIndex, block, icache`reference, drive
      ensures block.Length == BLOCK_SIZE && DataValid(drive.sectors) && BlocksOnDisk(drive.sectors, icache.inode)
      ensures blockIndex == cursor / BLOCK_SIZE && blockId == icache.inode.blocks[blockIndex]
      ensures block[..] == drive.sectors[blockId]
      ensures !dirty ==> drive.sectors == old(drive.sectors)
      ensures Contents(drive.sectors, icache.inode, cursor) == old(Seen(drive.sectors, icache.inode))
      ensures OthersKept(old(drive.sectors), drive.sectors, icache.inode)
    {
      hide View, Contents;
      ghost var disk0 := drive.sectors;
      if dirty {
        FlushShows(disk0, icache.inode, blockIndex, block[..], cursor);
        drive.sectors := drive.sectors[blockId := block[..]];
      } else if cursor > 0 {
        LoadShows(disk0, icache.inode, blockIndex, cursor);
      }
      blockIndex := (blockIndex + 1) % UINT64;
      blockId := icache.GetBlock(blockIndex);
      ReadInto(drive.sectors[blockId]);
    }

    /** ata_read of one block into the buffer. */
    method ReadInto(sector: seq<Byte>)
      requires block.Length == |sector| == BLOCK_SIZE
      modifies block
      ensures block[..] == sector
    {
      forall i | 0 <= i < BLOCK_SIZE {
        block[i] := sector[i];
      }
    }

    /** The objects a session works on are all different. */
    ghost predicate Apart(data: FsData.BlockAllocator, drive: Drive<seq<Byte>>)
      reads data
    {
      && (drive as object) != (data.bitmap.disk as object)
      && (block as object) != (data.bitmap.block as object)
    }

    /** The byte loop of file_write. */
    method WriteBytes(icache: Icache, drive: Drive<seq<Byte>>, bytes: seq<Byte>)
      requires Session(drive.sectors, icache.inode)
      requires cursor + |bytes| <= BLOCK_SIZE * icache.inode.blockCount
      modifies this, block, icache`reference, drive
      ensures Session(drive.sectors, icache.inode) && cursor == old(cursor) + |bytes|
      ensures Seen(drive.sectors, icache.inode) == old(Seen(drive.sectors, icache.inode)) + bytes
      ensures |bytes| > 0 ==> dirty
      ensures OthersKept(old(drive.sectors), drive.sectors, icache.inode)
    {
      hide View, Contents, DataValid, OthersKept;
      ghost var seen0 := Seen(drive.sectors, icache.inode);
      OthersKeptRefl(drive.sectors, icache.inode);
      for i := 0 to |bytes|
        invariant Session(drive.sectors, icache.inode) && cursor == old(cursor) + i
        invariant Seen(drive.sectors, icache.inode) == seen0 + bytes[..i]
        invariant i > 0 ==> dirty
        invariant OthersKept(old(drive.sectors), drive.sectors, icache.inode)
      {
        ghost var disk1 := drive.sectors;
        WriteByte(icache, drive, bytes[i]);
        OthersKeptTwice(old(drive.sectors), disk1, drive.sectors, icache.inode);
        PrefixGrows(seen0, bytes, i);
      }
      WholePrefix(bytes);
    }

    /** One round of file_write's loop. */
    method WriteByte(icache: Icache, drive: Drive<seq<Byte>>, b: Byte)
      requires Session(drive.sectors, icache.inode) && cursor < BLOCK_SIZE * icache.inode.blockCount
      modifies this, block, icache`reference, drive
      ensures Session(drive.sectors, icache.inode) && cursor == old(cursor) + 1 && dirty
      ensures Seen(drive.sectors, icache.inode) == old(Seen(drive.sectors, icache.inode)) + [b]
      ensures OthersKept(old(drive.sectors), drive.sectors, icache.inode)
    {
      ghost var seen0 := Seen(drive.sectors, icache.inode);
      OthersKeptRefl(drive.sectors, icache.inode);
      var blockCursor := cursor % BLOCK_SIZE;
      if blockCursor == 0 {
        NextBlock(icache, drive);
        LoadShows(drive.sectors, icache.inode, blockIndex, cursor);
      }
      assert blockIndex == cursor / BLOCK_SIZE;
      assert View(drive.sectors, icache.inode, blockIndex, block[..], cursor) == seen0;
      StoreAppends(drive.sectors, icache.inode, block[..], cursor, b);
      ghost var before := block[..];
      block[blockCursor] := b;
      assert block[..] == before[blockCursor := b];
      dirty := true;
      cursor := cursor + 1;
    }

    /**
     * file_write at the end of the file. The allocation fails exactly when the blocks asked for are not free; then the
     * model stops. Otherwise the file grows by exactly these bytes, and only blocks no one else held are written.
     */
    method Write(icache: Icache, data: FsData.BlockAllocator, drive: Drive<seq<Byte>>, bytes: seq<Byte>)
      returns (fault: bool)
      requires Session(drive.sectors, icache.inode) && cursor == icache.inode.size
      requires data.Valid() && OwnsBlocks(icache.inode, data.held) && Apart(data, drive)
      requires forall b: nat :: b < data.bitmap.totalBits ==> b in drive.sectors
      requires icache.inode.blockCount + BlocksFor(|bytes|) <= DIRECT_BLOCKS
      modifies this, block, icache, drive
      modifies data, data.bitmap`dirty, data.bitmap`blockIndex, data.bitmap`usedBits, data.bitmap.block,
        data.bitmap.disk
      ensures data.Valid()
      ensures fault <==> old(data.bitmap.usedBits) + BlocksFor(|bytes|) > data.bitmap.totalBits
      ensures !fault ==>
        && Session(drive.sectors, icache.inode) && cursor == icache.inode.size == old(icache.inode.size) + |bytes|
        && Seen(drive.sectors, icache.inode) == old(Seen(drive.sectors, icache.inode)) + bytes
        && OwnsBlocks(icache.inode, data.held)
        && data.bitmap.usedBits == old(data.bitmap.usedBits) + BlocksFor(|bytes|)
        && Extends(old(icache.inode).(size := icache.inode.size), icache.inode, BlocksFor(|bytes|),
                   old(data.held), data.held)
        && drive.sectors.Keys == old(drive.sectors).Keys
        && (forall b ::
              b in old(data.held) && b !in old(icache.inode.blocks[..icache.inode.blockCount]) && b in drive.sectors ==>
              drive.sectors[b] == old(drive.sectors)[b])
      ensures !fault && |bytes| > 0 ==> dirty && icache.dirty
      ensures |bytes| == 0 ==> icache.inode == old(icache.inode) && icache.dirty == old(icache.dirty)
    {
      hide View, Contents, BlocksFor, BitmapModel.IsSet, BitmapModel.Count, BitmapModel.BlocksValid, DiskBitmap.Overlay;
      NoBlocksForNothing();
      ghost var inode0, disk0, held0 := icache.inode, drive.sectors, data.held;
      ghost var seen0 := Seen(drive.sectors, icache.inode);
      data.CounterBounded();
      if cursor + |bytes| > icache.inode.size {
        var extraBlocks := BlocksFor(cursor + |bytes| - icache.inode.size);
        var ok := icache.AllocBlocks(data, extraBlocks);
        if !ok {
          return true;
        }
      }
      BlocksSuffice(|bytes|);
      HeldOnDisk(data);
      ExtendKeepsView(disk0, inode0, icache.inode, blockIndex, block[..], cursor);
      WriteAllocated(icache, drive, bytes);
      OthersOfOthers(disk0, drive.sectors, inode0, icache.inode, held0);
      return false;
    }

    /** file_write from its loop on, the blocks being there. */
    method WriteAllocated(icache: Icache, drive: Drive<seq<Byte>>, bytes: seq<Byte>)
      requires Session(drive.sectors, icache.inode)
      requires cursor + |bytes| <= BLOCK_SIZE * icache.inode.blockCount
      modifies this, block, icache, drive
      ensures icache.inode == old(icache.inode).(size := old(icache.inode.size) + |bytes|)
        && icache.dirty == old(icache.dirty)
      ensures Session(drive.sectors, icache.inode) && cursor == old(cursor) + |bytes|
      ensures Seen(drive.sectors, icache.inode) == old(Seen(drive.sectors, icache.inode)) + bytes
      ensures |bytes| > 0 ==> dirty
      ensures OthersKept(old(drive.sectors), drive.sectors, icache.inode)
    {
      hide View;
      WriteBytes(icache, drive, bytes);
      ghost var inode1 := icache.inode;
      icache.inode := icache.inode.(size := icache.inode.size + |bytes|);
      ExtendKeepsView(drive.sectors, inode1, icache.inode, blockIndex, block[..], cursor);
    }

    /** file_close: the last dirty block reaches the disk. */
    method Close(drive: Drive<seq<Byte>>, ghost inode: Inode)
      requires Session(drive.sectors, inode)
      modifies drive
      ensures DataValid(drive.sectors) && BlocksOnDisk(drive.sectors, inode)
      ensures Contents(drive.sectors, inode, cursor) == Seen(old(drive.sectors), inode)
      ensures OthersKept(old(drive.sectors), drive.sectors, inode)
    {
      if dirty {
        FlushShows(drive.sectors, inode, blockIndex, block[..], cursor);
        drive.sectors := drive.sectors[blockId := block[..]];
      } else if cursor > 0 {
        LoadShows(drive.sectors, inode, blockIndex, cursor);
      }
    }

    /** file_read: the next bytes of the file, clipped at its size. A clean session leaves the disk as it is. */
    method Read(icache: Icache, drive: Drive<seq<Byte>>, count: nat) returns (bytes: seq<Byte>)
      requires Session(drive.sectors, icache.inode) && !dirty
      requires icache.inode.size <= BLOCK_SIZE * icache.inode.blockCount
      modifies this, block, icache`reference, drive
      ensures drive.sectors == old(drive.sectors) && Session(drive.sectors, icache.inode) && !dirty
      ensures cursor == old(cursor) + |bytes|
      ensures |bytes| == if old(cursor) > icache.inode.size then 0 else Min(count, icache.inode.size - old(cursor))
      ensures old(cursor) <= icache.inode.size ==>
        bytes == Contents(drive.sectors, icache.inode, icache.inode.size)[old(cursor)..cursor]
    {
      hide View, DataValid, Contents;
      ghost var disk, c0 := drive.sectors, cursor;
      bytes := [];
      if cursor > icache.inode.size {
        return;
      }
      var n := count;
      if cursor + n > icache.inode.size {
        n := n - (cursor + n - icache.inode.size);
      }
      ghost var all := Contents(drive.sectors, icache.inode, icache.inode.size);
      for i := 0 to n
        invariant drive.sectors == disk && Session(disk, icache.inode) && !dirty
        invariant cursor == c0 + i && bytes == all[c0..cursor]
      {
        var b := ReadByte(icache, drive);
        bytes := bytes + [b];
        SliceGrows(all, c0, cursor - 1);
      }
    }

    /** One round of file_read's loop. */
    method ReadByte(icache: Icache, drive: Drive<seq<Byte>>) returns (b: Byte)
      requires Session(drive.sectors, icache.inode) && !dirty
      requires cursor < icache.inode.size <= BLOCK_SIZE * icache.inode.blockCount
      modifies this`blockId, this`blockIndex, this`cursor, block, icache`reference, drive
      ensures drive.sectors == old(drive.sectors) && Session(drive.sectors, icache.inode)
      ensures cursor == old(cursor) + 1
      ensures b == Contents(drive.sectors, icache.inode, icache.inode.size)[old(cursor)]
    {
      var blockCursor := cursor % BLOCK_SIZE;
      if blockCursor == 0 {
        NextBlock(icache, drive);
      }
      b := block[blockCursor];
      assert block[..][blockCursor] == b;
      cursor := cursor + 1;
    }
  }

  function Concat(chunks: seq<seq<Byte>>): seq<Byte> {
    if chunks == [] then [] else Concat(chunks[..|chunks| - 1]) + chunks[|chunks| - 1]
  }

  function Sum(sizes: seq<nat>): nat {
    if sizes == [] then 0 else Sum(sizes[..|sizes| - 1]) + sizes[|sizes| - 1]
  }

  /** Blocks the writes ask for: each call rounds its own bytes up. */
  function BlocksAsked(chunks: seq<seq<Byte>>): nat {
    if chunks == [] then 0 else BlocksAsked(chunks[..|chunks| - 1]) + BlocksFor(|chunks[|chunks| - 1]|)
  }

  lemma {:induction false} AskedGrows(chunks: seq<seq<Byte>>, i: nat)
    requires i <= |chunks|
    ensures BlocksAsked(chunks[..i]) <= BlocksAsked(chunks)
    decreases |chunks|
  {
    if i == |chunks| {
      assert chunks[..i] == chunks;
    } else {
      AskedGrows(chunks[..|chunks| - 1], i);
      assert chunks[..|chunks| - 1][..i] == chunks[..i];
    }
  }

  lemma SliceGrows(s: seq<Byte>, from: nat, to: nat)
    requires from <= to < |s|
    ensures s[from..to] + [s[to]] == s[from..to + 1]
  {
  }

  lemma PrefixSteps<T>(s: seq<T>, i: nat)
    requires i < |s|
    ensures s[..i + 1][..i] == s[..i] && s[..i + 1][i] == s[i] && s[..i + 1] != []
  {
  }

  /**
   * Any chunks written to a fresh empty file, then read back after close and reopen in pieces of any sizes, come back
   * in order and complete.
   */
  method WriteThenRead(icache: Icache, data: FsData.BlockAllocator, drive: Drive<seq<Byte>>,
                       chunks: seq<seq<Byte>>, sizes: seq<nat>) returns (fault: bool, bytes: seq<Byte>)
    requires data.Valid() && OwnsBlocks(icache.inode, data.held) && DataValid(drive.sectors)
    requires icache.inode.size == 0 && icache.inode.blockCount == 0 && BlocksAsked(chunks) <= DIRECT_BLOCKS
    requires (drive as object) != (data.bitmap.disk as object)
    requires forall b: nat :: b < data.bitmap.totalBits ==> b in drive.sectors
    modifies icache, drive
    modifies data, data.bitmap`dirty, data.bitmap`blockIndex, data.bitmap`usedBits, data.bitmap.block, data.bitmap.disk
    ensures fault <==> old(data.bitmap.usedBits) + BlocksAsked(chunks) > data.bitmap.totalBits
    ensures !fault ==>
      && icache.inode.size == |Concat(chunks)| <= BLOCK_SIZE * icache.inode.blockCount
      && bytes == Concat(chunks)[..Min(Sum(sizes), |Concat(chunks)|)]
  {
    fault := WriteChunks(icache, data, drive, chunks);
    bytes := [];
    if !fault {
      bytes := ReadPieces(icache, drive, sizes);
    }
  }

  /** Open, write the chunks, close. */
  method WriteChunks(icache: Icache, data: FsData.BlockAllocator, drive: Drive<seq<Byte>>, chunks: seq<seq<Byte>>)
    returns (fault: bool)
    requires data.Valid() && OwnsBlocks(icache.inode, data.held) && DataValid(drive.sectors)
    requires icache.inode.size == 0 && icache.inode.blockCount == 0 && BlocksAsked(chunks) <= DIRECT_BLOCKS
    requires (drive as object) != (data.bitmap.disk as object)
    requires forall b: nat :: b < data.bitmap.totalBits ==> b in drive.sectors
    modifies icache, drive
    modifies data, data.bitmap`dirty, data.bitmap`blockIndex, data.bitmap`usedBits, data.bitmap.block, data.bitmap.disk
    ensures fault <==> old(data.bitmap.usedBits) + BlocksAsked(chunks) > data.bitmap.totalBits
    ensures !fault ==>
      && DataValid(drive.sectors) && BlocksOnDisk(drive.sectors, icache.inode)
      && icache.inode.size == |Concat(chunks)| <= BLOCK_SIZE * icache.inode.blockCount
      && Contents(drive.sectors, icache.inode, icache.inode.size) == Concat(chunks)
  {
    hide View, Contents, DataValid, BlocksFor, BitmapModel.IsSet, BitmapModel.Count, BitmapModel.BlocksValid,
      DiskBitmap.Overlay;
    var file := new File();
    ghost var used0 := data.bitmap.usedBits;
    data.CounterBounded();
    for i := 0 to |chunks|
      invariant data.Valid() && OwnsBlocks(icache.inode, data.held) && file.Apart(data, drive)
      invariant forall b: nat :: b < data.bitmap.totalBits ==> b in drive.sectors
      invariant file.Session(drive.sectors, icache.inode) && file.cursor == icache.inode.size
      invariant file.Seen(drive.sectors, icache.inode) == Concat(chunks[..i])
      invariant icache.inode.blockCount == BlocksAsked(chunks[..i])
      invariant data.bitmap.usedBits == used0 + BlocksAsked(chunks[..i]) <= data.bitmap.totalBits
    {
      AskedGrows(chunks, i + 1);
      PrefixSteps(chunks, i);
      fault := file.Write(icache, data, drive, chunks[i]);
      if fault {
        return;
      }
      data.CounterBounded();
    }
    assert chunks[..|chunks|] == chunks;
    file.Close(drive, icache.inode);
    fault := false;
  }

  /** Open, read pieces of the given sizes. */
  method ReadPieces(icache: Icache, drive: Drive<seq<Byte>>, sizes: seq<nat>) returns (bytes: seq<Byte>)
    requires DataValid(drive.sectors) && BlocksOnDisk(drive.sectors, icache.inode)
    requires icache.inode.size <= BLOCK_SIZE * icache.inode.blockCount
    modifies icache`reference, drive
    ensures drive.sectors == old(drive.sectors)
    ensures bytes == Contents(drive.sectors, icache.inode, icache.inode.size)[..Min(Sum(sizes), icache.inode.size)]
  {
    hide View, Contents, DataValid;
    var file := new File();
    bytes := [];
    ghost var all := Contents(drive.sectors, icache.inode, icache.inode.size);
    for i := 0 to |sizes|
      invariant drive.sectors == old(drive.sectors) && file.Session(drive.sectors, icache.inode) && !file.dirty
      invariant file.cursor == Min(Sum(sizes[..i]), icache.inode.size) && bytes == all[..file.cursor]
    {
      PrefixSteps(sizes, i);
      var piece := file.Read(icache, drive, sizes[i]);
      bytes := bytes + piece;
    }
    assert sizes[..|sizes|] == sizes;
  }

  // ----- the same through the inode cache -----------------------------------------------------

  predicate InTable(l: Layout, numbers: seq<seq<nat>>) {
    forall i, k :: 0 <= i < |numbers| && 0 <= k < |numbers[i]| ==> numbers[i][k] < l.count
  }

  /** The objects a file lives on are all different. */
  ghost predicate Separate(cache: Cache, data: FsData.BlockAllocator, drive: Drive<seq<Byte>>)
    reads data
  {
    && (drive as object) != (data.bitmap.disk as object) && (cache.disk as object) != (drive as object)
    && (cache.disk as object) != (data.bitmap.disk as object)
    && (cache.slots as object) != (data.bitmap.block as object)
  }

  /** Write, with every call looking the inode up again, and any inodes looked up between the calls. */
  method WriteThrough(cache: Cache, n: nat, between: seq<seq<nat>>, data: FsData.BlockAllocator,
                      drive: Drive<seq<Byte>>, chunks: seq<seq<Byte>>, ghost empty: Inode)
    returns (fault: bool, ghost inode: Inode)
    requires cache.Shows(n, empty) && empty.size == 0 && empty.blockCount == 0 && OwnsBlocks(empty, data.held)
    requires |between| == |chunks| && InTable(cache.layout, between)
    requires data.Valid() && DataValid(drive.sectors) && BlocksAsked(chunks) <= DIRECT_BLOCKS
      && Separate(cache, data, drive)
    requires forall b: nat :: b < data.bitmap.totalBits ==> b in drive.sectors
    modifies cache`hand, cache.slots, cache.disk, drive
    modifies data, data.bitmap`dirty, data.bitmap`blockIndex, data.bitmap`usedBits, data.bitmap.block, data.bitmap.disk
    ensures fault <==> old(data.bitmap.usedBits) + BlocksAsked(chunks) > data.bitmap.totalBits
    ensures !fault ==>
      && cache.Shows(n, inode) && DataValid(drive.sectors) && BlocksOnDisk(drive.sectors, inode)
      && inode.size == |Concat(chunks)| <= BLOCK_SIZE * inode.blockCount
      && Contents(drive.sectors, inode, inode.size) == Concat(chunks)
  {
    hide View, Contents, DataValid, BlocksFor, BlocksOnDisk, OwnsBlocks, data.Valid, cache.Shows, Caches;
    var file := new File();
    hide file.Session, file.Seen;
    NoBlocksOnDisk(drive.sectors, empty, data.held);
    file.Opened(drive.sectors, empty);
    inode := empty;
    ghost var used0 := data.bitmap.usedBits;
    data.CounterBounded();
    for i := 0 to |chunks|
      invariant cache.Shows(n, inode)
      invariant data.Valid() && OwnsBlocks(inode, data.held) && file.Apart(data, drive)
      invariant forall b: nat :: b < data.bitmap.totalBits ==> b in drive.sectors
      invariant file.Session(drive.sectors, inode) && file.cursor == inode.size
      invariant file.Seen(drive.sectors, inode) == Concat(chunks[..i])
      invariant inode.blockCount == BlocksAsked(chunks[..i])
      invariant data.bitmap.usedBits == used0 + BlocksAsked(chunks[..i]) <= data.bitmap.totalBits
    {
      AskedGrows(chunks, i + 1);
      PrefixSteps(chunks, i);
      var slot, icache := Fetch(cache, n, inode);
      fault := file.Write(icache, data, drive, chunks[i]);
      if fault {
        return;
      }
      data.CounterBounded();
      PutBack(cache, n, slot, icache, inode, between[i]);
      inode := icache.inode;
    }
    assert chunks[..|chunks|] == chunks;
    file.Covered(drive.sectors, inode);
    file.Close(drive, inode);
    fault := false;
  }

  lemma NoBlocksOnDisk(disk: Data, inode: Inode, held: set<nat>)
    requires OwnsBlocks(inode, held) && inode.blockCount == 0
    ensures BlocksOnDisk(disk, inode)
  {
  }

  method ReadThrough(cache: Cache, n: nat, between: seq<seq<nat>>, drive: Drive<seq<Byte>>, sizes: seq<nat>,
                     ghost inode: Inode)
    returns (bytes: seq<Byte>)
    requires cache.Shows(n, inode) && |between| == |sizes| && InTable(cache.layout, between)
    requires (cache.disk as object) != (drive as object) && DataValid(drive.sectors)
    requires BlocksOnDisk(drive.sectors, inode) && inode.size <= BLOCK_SIZE * inode.blockCount
    modifies cache`hand, cache.slots, cache.disk, drive
    ensures cache.Shows(n, inode) && drive.sectors == old(drive.sectors)
    ensures bytes == Contents(drive.sectors, inode, inode.size)[..Min(Sum(sizes), inode.size)]
  {
    hide View, Contents, DataValid, cache.Shows, Caches;
    var file := new File();
    bytes := [];
    ghost var all := Contents(drive.sectors, inode, inode.size);
    for i := 0 to |sizes|
      invariant cache.Shows(n, inode)
      invariant drive.sectors == old(drive.sectors) && file.Session(drive.sectors, inode) && !file.dirty
      invariant file.cursor == Min(Sum(sizes[..i]), inode.size) && bytes == all[..file.cursor]
    {
      PrefixSteps(sizes, i);
      var slot, icache := Fetch(cache, n, inode);
      var piece := file.Read(icache, drive, sizes[i]);
      bytes := bytes + piece;
      PutBack(cache, n, slot, icache, inode, between[i]);
    }
    assert sizes[..|sizes|] == sizes;
  }

  /**
   * Write, close, open and read across the inode cache. Between any two calls any inodes are looked up, so the file's
   * own may be evicted and read back each time; the bytes still come back in order and complete.
   */
  method WriteEvictRead(cache: Cache, n: nat, data: FsData.BlockAllocator, drive: Drive<seq<Byte>>,
                        chunks: seq<seq<Byte>>, sizes: seq<nat>, betweenWrites: seq<seq<nat>>,
                        betweenReads: seq<seq<nat>>, ghost empty: Inode)
    returns (fault: bool, bytes: seq<Byte>)
    requires cache.Shows(n, empty) && empty.size == 0 && empty.blockCount == 0 && OwnsBlocks(empty, data.held)
    requires |betweenWrites| == |chunks| && InTable(cache.layout, betweenWrites)
    requires |betweenReads| == |sizes| && InTable(cache.layout, betweenReads)
    requires data.Valid() && DataValid(drive.sectors) && BlocksAsked(chunks) <= DIRECT_BLOCKS
      && Separate(cache, data, drive)
    requires forall b: nat :: b < data.bitmap.totalBits ==> b in drive.sectors
    modifies cache`hand, cache.slots, cache.disk, drive
    modifies data, data.bitmap`dirty, data.bitmap`blockIndex, data.bitmap`usedBits, data.bitmap.block, data.bitmap.disk
    ensures fault <==> old(data.bitmap.usedBits) + BlocksAsked(chunks) > data.bitmap.totalBits
    ensures !fault ==> bytes == Concat(chunks)[..Min(Sum(sizes), |Concat(chunks)|)]
  {
    hide cache.Shows, Contents, BlocksFor, BitmapModel.Count, BitmapModel.IsSet, DiskBitmap.Overlay;
    bytes := [];
    ghost var inode;
    fault, inode := WriteThrough(cache, n, betweenWrites, data, drive, chunks, empty);
    if !fault {
      bytes := ReadThrough(cache, n, betweenReads, drive, sizes, inode);
    }
  }
}
