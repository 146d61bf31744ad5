/** Where the inode table of os/fs/fs_inode.c lies on a disk laid out by os/fs/fs_superblock.c. */
module TableRegion {
  import opened Superblock
  import InodeCache

  /** The table as the cache reads it, in blocks of one sector. */
  function TableOf(l: Layout): InodeCache.Layout {
    InodeCache.Layout(BlockToSector(l, l.inodeTableStart), l.inodesPerBlock, l.inodeMax)
  }

  lemma SectorOfBlock(l: Layout, block: nat)
    requires l.startSector == START_SECTOR && l.blockSectors == 1 && block + START_SECTOR < 0x1_0000_0000_0000_0000
    ensures BlockToSector(l, block) == START_SECTOR + block
  {
    CutFits(block);
    CutFits(START_SECTOR + block);
  }

  lemma RoundedUp(c: nat, x: nat, d: nat)
    requires d > 0 && RoundsUp(c, x, d)
    ensures (x + d - 1) / d == c
  {
    var q := (x + d - 1) / d;
    Quotient(x + d - 1, d);
    Least(q, c, x, d);
    assert q * d >= x;
  }

  /** Its sectors are those of the table's blocks, one behind the other and as many. */
  lemma TableIsRegion(sectors: nat, inodes: nat, k: nat)
    requires InRange(1, sectors, inodes) && Cut(1 * SECTOR_SIZE) > 0
    requires var l := Calculate(1, sectors, inodes); Used(l) <= l.blockCount && k <= l.inodeTableCount
    ensures var l := Calculate(1, sectors, inodes);
      && TableOf(l).perBlock > 0 && InodeCache.TableSectors(TableOf(l)) == l.inodeTableCount
      && TableOf(l).start + k == BlockToSector(l, l.inodeTableStart + k)
  {
    hide Calculate, Cut, RoundsUp, BlockToSector;
    var l := Calculate(1, sectors, inodes);
    LayoutPlain(1, sectors, inodes);
    RoundedUp(l.inodeTableCount, l.inodeMax, l.inodesPerBlock);
    SectorOfBlock(l, l.inodeTableStart);
    SectorOfBlock(l, l.inodeTableStart + k);
  }

  /** So no sector the cache reads or writes belongs to another region. */
  lemma TableApart(sectors: nat, inodes: nat, i: nat, block: nat, n: nat)
    requires InRange(1, sectors, inodes) && Cut(1 * SECTOR_SIZE) > 0
    requires var l := Calculate(1, sectors, inodes); Used(l) <= l.blockCount && n < l.inodeMax
    requires i < 5 && i != 2
    requires var r := Regions(Calculate(1, sectors, inodes))[i]; r.start <= block < r.End()
    ensures var l := Calculate(1, sectors, inodes);
      && TableOf(l).perBlock > 0 && InodeCache.SectorOf(TableOf(l), n) != BlockToSector(l, block)
  {
    hide Calculate, Cut, RoundsUp, BlockToSector, InodeCache.SectorOf, InodeCache.TableSectors;
    var l := Calculate(1, sectors, inodes);
    TableIsRegion(sectors, inodes, 0);
    var k := InodeCache.SectorOf(TableOf(l), n) - TableOf(l).start;
    TableIsRegion(sectors, inodes, k);
    LayoutPlain(1, sectors, inodes);
    RegionsOrdered(l);
    if i < 2 {
      BlocksApart(1, sectors, inodes, block, l.inodeTableStart + k);
    } else {
      EndOfLayout(l);
      BlocksApart(1, sectors, inodes, l.inodeTableStart + k, block);
    }
  }

  /** As configured the table takes sectors 605 to 620; inode 4 is in the second of them, inode 36 in the tenth. */
  lemma ConfiguredTable()
    ensures Cut(1 * SECTOR_SIZE) > 0
    ensures var t := TableOf(Calculate(1, 1024, 64));
      && t == InodeCache.Layout(605, 4, 64) && InodeCache.TableSectors(t) == 16
      && InodeCache.SectorOf(t, 4) == 606 && InodeCache.SectorOf(t, 36) == 614
  {
    hide Calculate, Cut, BlockToSector;
    ConfiguredLayout();
    LayoutPlain(1, 1024, 64);
    SectorOfBlock(Calculate(1, 1024, 64), 305);
  }
}
