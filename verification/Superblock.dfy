/** The layout of the file system on the disk: os/fs/fs_superblock.c and os/fs/fs_helper.c. */
module Superblock {
  import opened Common

  const START_SECTOR: nat := 300
  const SECTOR_SIZE: nat := 512

  /** sizeof of the packed structures: 4 + 17 * 8 and 1 + 2 * 8 + 8 * 8 + 3 * 8 bytes. */
  const SUPERBLOCK_SIZE: nat := 140
  const INODE_SIZE: nat := 105

  datatype Layout = Layout(
    startSector: nat, blockSectors: nat, blockCount: nat, bytesPerBlock: nat,
    superblockStart: nat, superblockCount: nat,
    inodesPerBlock: nat, inodeMax: nat, inodeBitmapStart: nat, inodeBitmapCount: nat,
    inodeTableStart: nat, inodeTableCount: nat,
    dataBitmapStart: nat, dataBitmapCount: nat, dataStart: nat, dataCount: nat)

  /** A run of blocks on the disk. */
  datatype Region = Region(start: nat, count: nat) {
    function End(): nat { start + count }
  }

  /** The regions in the order the layout gives them. */
  function Regions(l: Layout): seq<Region> {
    [Region(l.superblockStart, l.superblockCount), Region(l.inodeBitmapStart, l.inodeBitmapCount),
     Region(l.inodeTableStart, l.inodeTableCount), Region(l.dataBitmapStart, l.dataBitmapCount),
     Region(l.dataStart, l.dataCount)]
  }

  function End(l: Layout): nat {
    l.dataStart + l.dataCount
  }

  // ----- the arithmetic -----------------------------------------------------------------------

  /** Every result of size_t arithmetic is cut to 64 bits. */
  function Cut(x: int): nat {
    x % UINT64
  }

  /** The idiom (x + d - 1) / d. */
  function DivideUp(x: nat, d: nat): nat
    requires d > 0
  {
    Cut(Cut(x + d) - 1) / d
  }

  /** fs_superblock_calculate; both divisors must not be zero. */
  function Calculate(sectorsPerBlock: nat, sectors: nat, inodes: nat): Layout
    requires sectorsPerBlock > 0 && Cut(sectorsPerBlock * SECTOR_SIZE) > 0
  {
    hide Cut, DivideUp;
    var blockCount := sectors / sectorsPerBlock;
    var bytesPerBlock := Cut(sectorsPerBlock * SECTOR_SIZE);
    var superblockStart := START_SECTOR;
    var superblockCount := DivideUp(SUPERBLOCK_SIZE, bytesPerBlock);
    WholeSectors(sectorsPerBlock);
    var inodesPerBlock := bytesPerBlock / INODE_SIZE;
    var tableCount := DivideUp(inodes, inodesPerBlock);
    var inodeBitmapStart := Cut(superblockStart + superblockCount + 1);
    var inodeBitmapCount := Cut(tableCount + 7) / 8;
    var tableStart := Cut(inodeBitmapStart + inodeBitmapCount + 1);
    var remaining := Cut(blockCount - Cut(tableStart + tableCount));
    var even := remaining - remaining % 9;
    var dataBitmapStart := Cut(tableStart + tableCount + 1);
    var dataBitmapCount := even / 9;
    var dataStart := Cut(dataBitmapStart + dataBitmapCount + 1);
    Layout(START_SECTOR, sectorsPerBlock, blockCount, bytesPerBlock, superblockStart, superblockCount,
           inodesPerBlock, inodes, inodeBitmapStart, inodeBitmapCount, tableStart, tableCount,
           dataBitmapStart, dataBitmapCount, dataStart, Cut(dataBitmapCount * 8))
  }

  /** A block of whole sectors that is not empty holds at least four inodes. */
  lemma WholeSectors(sectorsPerBlock: nat)
    requires Cut(sectorsPerBlock * SECTOR_SIZE) > 0
    ensures Cut(sectorsPerBlock * SECTOR_SIZE) >= SECTOR_SIZE
    ensures Cut(sectorsPerBlock * SECTOR_SIZE) / INODE_SIZE >= 4
  {
    var whole := sectorsPerBlock * SECTOR_SIZE / UINT64;
    assert Cut(sectorsPerBlock * SECTOR_SIZE) == (sectorsPerBlock - whole * 0x80_0000_0000_0000) * SECTOR_SIZE;
  }

  /** Parameters for which no sum or product leaves 64 bits; the subtraction is not covered by it. */
  predicate InRange(sectorsPerBlock: nat, sectors: nat, inodes: nat) {
    sectorsPerBlock > 0
    && inodes + sectorsPerBlock * SECTOR_SIZE < UINT64
    && sectors + 2 * sectorsPerBlock + START_SECTOR < UINT64
    && sectorsPerBlock * SECTOR_SIZE + SUPERBLOCK_SIZE < UINT64
  }

  /** c is x / d rounded up: the least number of d-sized pieces that cover x. */
  ghost predicate RoundsUp(c: nat, x: nat, d: nat) {
    c * d >= x && forall k: nat :: k * d >= x ==> c <= k
  }

  lemma CutFits(x: nat)
    requires x < UINT64
    ensures Cut(x) == x
  {
  }

  lemma CutBound(x: int)
    ensures Cut(x) < UINT64
  {
  }

  lemma Quotient(x: nat, d: nat)
    requires d > 0
    ensures x / d * d <= x < x / d * d + d
  {
  }

  lemma Least(c: nat, k: nat, x: nat, d: nat)
    requires c * d < x + d && k * d >= x
    ensures c <= k
  {
    Monotone(k, c - 1, d);
  }

  lemma Monotone(a: int, b: int, d: nat)
    ensures a <= b ==> a * d <= b * d
  {
  }

  lemma CoversItself(x: nat, d: nat)
    requires d > 0
    ensures x * d >= x
  {
  }

  lemma DivideUpPlain(x: nat, d: nat)
    requires d > 0 && x + d < UINT64
    ensures DivideUp(x, d) == (x + d - 1) / d
  {
    hide Cut;
    CutFits(x + d);
    CutFits(x + d - 1);
  }

  lemma DivideUpRounds(x: nat, d: nat)
    requires d > 0 && x + d < UINT64
    ensures RoundsUp(DivideUp(x, d), x, d)
    ensures DivideUp(x, d) <= x
  {
    hide DivideUp;
    DivideUpPlain(x, d);
    var c := DivideUp(x, d);
    Quotient(x + d - 1, d);
    forall k: nat | k * d >= x ensures c <= k {
      Least(c, k, x, d);
    }
    CoversItself(x, d);
    Least(c, x, x, d);
  }

  /** What the calculation gives when nothing wraps: true sums and rounded-up quotients. */
  ghost predicate Plain(l: Layout) {
    && l.startSector == 300 && l.bytesPerBlock == l.blockSectors * 512
    && l.superblockStart == 300 && l.superblockCount == 1 && l.inodeBitmapStart == 302
    && l.inodesPerBlock >= 4 && l.inodesPerBlock == l.bytesPerBlock / 105
    && RoundsUp(l.inodeTableCount, l.inodeMax, l.inodesPerBlock) && RoundsUp(l.inodeBitmapCount, l.inodeTableCount, 8)
    && l.inodeTableStart == l.inodeBitmapStart + l.inodeBitmapCount + 1
    && l.dataBitmapStart == l.inodeTableStart + l.inodeTableCount + 1
    && l.dataStart == l.dataBitmapStart + l.dataBitmapCount + 1
    && l.dataCount == 8 * l.dataBitmapCount
    && l.dataBitmapCount == Cut(l.blockCount - (l.inodeTableStart + l.inodeTableCount)) / 9
  }

  lemma OneBlock(bytes: nat)
    requires SECTOR_SIZE <= bytes < UINT64 - SUPERBLOCK_SIZE
    ensures DivideUp(SUPERBLOCK_SIZE, bytes) == 1
  {
    hide DivideUp;
    DivideUpRounds(SUPERBLOCK_SIZE, bytes);
    assert 1 * bytes >= SUPERBLOCK_SIZE;
  }

  lemma TableFits(inodes: nat, perBlock: nat, count: nat)
    requires perBlock >= 4 && inodes < UINT64 && RoundsUp(count, inodes, perBlock)
    ensures count <= UINT64 / 4
  {
    assert UINT64 / 4 * perBlock >= UINT64 / 4 * 4;
  }

  lemma Ninth(remaining: nat)
    ensures (remaining - remaining % 9) / 9 == remaining / 9
  {
  }

  lemma LayoutPlain(sectorsPerBlock: nat, sectors: nat, inodes: nat)
    requires InRange(sectorsPerBlock, sectors, inodes)
    ensures Cut(sectorsPerBlock * SECTOR_SIZE) > 0
    ensures Plain(Calculate(sectorsPerBlock, sectors, inodes))
    ensures var l := Calculate(sectorsPerBlock, sectors, inodes);
      l.blockSectors == sectorsPerBlock && l.blockCount == sectors / sectorsPerBlock && l.inodeMax == inodes
  {
    hide Cut, DivideUp, RoundsUp;
    var bytes := sectorsPerBlock * SECTOR_SIZE;
    CutFits(bytes);
    WholeSectors(sectorsPerBlock);
    OneBlock(bytes);
    var l := Calculate(sectorsPerBlock, sectors, inodes);
    DivideUpRounds(inodes, l.inodesPerBlock);
    TableFits(inodes, l.inodesPerBlock, l.inodeTableCount);
    CutFits(302);
    DivideUpPlain(l.inodeTableCount, 8);
    DivideUpRounds(l.inodeTableCount, 8);
    CutFits(l.inodeTableCount + 7);
    assert l.inodeBitmapCount == DivideUp(l.inodeTableCount, 8);
    CutFits(l.inodeBitmapStart + l.inodeBitmapCount + 1);
    CutFits(l.inodeTableStart + l.inodeTableCount);
    CutFits(l.inodeTableStart + l.inodeTableCount + 1);
    var remaining := Cut(l.blockCount - (l.inodeTableStart + l.inodeTableCount));
    Ninth(remaining);
    assert remaining < UINT64 by { CutBound(l.blockCount - (l.inodeTableStart + l.inodeTableCount)); }
    CutFits(l.dataBitmapStart + l.dataBitmapCount + 1);
    CutFits(l.dataBitmapCount * 8);
  }

  // ----- where the regions lie ----------------------------------------------------------------

  /** The regions follow each other, with a block between two of them. */
  lemma RegionsOrdered(l: Layout)
    requires Plain(l)
    ensures forall i, j :: 0 <= i < j < 5 ==> Regions(l)[i].End() < Regions(l)[j].start
    ensures Regions(l)[4].End() == End(l)
  {
    hide RoundsUp, Cut;
  }

  /** Blocks in front of the space that bitmap and data share; the subtraction wraps if they exceed the disk. */
  function Used(l: Layout): nat {
    l.inodeTableStart + l.inodeTableCount
  }

  lemma CutWraps(bound: nat, used: nat)
    requires bound < UINT64 && used < UINT64
    ensures Cut(bound - used) == if used <= bound then bound - used else bound - used + UINT64
  {
  }

  /** The layout ends at most two blocks late; it fits just when there is no underflow and two blocks are left over. */
  lemma EndOfLayout(l: Layout)
    requires Plain(l) && l.blockCount < UINT64 && Used(l) < UINT64
    ensures Used(l) <= l.blockCount ==> End(l) == l.blockCount + 2 - (l.blockCount - Used(l)) % 9
    ensures End(l) <= l.blockCount <==> Used(l) <= l.blockCount && (l.blockCount - Used(l)) % 9 >= 2
  {
    hide RoundsUp, Cut;
    CutWraps(l.blockCount, Used(l));
    var remaining := Cut(l.blockCount - Used(l));
    assert remaining == 9 * (remaining / 9) + remaining % 9;
    assert End(l) == Used(l) + 2 + 9 * (remaining / 9);
  }

  /** The blocks bitmap_disk_init uses for a bitmap of that many bits. */
  function BitmapBlocks(bits: nat, blockSize: nat): nat
    requires blockSize > 0
  {
    (bits / 8 + blockSize - 1) / blockSize
  }

  lemma BitmapBlocksLeast(bits: nat, blockSize: nat, k: nat)
    requires blockSize > 0 && 8 * (k * blockSize) + 7 >= bits
    ensures BitmapBlocks(bits, blockSize) <= k
  {
    Quotient(bits / 8 + blockSize - 1, blockSize);
    Least(BitmapBlocks(bits, blockSize), k, bits / 8, blockSize);
  }

  lemma WidenBlock(count: nat, table: nat, perBlock: nat, bytes: nat, inodes: nat)
    requires count * 8 >= table && table * perBlock >= inodes && perBlock <= bytes
    ensures 8 * (count * bytes) >= inodes
  {
    Monotone(table, count * 8, perBlock);
    assert count * 8 * perBlock <= count * 8 * bytes by { Monotone(perBlock, bytes, count * 8); }
  }

  /** Each bitmap region has at least the blocks its bitmap uses, and the data bitmap has a bit for every data block. */
  lemma BitmapsFit(l: Layout)
    requires Plain(l)
    ensures BitmapBlocks(l.inodeMax, l.bytesPerBlock) <= l.inodeBitmapCount
    ensures BitmapBlocks(l.dataCount, l.bytesPerBlock) <= l.dataBitmapCount
  {
    hide BitmapBlocks, Cut;
    WidenBlock(l.inodeBitmapCount, l.inodeTableCount, l.inodesPerBlock, l.bytesPerBlock, l.inodeMax);
    BitmapBlocksLeast(l.inodeMax, l.bytesPerBlock, l.inodeBitmapCount);
    CoversItself(l.dataBitmapCount, l.bytesPerBlock);
    BitmapBlocksLeast(l.dataCount, l.bytesPerBlock, l.dataBitmapCount);
  }

  /** Where fs_inode_get reads an inode: a block of the table and a record in it. */
  function RecordBlock(l: Layout, index: nat): nat
    requires l.inodesPerBlock > 0
  {
    l.inodeTableStart + index / l.inodesPerBlock
  }

  function RecordOffset(l: Layout, index: nat): nat
    requires l.inodesPerBlock > 0
  {
    index % l.inodesPerBlock * INODE_SIZE
  }

  lemma Remainder(x: nat, d: nat)
    requires d > 0
    ensures x == x / d * d + x % d && x % d < d
  {
  }

  /** Every inode has a whole record inside the table, and no two share one. */
  lemma RecordsInTable(l: Layout, index: nat, other: nat)
    requires Plain(l) && index < l.inodeMax
    ensures l.inodeTableStart <= RecordBlock(l, index) < l.inodeTableStart + l.inodeTableCount
    ensures RecordOffset(l, index) + INODE_SIZE <= l.bytesPerBlock
    ensures RecordBlock(l, index) == RecordBlock(l, other) && RecordOffset(l, index) == RecordOffset(l, other) ==>
      index == other
  {
    hide Cut;
    var d := l.inodesPerBlock;
    Remainder(index, d);
    Remainder(other, d);
    Least(index / d + 1, l.inodeTableCount, index + 1, d);
  }

  // ----- sectors ------------------------------------------------------------------------------

  /** fs_block_to_sector */
  function BlockToSector(l: Layout, block: nat): nat {
    Cut(l.startSector + Cut(block * l.blockSectors))
  }

  lemma QuotientTimes(sectors: nat, d: nat, block: nat)
    requires d > 0 && block <= sectors / d + 2
    ensures block * d <= sectors + 2 * d
  {
    Quotient(sectors, d);
    Monotone(block, sectors / d + 2, d);
  }

  /** Blocks of the layout take disjoint runs of sectors, in order, behind the sector the superblock is written to. */
  lemma BlocksApart(sectorsPerBlock: nat, sectors: nat, inodes: nat, a: nat, b: nat)
    requires InRange(sectorsPerBlock, sectors, inodes)
    requires Cut(sectorsPerBlock * SECTOR_SIZE) > 0
    requires var l := Calculate(sectorsPerBlock, sectors, inodes);
      Used(l) <= l.blockCount && 0 < a < b <= End(l)
    ensures var l := Calculate(sectorsPerBlock, sectors, inodes);
      START_SECTOR < BlockToSector(l, a) && BlockToSector(l, a) + sectorsPerBlock <= BlockToSector(l, b)
  {
    hide Cut, RoundsUp, DivideUp;
    var l := Calculate(sectorsPerBlock, sectors, inodes);
    LayoutPlain(sectorsPerBlock, sectors, inodes);
    QuotientBelow(sectors, sectorsPerBlock);
    EndOfLayout(l);
    QuotientTimes(sectors, sectorsPerBlock, b);
    Monotone(a + 1, b, sectorsPerBlock);
    Monotone(1, a, sectorsPerBlock);
    assert (a + 1) * sectorsPerBlock == a * sectorsPerBlock + sectorsPerBlock;
    CutFits(a * sectorsPerBlock);
    CutFits(b * sectorsPerBlock);
    CutFits(START_SECTOR + a * sectorsPerBlock);
    CutFits(START_SECTOR + b * sectorsPerBlock);
  }

  lemma QuotientBelow(x: nat, d: nat)
    requires d > 0
    ensures x / d <= x
  {
    Quotient(x, d);
    CoversItself(x / d, d);
  }

  /** A sector belongs to at most one region. */
  lemma SectorsDisjoint(sectorsPerBlock: nat, sectors: nat, inodes: nat, i: nat, j: nat, a: nat, b: nat, sector: nat)
    requires InRange(sectorsPerBlock, sectors, inodes)
    requires Cut(sectorsPerBlock * SECTOR_SIZE) > 0
    requires var l := Calculate(sectorsPerBlock, sectors, inodes); Used(l) <= l.blockCount
    requires i < j < 5
    requires var r := Regions(Calculate(sectorsPerBlock, sectors, inodes));
      r[i].start <= a < r[i].End() && r[j].start <= b < r[j].End()
    ensures var l := Calculate(sectorsPerBlock, sectors, inodes);
      !(BlockToSector(l, a) <= sector < BlockToSector(l, a) + sectorsPerBlock &&
        BlockToSector(l, b) <= sector < BlockToSector(l, b) + sectorsPerBlock)
  {
    hide Cut, RoundsUp, DivideUp, Calculate, BlockToSector;
    LayoutPlain(sectorsPerBlock, sectors, inodes);
    RegionsOrdered(Calculate(sectorsPerBlock, sectors, inodes));
    BlocksApart(sectorsPerBlock, sectors, inodes, a, b);
  }

  lemma ConfiguredFields(l: Layout)
    requires Plain(l) && l.blockSectors == 1 && l.blockCount == 1024 && l.inodeMax == 64
    ensures Regions(l) == [Region(300, 1), Region(302, 2), Region(305, 16), Region(322, 78), Region(401, 624)]
    ensures End(l) == 1025
  {
    hide Cut;
    assert l.inodesPerBlock == 4;
    assert l.inodeTableCount == 16 by { assert 16 * 4 >= l.inodeMax; }
    assert l.inodeBitmapCount == 2 by { assert 2 * 8 >= l.inodeTableCount; }
    CutFits(703);
  }

  /** The configured file system, one sector a block, 1024 sectors and 64 inodes, ends one block behind its disk. */
  lemma ConfiguredLayout()
    ensures Cut(1 * SECTOR_SIZE) > 0
    ensures var l := Calculate(1, 1024, 64);
      && Regions(l) == [Region(300, 1), Region(302, 2), Region(305, 16), Region(322, 78), Region(401, 624)]
      && End(l) == 1025 == l.blockCount + 1
  {
    hide Calculate, Cut, RoundsUp, Regions, End;
    LayoutPlain(1, 1024, 64);
    ConfiguredFields(Calculate(1, 1024, 64));
  }
}
