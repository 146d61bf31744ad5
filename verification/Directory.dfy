/**
 * Directory entries packed in data blocks: fs_directory_entry_find and fs_directory_entry_add of
 * os/fs/fs_directory.c.
 */
module Directory {
  import opened Common
  import opened Disk
  import opened InodeCache
  import opened Inodes
  import FsData
  import BitmapModel
  import DiskBitmap

  const ENTRY_SIZE: nat := 64
  const PER_BLOCK: nat := 8
  const ENTRY_FREE: nat := 254
  const MAX_ENTRIES: nat := 64

  /**
   * A name an entry can hold. The field has 54 bytes, and so has the buffer fs_directory_entry_find copies it to and
   * puts a terminator behind it.
   */
  const MAX_NAME: nat := 53
  type Name = s: string | |s| <= MAX_NAME

  datatype Entry = Entry(inode: nat, kind: nat, name: Name)

  type Data = map<nat, seq<Entry>>

  /** The packed entry: an inode of eight bytes, a type, a length and the 54 bytes of the name. Eight fill a block. */
  lemma EntryLayout()
    ensures 8 + 1 + 1 + (MAX_NAME + 1) == ENTRY_SIZE == 64 && PER_BLOCK * ENTRY_SIZE == BLOCK_SIZE == 512
    ensures MAX_NAME + 1 == 54
  {
  }

  // ----- the entries as a list ----------------------------------------------------------------

  /** The first entry of that name. */
  function Lookup(entries: seq<Entry>, name: string): Option<Entry> {
    if entries == [] then None
    else if entries[0].name == name then Some(entries[0])
    else Lookup(entries[1..], name)
  }

  /** It is the first entry of that name, free or not, and there is none just when no entry has it. */
  lemma {:induction false} LookupIsFirst(entries: seq<Entry>, name: string)
    ensures Lookup(entries, name).None? <==> forall i :: 0 <= i < |entries| ==> entries[i].name != name
    ensures forall i ::
      0 <= i < |entries| && entries[i].name == name && (forall k :: 0 <= k < i ==> entries[k].name != name) ==>
      Lookup(entries, name) == Some(entries[i])
  {
    if entries != [] {
      LookupIsFirst(entries[1..], name);
      assert forall i :: 0 < i < |entries| ==> entries[i] == entries[1..][i - 1];
    }
  }

  function FirstFree(entries: seq<Entry>, i: nat): (f: nat)
    requires i <= |entries|
    ensures i <= f <= |entries|
    ensures f < |entries| ==> entries[f].kind == ENTRY_FREE
    ensures forall k :: i <= k < f ==> entries[k].kind != ENTRY_FREE
    decreases |entries| - i
  {
    if i == |entries| || entries[i].kind == ENTRY_FREE then i else FirstFree(entries, i + 1)
  }

  /** An entry goes in the first free place, or at the end. */
  function Added(entries: seq<Entry>, entry: Entry): seq<Entry> {
    var f := FirstFree(entries, 0);
    if f < |entries| then entries[f := entry] else entries + [entry]
  }

  /** A free place has an empty name, as fs_directory_entry_del leaves it. */
  ghost predicate FreeUnnamed(entries: seq<Entry>) {
    forall i :: 0 <= i < |entries| && entries[i].kind == ENTRY_FREE ==> entries[i].name == ""
  }

  lemma {:induction false} LookupUpdate(entries: seq<Entry>, f: nat, entry: Entry, name: string)
    requires f < |entries| && entries[f].name != name
    ensures entry.name != name ==> Lookup(entries[f := entry], name) == Lookup(entries, name)
    ensures entry.name == name && Lookup(entries, name).None? ==> Lookup(entries[f := entry], name) == Some(entry)
    decreases |entries|
  {
    if f == 0 {
      assert entries[f := entry][1..] == entries[1..];
    } else {
      assert entries[f := entry][1..] == entries[1..][f - 1 := entry];
      LookupUpdate(entries[1..], f - 1, entry, name);
    }
  }

  lemma {:induction false} LookupAppend(entries: seq<Entry>, entry: Entry, name: string)
    ensures Lookup(entries + [entry], name) ==
      if Lookup(entries, name).Some? then Lookup(entries, name)
      else if entry.name == name then Some(entry) else None
    decreases |entries|
  {
    if entries == [] {
      assert entries + [entry] == [entry] && [entry][1..] == [];
    } else {
      assert (entries + [entry])[1..] == entries[1..] + [entry];
      LookupAppend(entries[1..], entry, name);
    }
  }

  /** Adding a name not present makes exactly that name found, and leaves every other lookup as it was. */
  lemma AddThenLookup(entries: seq<Entry>, entry: Entry, name: string)
    requires FreeUnnamed(entries) && entry.name != "" && Lookup(entries, entry.name).None? && name != ""
    ensures Lookup(Added(entries, entry), name) == if name == entry.name then Some(entry) else Lookup(entries, name)
  {
    var f := FirstFree(entries, 0);
    if f < |entries| {
      LookupUpdate(entries, f, entry, name);
    } else {
      LookupAppend(entries, entry, name);
    }
  }

  // ----- the entries on disk ------------------------------------------------------------------

  function EntryCount(inode: Inode): nat {
    inode.size / BLOCK_SIZE * PER_BLOCK + inode.size % BLOCK_SIZE / ENTRY_SIZE
  }

  /** A directory inode: whole entries, and exactly the blocks its size needs. */
  ghost predicate DirectoryInode(inode: Inode) {
    && |inode.blocks| == DIRECT_BLOCKS && inode.blockCount <= DIRECT_BLOCKS
    && inode.size % ENTRY_SIZE == 0 && inode.blockCount == BlocksFor(inode.size)
  }

  ghost predicate OnDisk(disk: Data, inode: Inode) {
    && (forall b :: b in disk ==> |disk[b]| == PER_BLOCK)
    && DirectoryInode(inode)
    && (forall k :: 0 <= k < inode.blockCount ==> inode.blocks[k] in disk)
    && forall j, k :: 0 <= j < k < inode.blockCount ==> inode.blocks[j] != inode.blocks[k]
  }

  lemma CountFits(inode: Inode)
    requires DirectoryInode(inode)
    ensures EntryCount(inode) == inode.size / ENTRY_SIZE
    ensures forall i: nat :: i < EntryCount(inode) ==> i / PER_BLOCK < inode.blockCount
    ensures EntryCount(inode) <= PER_BLOCK * inode.blockCount
  {
    SizeSplits(inode.size);
  }

  lemma CountLimit(inode: Inode)
    requires DirectoryInode(inode)
    ensures EntryCount(inode) <= MAX_ENTRIES
    ensures EntryCount(inode) < MAX_ENTRIES <==> inode.size + ENTRY_SIZE <= BLOCK_SIZE * DIRECT_BLOCKS
  {
    CountFits(inode);
  }

  lemma SizeSplits(size: nat)
    requires size % ENTRY_SIZE == 0
    ensures size / BLOCK_SIZE * PER_BLOCK + size % BLOCK_SIZE / ENTRY_SIZE == size / ENTRY_SIZE
    ensures size / ENTRY_SIZE <= PER_BLOCK * BlocksFor(size)
  {
    var n := size / ENTRY_SIZE;
    assert size == ENTRY_SIZE * n;
    assert size / BLOCK_SIZE == n / PER_BLOCK;
    assert size % BLOCK_SIZE == ENTRY_SIZE * (n % PER_BLOCK);
  }

  function EntryAt(disk: Data, inode: Inode, i: nat): Entry
    requires OnDisk(disk, inode) && i / PER_BLOCK < inode.blockCount
  {
    disk[inode.blocks[i / PER_BLOCK]][i % PER_BLOCK]
  }

  function Entries(disk: Data, inode: Inode, n: nat): (s: seq<Entry>)
    requires OnDisk(disk, inode) && n <= PER_BLOCK * inode.blockCount
    ensures |s| == n
  {
    seq(n, i requires 0 <= i < n => EntryAt(disk, inode, i))
  }

  /** All entries of a directory. */
  function AllEntries(disk: Data, inode: Inode): seq<Entry>
    requires OnDisk(disk, inode)
  {
    CountFits(inode);
    Entries(disk, inode, EntryCount(inode))
  }

  /** They are the blocks of the inode one behind the other, as far as its size goes. */
  lemma EntriesAreBlocks(disk: Data, inode: Inode)
    requires OnDisk(disk, inode)
    ensures inode.size / 64 <= 8 * inode.blockCount
    ensures var blocks := seq(inode.blockCount, k requires 0 <= k < inode.blockCount => disk[inode.blocks[k]]);
      |Flatten(blocks)| == 8 * inode.blockCount && AllEntries(disk, inode) == Flatten(blocks)[..inode.size / 64]
  {
    CountFits(inode);
    var blocks := seq(inode.blockCount, k requires 0 <= k < inode.blockCount => disk[inode.blocks[k]]);
    FlattenLength(blocks, 8);
    forall i: nat | i < inode.size / 64 ensures AllEntries(disk, inode)[i] == Flatten(blocks)[i] {
      FlattenAt(blocks, 8, i);
    }
  }

  /** Writing one entry of one block writes that entry of the directory. */
  lemma StoreEntry(disk: Data, inode: Inode, i: nat, entry: Entry, n: nat)
    requires OnDisk(disk, inode) && i / PER_BLOCK < inode.blockCount && i < n <= PER_BLOCK * inode.blockCount
    ensures var b := inode.blocks[i / PER_BLOCK];
      var disk' := disk[b := disk[b][i % PER_BLOCK := entry]];
      OnDisk(disk', inode) && Entries(disk', inode, n) == Entries(disk, inode, n)[i := entry]
  {
    var b := inode.blocks[i / PER_BLOCK];
    var disk' := disk[b := disk[b][i % PER_BLOCK := entry]];
    forall k | 0 <= k < n ensures Entries(disk', inode, n)[k] == Entries(disk, inode, n)[i := entry][k] {
      if k != i && k / PER_BLOCK == i / PER_BLOCK { assert k % PER_BLOCK != i % PER_BLOCK; }
    }
  }

  /** fs_directory_entry_find: the block is read anew whenever its first entry comes up. */
  method FindEntry(icache: Icache, drive: Drive<seq<Entry>>, name: string) returns (found: Option<Entry>)
    requires OnDisk(drive.sectors, icache.inode)
    modifies icache`reference
    ensures found == Lookup(AllEntries(drive.sectors, icache.inode), name)
  {
    CountFits(icache.inode);
    var entryCount := EntryCount(icache.inode);
    ghost var entries := Entries(drive.sectors, icache.inode, entryCount);
    var block: seq<Entry> := [];
    assert entries[0..] == entries;
    for i := 0 to entryCount
      invariant Lookup(entries[i..], name) == Lookup(entries, name)
      invariant i % PER_BLOCK != 0 ==>
        i / PER_BLOCK < icache.inode.blockCount && block == drive.sectors[icache.inode.blocks[i / PER_BLOCK]]
    {
      var entryIndex := i % PER_BLOCK;
      if entryIndex == 0 {
        var dataBlock := icache.GetBlock(i / PER_BLOCK);
        block := drive.sectors[dataBlock];
      }
      assert block[entryIndex] == entries[i] && entries[i..][1..] == entries[i + 1..];
      if block[entryIndex].name == name {
        return Some(block[entryIndex]);
      }
      NextEntry(i);
    }
    assert entries[entryCount..] == [];
    return None;
  }

  lemma NextEntry(i: nat)
    ensures (i + 1) % PER_BLOCK != 0 ==> (i + 1) / PER_BLOCK == i / PER_BLOCK
  {
  }

  // ----- adding an entry ----------------------------------------------------------------------

  /** fs_directory_entry_create. The fault is a name that does not fit, which the code copies all the same. */
  method CreateEntry(inode: nat, kind: nat, name: string) returns (entry: Entry, fault: bool)
    ensures fault <==> |name| > MAX_NAME
    ensures !fault ==> entry == Entry(inode, kind, name)
  {
    if |name| > MAX_NAME {
      return Entry(inode, kind, ""), true;
    }
    return Entry(inode, kind, name), false;
  }

  /** What adding needs of its surroundings: an allocator beside the drive, and a sector for every block of it. */
  ghost predicate CanAdd(icache: Icache, data: FsData.BlockAllocator, drive: Drive<seq<Entry>>)
    reads icache, data, data.bitmap, data.bitmap.block, data.bitmap.disk, drive
  {
    && OnDisk(drive.sectors, icache.inode) && data.Valid() && OwnsBlocks(icache.inode, data.held)
    && (drive as object) != (data.bitmap.disk as object)
    && (forall b: nat :: b < data.bitmap.totalBits ==> b in drive.sectors)
  }

  /** The blocks an entry more takes: one if it goes behind the last entry of a full block. */
  function BlocksTaken(entries: seq<Entry>): nat {
    if FirstFree(entries, 0) == |entries| && |entries| % PER_BLOCK == 0 then 1 else 0
  }

  /** An entry more finds a place: a free one, or one behind the last entry and within the direct blocks. */
  predicate CanPlace(entries: seq<Entry>, freeBlocks: nat) {
    (FirstFree(entries, 0) == |entries| ==> |entries| < MAX_ENTRIES) && BlocksTaken(entries) <= freeBlocks
  }

  /**
   * No place is left exactly when every entry is in use and there are 64, or as many as whole blocks hold and no block
   * is free.
   */
  lemma PlaceLeft(entries: seq<Entry>, freeBlocks: nat)
    requires |entries| <= 64
    ensures CanPlace(entries, freeBlocks) <==>
      (exists i :: 0 <= i < |entries| && entries[i].kind == 254)
      || (|entries| < 64 && (|entries| % 8 == 0 ==> freeBlocks > 0))
  {
  }

  /** The place taken is the first free one, or the one behind the last entry if none is free. */
  lemma WhereItGoes(entries: seq<Entry>, entry: Entry)
    ensures forall i ::
      0 <= i < |entries| && entries[i].kind == 254 && (forall k :: 0 <= k < i ==> entries[k].kind != 254) ==>
      Added(entries, entry) == entries[i := entry] && BlocksTaken(entries) == 0
    ensures (forall i :: 0 <= i < |entries| ==> entries[i].kind != 254) ==>
      Added(entries, entry) == entries + [entry] && BlocksTaken(entries) == if |entries| % 8 == 0 then 1 else 0
  {
  }

  lemma GrowByEntry(size: nat)
    requires size % ENTRY_SIZE == 0
    ensures (size + ENTRY_SIZE) % ENTRY_SIZE == 0 && (size + ENTRY_SIZE) / ENTRY_SIZE == size / ENTRY_SIZE + 1
    ensures BlocksFor(size + ENTRY_SIZE) - BlocksFor(size) == if size / ENTRY_SIZE % PER_BLOCK == 0 then 1 else 0
    ensures size + ENTRY_SIZE <= BLOCK_SIZE * DIRECT_BLOCKS ==> BlocksFor(size + ENTRY_SIZE) <= DIRECT_BLOCKS
    ensures size / ENTRY_SIZE / PER_BLOCK < BlocksFor(size + ENTRY_SIZE)
  {
    hide BlocksFor, BlocksHolding;
    NextMultiple(size);
    BlocksOfSize(size);
    BlocksOfSize(size + ENTRY_SIZE);
    OneEntryMore(size / ENTRY_SIZE);
  }

  lemma NextMultiple(size: nat)
    requires size % ENTRY_SIZE == 0
    ensures (size + ENTRY_SIZE) % ENTRY_SIZE == 0
    ensures (size + ENTRY_SIZE) / ENTRY_SIZE == size / ENTRY_SIZE + 1
    ensures size + ENTRY_SIZE <= BLOCK_SIZE * DIRECT_BLOCKS ==> size / ENTRY_SIZE < MAX_ENTRIES
  {
  }

  /** The blocks that hold n entries. */
  function BlocksHolding(n: nat): nat {
    (n + PER_BLOCK - 1) / PER_BLOCK
  }

  lemma BlocksOfSize(size: nat)
    requires size % ENTRY_SIZE == 0
    ensures BlocksFor(size) == BlocksHolding(size / ENTRY_SIZE)
  {
  }

  lemma OneEntryMore(n: nat)
    ensures BlocksHolding(n + 1) - BlocksHolding(n) == if n % PER_BLOCK == 0 then 1 else 0
    ensures n / PER_BLOCK < BlocksHolding(n + 1)
    ensures n < MAX_ENTRIES ==> BlocksHolding(n + 1) <= DIRECT_BLOCKS
  {
  }

  /** The same entries, seen through an inode that has gained blocks and size. */
  lemma EntriesExtend(disk: Data, inode: Inode, inode': Inode, n: nat)
    requires OnDisk(disk, inode) && OnDisk(disk, inode') && n <= PER_BLOCK * inode.blockCount
    requires inode.blockCount <= inode'.blockCount
    requires forall k :: 0 <= k < inode.blockCount ==> inode'.blocks[k] == inode.blocks[k]
    ensures Entries(disk, inode', n) == Entries(disk, inode, n)
  {
  }

  lemma EntriesGrow(disk: Data, inode: Inode, n: nat)
    requires OnDisk(disk, inode) && n < PER_BLOCK * inode.blockCount
    ensures Entries(disk, inode, n + 1) == Entries(disk, inode, n) + [EntryAt(disk, inode, n)]
  {
  }

  /** The directory keeps its inode's kind, and its blocks are its own old ones and ones that no one held. */
  ghost predicate Regrown(inode: Inode, inode': Inode, held: set<nat>, held': set<nat>)
    requires inode.blockCount <= |inode.blocks| && inode'.blockCount <= |inode'.blocks|
  {
    && held <= held' && inode'.kind == inode.kind
    && forall k :: 0 <= k < inode'.blockCount ==>
        inode'.blocks[k] !in held || inode'.blocks[k] in inode.blocks[..inode.blockCount]
  }

  /** Growing the inode by one entry leaves the entries it has; where it fails it leaves the inode as it was. */
  method GrowInode(icache: Icache, data: FsData.BlockAllocator, drive: Drive<seq<Entry>>) returns (ok: bool)
    requires CanAdd(icache, data, drive) && icache.inode.size + ENTRY_SIZE <= BLOCK_SIZE * DIRECT_BLOCKS
    modifies icache, data, data.bitmap`dirty, data.bitmap`blockIndex, data.bitmap`usedBits, data.bitmap.block,
      data.bitmap.disk
    ensures data.Valid() && OnDisk(drive.sectors, icache.inode) && OwnsBlocks(icache.inode, data.held)
    ensures Regrown(old(icache.inode), icache.inode, old(data.held), data.held)
    ensures !icache.dirty ==> icache.inode == old(icache.inode)
    ensures ok <==> old(EntryCount(icache.inode)) % PER_BLOCK != 0 || old(data.bitmap.usedBits) < data.bitmap.totalBits
    ensures ok ==>
      && icache.dirty && icache.inode.size == old(icache.inode.size) + ENTRY_SIZE
      && EntryCount(icache.inode) == old(EntryCount(icache.inode)) + 1 <= PER_BLOCK * icache.inode.blockCount
      && Entries(drive.sectors, icache.inode, old(EntryCount(icache.inode))) ==
          old(AllEntries(drive.sectors, icache.inode))
      && data.bitmap.usedBits ==
           old(data.bitmap.usedBits) + if old(EntryCount(icache.inode)) % PER_BLOCK == 0 then 1 else 0
    ensures !ok ==>
      && AllEntries(drive.sectors, icache.inode) == old(AllEntries(drive.sectors, icache.inode))
      && data.bitmap.usedBits == old(data.bitmap.usedBits)
  {
    hide BlocksFor, BitmapModel.IsSet, BitmapModel.Count, BitmapModel.BlocksValid, DiskBitmap.Overlay, Entries;
    ghost var inode0, held0 := icache.inode, data.held;
    CountFits(icache.inode);
    GrowByEntry(icache.inode.size);
    data.CounterBounded();
    ok := icache.Grow(data, icache.inode.size + ENTRY_SIZE);
    forall k | 0 <= k < inode0.blockCount ensures icache.inode.blocks[k] == inode0.blocks[k] {
      if !ok { assert inode0.blocks[..inode0.blockCount][k] == icache.inode.blocks[..inode0.blockCount][k]; }
    }
    forall k | 0 <= k < icache.inode.blockCount
      ensures icache.inode.blocks[k] !in held0 || icache.inode.blocks[k] in inode0.blocks[..inode0.blockCount]
    {
      if k < inode0.blockCount { assert inode0.blocks[..inode0.blockCount][k] == icache.inode.blocks[k]; }
    }
    HeldBelow(data);
    CountFits(icache.inode);
    EntriesExtend(drive.sectors, inode0, icache.inode, EntryCount(inode0));
  }

  lemma HeldBelow(data: FsData.BlockAllocator)
    requires data.Valid()
    ensures forall b :: b in data.held ==> b < data.bitmap.totalBits
  {
  }

  /** Read the block of an entry, change the entry, write the block. */
  method PutEntry(icache: Icache, drive: Drive<seq<Entry>>, i: nat, entry: Entry)
    requires OnDisk(drive.sectors, icache.inode) && i / PER_BLOCK < icache.inode.blockCount
    modifies icache`reference, drive
    ensures OnDisk(drive.sectors, icache.inode)
    ensures drive.sectors == old(drive.sectors)[icache.inode.blocks[i / PER_BLOCK] :=
      old(drive.sectors)[icache.inode.blocks[i / PER_BLOCK]][i % PER_BLOCK := entry]]
  {
    var dataBlock := icache.GetBlock(i / PER_BLOCK);
    var block := drive.sectors[dataBlock];
    drive.sectors := drive.sectors[dataBlock := block[i % PER_BLOCK := entry]];
  }

  /**
   * fs_directory_entry_add: into the first free place, or behind the last entry, growing the inode. The fault is a
   * place that is not there: no place is free, and the directory has all its direct blocks full, or the last one full
   * and no block is left. Then nothing is added. Either way blocks held by others stay as they are.
   */
  method AddEntry(icache: Icache, data: FsData.BlockAllocator, drive: Drive<seq<Entry>>, entry: Entry)
    returns (fault: bool)
    requires CanAdd(icache, data, drive)
    modifies icache, drive
    modifies data, data.bitmap`dirty, data.bitmap`blockIndex, data.bitmap`usedBits, data.bitmap.block, data.bitmap.disk
    ensures CanAdd(icache, data, drive) && drive.sectors.Keys == old(drive.sectors).Keys
    ensures Regrown(old(icache.inode), icache.inode, old(data.held), data.held)
    ensures !icache.dirty ==> icache.inode == old(icache.inode)
    ensures forall b ::
      b in old(data.held) && b !in old(icache.inode.blocks[..icache.inode.blockCount]) && b in drive.sectors ==>
      drive.sectors[b] == old(drive.sectors)[b]
    ensures var entries := old(AllEntries(drive.sectors, icache.inode));
      fault <==>
        (forall i :: 0 <= i < |entries| ==> entries[i].kind != 254)
        && (|entries| == 64 || (|entries| % 8 == 0 && old(data.bitmap.usedBits) == data.bitmap.totalBits))
    ensures var entries := old(AllEntries(drive.sectors, icache.inode));
      && (fault <==> !CanPlace(entries, data.bitmap.totalBits - old(data.bitmap.usedBits)))
      && AllEntries(drive.sectors, icache.inode) == (if fault then entries else Added(entries, entry))
      && data.bitmap.usedBits == old(data.bitmap.usedBits) + (if fault then 0 else BlocksTaken(entries))
      && (!fault && entries == [] ==> icache.dirty)
  {
    hide BlocksFor, BitmapModel.IsSet, BitmapModel.Count, BitmapModel.BlocksValid, DiskBitmap.Overlay, Entries;
    data.CounterBounded();
    CountFits(icache.inode);
    CountLimit(icache.inode);
    var n := EntryCount(icache.inode);
    ghost var entries := AllEntries(drive.sectors, icache.inode);
    ghost var own := icache.inode.blocks[..icache.inode.blockCount];
    PlaceLeft(entries, data.bitmap.totalBits - data.bitmap.usedBits);
    var i := FindFree(icache, drive, n);
    if i < n {
      StoreEntry(drive.sectors, icache.inode, i, entry, n);
      assert own[i / PER_BLOCK] == icache.inode.blocks[i / PER_BLOCK];
      PutEntry(icache, drive, i, entry);
      return false;
    }
    if n == MAX_ENTRIES {
      // the next block's pointer would lie outside the array of direct blocks
      return true;
    }
    var ok := AppendEntry(icache, data, drive, entry);
    return !ok;
  }

  /** The end of fs_directory_entry_add: the entry behind the last one. */
  method AppendEntry(icache: Icache, data: FsData.BlockAllocator, drive: Drive<seq<Entry>>, entry: Entry)
    returns (ok: bool)
    requires CanAdd(icache, data, drive) && icache.inode.size + ENTRY_SIZE <= BLOCK_SIZE * DIRECT_BLOCKS
    modifies icache, drive
    modifies data, data.bitmap`dirty, data.bitmap`blockIndex, data.bitmap`usedBits, data.bitmap.block, data.bitmap.disk
    ensures CanAdd(icache, data, drive) && drive.sectors.Keys == old(drive.sectors).Keys
    ensures Regrown(old(icache.inode), icache.inode, old(data.held), data.held)
    ensures !icache.dirty ==> icache.inode == old(icache.inode)
    ensures forall b ::
      b in old(data.held) && b !in old(icache.inode.blocks[..icache.inode.blockCount]) && b in drive.sectors ==>
      drive.sectors[b] == old(drive.sectors)[b]
    ensures var entries := old(AllEntries(drive.sectors, icache.inode));
      && (ok <==> |entries| % PER_BLOCK != 0 || old(data.bitmap.usedBits) < data.bitmap.totalBits)
      && AllEntries(drive.sectors, icache.inode) == (if ok then entries + [entry] else entries)
      && data.bitmap.usedBits == old(data.bitmap.usedBits) + (if ok && |entries| % PER_BLOCK == 0 then 1 else 0)
      && (ok ==> icache.dirty)
  {
    hide BlocksFor, BitmapModel.IsSet, BitmapModel.Count, BitmapModel.BlocksValid, DiskBitmap.Overlay, Entries;
    CountFits(icache.inode);
    var n := EntryCount(icache.inode);
    ok := GrowInode(icache, data, drive);
    if ok {
      assert n / PER_BLOCK < icache.inode.blockCount;
      StoreEntry(drive.sectors, icache.inode, n, entry, n + 1);
      EntriesGrow(drive.sectors, icache.inode, n);
      PutEntry(icache, drive, n, entry);
    }
  }

  /** The search of fs_directory_entry_add for a free place; n when there is none. */
  method FindFree(icache: Icache, drive: Drive<seq<Entry>>, n: nat) returns (i: nat)
    requires OnDisk(drive.sectors, icache.inode) && n <= PER_BLOCK * icache.inode.blockCount
    modifies icache`reference
    ensures i == FirstFree(Entries(drive.sectors, icache.inode, n), 0)
  {
    i := 0;
    ghost var entries := Entries(drive.sectors, icache.inode, n);
    while i < n
      invariant i <= n && FirstFree(entries, i) == FirstFree(entries, 0)
    {
      var dataBlock := icache.GetBlock(i / PER_BLOCK);
      var block := drive.sectors[dataBlock];
      assert block[i % PER_BLOCK] == entries[i];
      if block[i % PER_BLOCK].kind == ENTRY_FREE {
        return;
      }
      i := i + 1;
    }
  }
}
