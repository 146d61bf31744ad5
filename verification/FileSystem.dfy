/**
 * A mounted volume: the inode bitmap, the data blocks and their allocator, and the inodes in their cache, with the
 * directory functions of os/fs/fs_directory.c and fs_inode_create of os/fs/fs_inode.c over them.
 */
module FileSystem {
  import opened Common
  import opened PathModel
  import opened Paths
  import opened Tree
  import opened Disk
  import opened InodeCache
  import opened Inodes
  import opened Directory
  import opened DirectoryTree
  import opened CreateModel
  import BitmapModel
  import DiskBitmap
  import FsData

  type InodeMap = map<nat, Inode>

  // ----- what the stored blocks list ----------------------------------------------------------

  ghost predicate IsDirectory(inodes: InodeMap, d: nat) {
    d in inodes && inodes[d].kind == DIRECTORY
  }

  ghost predicate Apart(inode: Inode, other: Inode)
    requires inode.blockCount <= |inode.blocks| && other.blockCount <= |other.blocks|
  {
    forall j, k :: 0 <= j < inode.blockCount && 0 <= k < other.blockCount ==> inode.blocks[j] != other.blocks[k]
  }

  ghost predicate AllOwn(inodes: InodeMap, held: set<nat>) {
    && (forall d :: d in inodes ==> OwnsBlocks(inodes[d], held))
    && forall d, e :: d in inodes && e in inodes && d != e ==> Apart(inodes[d], inodes[e])
  }

  ghost predicate AllOnDisk(sectors: Data, inodes: InodeMap) {
    forall d :: IsDirectory(inodes, d) ==> OnDisk(sectors, inodes[d])
  }

  ghost function ListingOf(sectors: Data, inodes: InodeMap): Listing
    requires AllOnDisk(sectors, inodes)
  {
    map d | d in inodes && IsDirectory(inodes, d) :: AllEntries(sectors, inodes[d])
  }

  /** Different inodes own different blocks, and every directory is on disk. */
  ghost predicate Stored(sectors: Data, inodes: InodeMap, held: set<nat>) {
    AllOwn(inodes, held) && AllOnDisk(sectors, inodes)
  }

  ghost predicate BlocksUnchanged(sectors: Data, sectors': Data, inode: Inode, held: set<nat>)
    requires inode.blockCount <= |inode.blocks|
  {
    && sectors'.Keys == sectors.Keys
    && forall b :: b in held && b !in inode.blocks[..inode.blockCount] && b in sectors' ==> sectors'[b] == sectors[b]
  }

  /** A directory that none of its blocks changed of lists the same. */
  lemma SameEntries(sectors: Data, sectors': Data, inode: Inode)
    requires OnDisk(sectors, inode) && sectors'.Keys == sectors.Keys
    requires forall b :: b in sectors' ==> |sectors'[b]| == PER_BLOCK
    requires forall k :: 0 <= k < inode.blockCount ==> sectors'[inode.blocks[k]] == sectors[inode.blocks[k]]
    ensures OnDisk(sectors', inode) && AllEntries(sectors', inode) == AllEntries(sectors, inode)
  {
    CountFits(inode);
  }

  /** Changing one directory within its own blocks and fresh ones leaves all the others as they are. */
  lemma OneChanged(sectors: Data, sectors': Data, inodes: InodeMap, d: nat, inode': Inode, held: set<nat>,
                   held': set<nat>)
    requires Stored(sectors, inodes, held) && IsDirectory(inodes, d)
    requires OnDisk(sectors', inode') && OwnsBlocks(inode', held') && Regrown(inodes[d], inode', held, held')
    requires BlocksUnchanged(sectors, sectors', inodes[d], held)
    ensures Stored(sectors', inodes[d := inode'], held')
    ensures ListingOf(sectors', inodes[d := inode']) == ListingOf(sectors, inodes)[d := AllEntries(sectors', inode')]
  {
    hide AllEntries, OnDisk, Apart;
    var inodes' := inodes[d := inode'];
    forall e | e in inodes && e != d
      ensures Apart(inodes[e], inode') && Apart(inode', inodes[e]) && OwnsBlocks(inodes[e], held')
    {
      OthersApart(inodes[d], inode', inodes[e], held, held');
    }
    forall e | IsDirectory(inodes', e) && e != d
      ensures OnDisk(sectors', inodes[e]) && AllEntries(sectors', inodes[e]) == AllEntries(sectors, inodes[e])
    {
      assert IsDirectory(inodes, e);
      OtherListed(sectors, sectors', inodes[d], inode', inodes[e], held);
    }
  }

  lemma OtherListed(sectors: Data, sectors': Data, inode: Inode, inode': Inode, other: Inode, held: set<nat>)
    requires OwnsBlocks(inode, held) && OwnsBlocks(other, held) && Apart(inode, other)
    requires OnDisk(sectors, other) && OnDisk(sectors', inode') && BlocksUnchanged(sectors, sectors', inode, held)
    ensures OnDisk(sectors', other) && AllEntries(sectors', other) == AllEntries(sectors, other)
  {
    hide AllEntries;
    NotOwn(inode, other, held);
    SameEntries(sectors, sectors', other);
  }

  lemma OthersApart(inode: Inode, inode': Inode, other: Inode, held: set<nat>, held': set<nat>)
    requires OwnsBlocks(inode, held) && OwnsBlocks(other, held) && OwnsBlocks(inode', held')
    requires Apart(inode, other) && Regrown(inode, inode', held, held')
    ensures Apart(other, inode') && Apart(inode', other) && OwnsBlocks(other, held')
  {
    forall j, k | 0 <= j < other.blockCount && 0 <= k < inode'.blockCount ensures other.blocks[j] != inode'.blocks[k] {
      if inode'.blocks[k] in inode.blocks[..inode.blockCount] {
        var i :| 0 <= i < inode.blockCount && inode.blocks[..inode.blockCount][i] == inode'.blocks[k];
      }
    }
  }

  lemma NotOwn(inode: Inode, other: Inode, held: set<nat>)
    requires OwnsBlocks(inode, held) && OwnsBlocks(other, held) && Apart(inode, other)
    ensures forall k :: 0 <= k < other.blockCount ==>
      other.blocks[k] in held && other.blocks[k] !in inode.blocks[..inode.blockCount]
  {
  }

  /** A new inode without blocks joins the others; a directory lists nothing yet. */
  lemma OneMade(sectors: Data, inodes: InodeMap, n: nat, inode: Inode, held: set<nat>)
    requires Stored(sectors, inodes, held) && n !in inodes && forall b :: b in sectors ==> |sectors[b]| == PER_BLOCK
    requires inode.kind == DIRECTORY && inode.size == 0 && inode.blockCount == 0 && |inode.blocks| == DIRECT_BLOCKS
    ensures Stored(sectors, inodes[n := inode], held)
    ensures ListingOf(sectors, inodes[n := inode]) == ListingOf(sectors, inodes)[n := []]
  {
    hide AllEntries, OnDisk, Apart;
    var inodes' := inodes[n := inode];
    EmptyDirectory(sectors, inode);
    NoBlocks(inode, held);
    forall d | d in inodes && d != n
      ensures OwnsBlocks(inodes[d], held) && Apart(inode, inodes[d]) && Apart(inodes[d], inode)
    {
      NoBlocksApart(inode, inodes[d], held);
    }
    forall d | IsDirectory(inodes', d) ensures OnDisk(sectors, inodes'[d]) {
      if d != n { assert IsDirectory(inodes, d); }
    }
  }

  lemma EmptyDirectory(sectors: Data, inode: Inode)
    requires forall b :: b in sectors ==> |sectors[b]| == PER_BLOCK
    requires inode.size == 0 && inode.blockCount == 0 && |inode.blocks| == DIRECT_BLOCKS
    ensures OnDisk(sectors, inode) && AllEntries(sectors, inode) == []
  {
  }

  lemma NothingStored(sectors: Data, held: set<nat>, order: seq<nat>)
    requires forall i, j :: 0 <= i < j < |order| ==> order[i] != order[j]
    ensures Stored(sectors, map[], held) && ListingOf(sectors, map[]) == map[]
    ensures Sound(Contents(map[], order, 0))
  {
  }

  /** An inode that lists nothing yet, with its number taken, leaves the contents sound. */
  lemma MadeSound(listing: Listing, free: seq<nat>, left: seq<nat>, n: nat)
    requires Sound(Contents(listing, free, 0)) && forall i :: 0 <= i < |left| ==> left[i] in free && left[i] != n
    requires forall i, j :: 0 <= i < j < |left| ==> left[i] != left[j]
    ensures Sound(Contents(listing[n := []], left, 0))
  {
  }

  lemma StoredAt(sectors: Data, inodes: InodeMap, held: set<nat>, d: nat)
    requires Stored(sectors, inodes, held) && d in ListingOf(sectors, inodes)
    ensures IsDirectory(inodes, d) && OnDisk(sectors, inodes[d]) && OwnsBlocks(inodes[d], held)
    ensures ListingOf(sectors, inodes)[d] == AllEntries(sectors, inodes[d])
  {
  }

  lemma SectorSizes(sectors: Data, inode: Inode)
    requires OnDisk(sectors, inode)
    ensures forall b :: b in sectors ==> |sectors[b]| == PER_BLOCK
  {
  }

  lemma NoBlocksApart(inode: Inode, other: Inode, held: set<nat>)
    requires inode.blockCount == 0 && |inode.blocks| == DIRECT_BLOCKS && OwnsBlocks(other, held)
    ensures Apart(inode, other) && Apart(other, inode)
  {
  }

  /** The cache shows every inode there is, and holds no others. */
  ghost predicate Mirrors(disk: Sectors, l: Layout, slots: seq<Slot>, inodes: InodeMap)
    requires TableValid(disk, l)
  {
    && Held(slots) <= inodes.Keys
    && forall n :: n in inodes ==> n < l.count && Logical(disk, l, slots, n) == inodes[n]
  }

  // ----- the volume ---------------------------------------------------------------------------

  class Volume {
    const data: FsData.BlockAllocator
    const numbers: DiskBitmap.Bitmap
    const drive: Drive<seq<Entry>>
    const cache: Cache
    var inodes: InodeMap

    /** The disk regions and the buffers over them are all different objects. */
    ghost predicate Separate() {
      && data.bitmap != numbers && data.bitmap.block != numbers.block && data.bitmap.disk != numbers.disk
      && (drive as object) != (data.bitmap.disk as object) && (drive as object) != (numbers.disk as object)
      && (cache.disk as object) != (data.bitmap.disk as object) && (cache.disk as object) != (numbers.disk as object)
      && (cache.disk as object) != (drive as object)
      && (cache.slots as object) != (data.bitmap.block as object)
      && (cache.slots as object) != (numbers.block as object)
    }

    ghost function Footprint(): set<object> {
      {this, data, data.bitmap, data.bitmap.block, data.bitmap.disk, numbers, numbers.block, numbers.disk, drive,
       cache, cache.slots, cache.disk}
    }

    /** Bitmaps, blocks and inodes are sound, and so is what they list. */
    ghost predicate Consistent()
      reads Footprint()
    {
      && Separate() && data.Valid() && numbers.Valid() && numbers.totalBits <= cache.layout.count
      && (forall b: nat :: b < data.bitmap.totalBits ==> b in drive.sectors)
      && (forall b :: b in drive.sectors ==> |drive.sectors[b]| == PER_BLOCK)
      && Stored(drive.sectors, inodes, data.held)
      && Sound(Contents(ListingOf(drive.sectors, inodes), numbers.Order(), 0))
      && forall n :: n in numbers.Order() ==> n !in inodes
    }

    /**
     * Every inode is what the cache makes of it, and no eviction loses one. An inode just created is cached clean, and
     * the table does not have it yet.
     */
    ghost predicate Shown(created: Option<nat>)
      reads this, cache, cache.slots, cache.disk
    {
      && cache.Valid() && Mirrors(cache.disk.sectors, cache.layout, cache.slots[..], inodes)
      && match created
         case None => Coherent(cache.disk.sectors, cache.layout, cache.slots[..])
         case Some(n) =>
           && n in inodes && CoherentBut(cache.disk.sectors, cache.layout, cache.slots[..], n)
           && SlotOf(cache.slots[..], n, 0) < CACHE_SIZE
    }

    ghost predicate Valid()
      reads Footprint()
      ensures Valid() ==> Consistent()
    {
      Consistent() && Shown(None)
    }

    /** The entries of every directory, the inode numbers in the order they will be handed out, and the free blocks. */
    ghost function State(): Contents
      requires Consistent()
      reads Footprint()
    {
      Contents(ListingOf(drive.sectors, inodes), numbers.Order(), data.bitmap.totalBits - data.bitmap.usedBits)
    }

    lemma StateSound()
      requires Consistent()
      ensures Sound(State())
    {
    }

    /**
     * A volume without inodes over a data allocator and an inode bitmap, as fs_data_init and fs_inode_init leave
     * them.
     */
    constructor (data: FsData.BlockAllocator, numbers: DiskBitmap.Bitmap, drive: Drive<seq<Entry>>, cache: Cache)
      requires data.bitmap != numbers && data.bitmap.block != numbers.block && data.bitmap.disk != numbers.disk
      requires (drive as object) != (data.bitmap.disk as object) && (drive as object) != (numbers.disk as object)
      requires (cache.disk as object) != (data.bitmap.disk as object)
        && (cache.disk as object) != (numbers.disk as object)
      requires (cache.disk as object) != (drive as object)
      requires (cache.slots as object) != (data.bitmap.block as object)
        && (cache.slots as object) != (numbers.block as object)
      requires data.Valid() && numbers.Valid() && cache.Valid() && numbers.totalBits <= cache.layout.count
      requires forall k :: 0 <= k < CACHE_SIZE ==> !cache.slots[k].valid
      requires forall b: nat :: b < data.bitmap.totalBits ==> b in drive.sectors
      requires forall b :: b in drive.sectors ==> |drive.sectors[b]| == PER_BLOCK
      ensures Valid() && this.data == data && this.numbers == numbers && this.drive == drive && this.cache == cache
      ensures inodes == map[]
    {
      this.data, this.numbers, this.drive, this.cache, inodes := data, numbers, drive, cache, map[];
      new;
      hide AllEntries, Sound, Stored, AllOnDisk, data.Valid, numbers.Valid, numbers.Order, SlotsValid, Logical;
      numbers.OrderDistinct();
      NothingStored(drive.sectors, data.held, numbers.Order());
    }

    // ----- inodes through the cache -----------------------------------------------------------

    /** fs_inode_get: the entry is the inode, and no inode changes. */
    method Look(n: nat, ghost created: Option<nat>) returns (slot: nat, icache: Icache)
      requires Consistent() && Shown(created) && n in inodes && (created.Some? ==> created.value == n)
      modifies cache`hand, cache.slots, cache.disk
      ensures Consistent() && State() == old(State())
      ensures Shown(created) && slot < CACHE_SIZE == cache.slots.Length && Caches(cache.slots[..], slot, n)
      ensures fresh(icache) && icache.inode == inodes[n] && !icache.dirty
    {
      hide SlotsValid, Logical, InodeCache.Coherent, CoherentBut, Held, Stored, Sound, AllOnDisk, data.Valid,
        numbers.Valid, numbers.Order;
      ghost var disk, slots := cache.disk.sectors, cache.slots[..];
      slot := cache.Get(n);
      icache := new Icache(cache.slots[slot].inode);
      if created.Some? {
        TouchKeeps(disk, cache.layout, slots, slot);
        IsHeld(cache.slots[..], slot, n);
      }
    }

    /** fs_inode_cache_add of an inode just created. */
    method Enter(n: nat, inode: Inode)
      requires Shown(None) && n < cache.layout.count && n !in inodes
      modifies this`inodes, cache`hand, cache.slots, cache.disk
      ensures inodes == old(inodes)[n := inode] && Shown(Some(n))
    {
      hide SlotsValid, Logical, InodeCache.Coherent, CoherentBut, Held, Evicted, Victim;
      NotHeld(cache.slots[..], n);
      var slot := cache.Add(inode, n);
      IsHeld(cache.slots[..], slot, n);
      inodes := inodes[n := inode];
    }

    /** What was done to an inode through its entry; where it changed, the entry is dirty. */
    method Keep(n: nat, slot: nat, icache: Icache, ghost created: Option<nat>)
      requires Shown(created) && n in inodes && (created.Some? ==> created.value == n)
      requires slot < CACHE_SIZE == cache.slots.Length && Caches(cache.slots[..], slot, n)
      requires !icache.dirty ==> icache.inode == inodes[n]
      modifies this`inodes, cache.slots
      ensures inodes == old(inodes)[n := icache.inode] && Shown(if icache.dirty then None else created)
    {
      hide SlotsValid, Logical, InodeCache.Coherent, CoherentBut, Held;
      if icache.dirty {
        cache.Update(slot, icache.inode);
      } else {
        assert inodes[n := icache.inode] == inodes;
      }
      inodes := inodes[n := icache.inode];
    }

    // ----- directories ------------------------------------------------------------------------

    /** fs_directory_create_root, with the bitmap_disk_set of fs_inode_init. */
    method CreateRoot()
      requires Valid() && inodes == map[] && numbers.blockIndex == 0 && State().blocks > 0
      requires forall bit: nat :: bit < numbers.totalBits ==> !BitmapModel.IsSet(numbers.Logical(), bit)
      modifies Footprint()
      ensures Valid() && State().listing == map[ROOT := Dots(ROOT, ROOT)] && State().blocks == old(State()).blocks - 1
      ensures |State().free| == numbers.totalBits - 1
      ensures forall k :: 0 <= k < numbers.totalBits - 1 ==> State().free[k] == k + 1
    {
      hide Added, CanPlace, BlocksTaken, Dots, Consistent, Shown, State, BitmapModel.IsSet;
      MakeRoot();
      DotsAdded(ROOT, ROOT);
      DotsPlaced(ROOT, State().blocks);
      var fault := Add(ROOT, Entry(ROOT, DIRECTORY, "."), Some(ROOT));
      fault := Add(ROOT, Entry(ROOT, DIRECTORY, ".."), None);
    }

    /** fs_inode_init's bitmap_disk_set of the root's number, and fs_inode_create_forced. */
    method MakeRoot()
      requires Valid() && inodes == map[] && numbers.blockIndex == 0
      requires forall bit: nat :: bit < numbers.totalBits ==> !BitmapModel.IsSet(numbers.Logical(), bit)
      modifies Footprint()
      ensures Consistent() && Shown(Some(ROOT))
      ensures State().listing == map[ROOT := []] && State().blocks == old(State()).blocks
      ensures |State().free| == numbers.totalBits - 1
      ensures forall k :: 0 <= k < numbers.totalBits - 1 ==> State().free[k] == k + 1
    {
      hide AllEntries, Stored, AllOnDisk, Sound, BitmapModel.IsSet, numbers.Valid, numbers.Order, numbers.Logical,
        data.Valid, Shown;
      SetRootBit(numbers);
      var inode := Inode(DIRECTORY, 0, 0, seq(DIRECT_BLOCKS, _ => FAILURE));
      OneMade(drive.sectors, inodes, ROOT, inode, data.held);
      NothingStored(drive.sectors, data.held, numbers.Order());
      MadeSound(map[], numbers.Order(), numbers.Order(), ROOT);
      Enter(ROOT, inode);
    }

    /**
     * fs_directory_entry_add on a directory. Where no place is left nothing changes. The first entry of a new directory
     * marks its inode dirty, so that it is not lost any more.
     */
    method Add(d: nat, entry: Entry, ghost created: Option<nat>) returns (fault: bool)
      requires Consistent() && Shown(created) && (created.Some? ==> created.value == d)
      requires d in State().listing && (created.Some? ==> State().listing[d] == [])
      requires entry.kind != ENTRY_FREE && entry.inode !in State().free
      modifies Footprint()
      ensures Consistent() && (!fault ==> Shown(None))
      ensures fault <==> !CanPlace(old(State()).listing[d], old(State()).blocks)
      ensures fault ==> State() == old(State())
      ensures !fault ==>
        && BlocksTaken(old(State()).listing[d]) <= old(State()).blocks
        && State() == Contents(old(State()).listing[d := Added(old(State()).listing[d], entry)], old(State()).free,
                               old(State()).blocks - BlocksTaken(old(State()).listing[d]))
    {
      hide AllEntries, Added, numbers.Valid, numbers.Order, BitmapModel.FreeOrder, BitmapModel.IsSet, BitmapModel.Count,
        DiskBitmap.Overlay, BitmapModel.BlocksValid, BitmapModel.Padded, Sound, OnDisk, OwnsBlocks, FirstFree, AllOwn,
        AllOnDisk, Shown;
      ghost var before, sectors, held := State(), drive.sectors, data.held;
      StateSound();
      StoredAt(sectors, inodes, held, d);
      var slot, icache := Look(d, created);
      fault := AddEntry(icache, data, drive, entry);
      SectorSizes(drive.sectors, icache.inode);
      OneChanged(sectors, drive.sectors, inodes, d, icache.inode, held, data.held);
      assert fault ==> ListingOf(drive.sectors, inodes[d := icache.inode]) == before.listing;
      AddSound(before, d, entry, 0);
      Keep(d, slot, icache, created);
    }

    /** fs_directory_entry_find on a directory; an inode that is none has no entries. */
    method FindIn(d: nat, name: string) returns (found: Option<Entry>)
      requires Valid()
      modifies cache`hand, cache.slots, cache.disk
      ensures Valid() && State() == old(State())
      ensures found == LookupIn(State().listing, d, name)
    {
      hide AllEntries, Lookup, Sound, OwnsBlocks, AllOwn, data.Valid, numbers.Valid, numbers.Order, Shown;
      if d !in inodes {
        return None;
      }
      var slot, icache := Look(d, None);
      if icache.inode.kind != DIRECTORY {
        return None;
      }
      assert IsDirectory(inodes, d);
      found := FindEntry(icache, drive, name);
    }

    /** fs_inode_create of a directory, which is not there when no inode is free. */
    method NewDirectory() returns (n: nat, ok: bool)
      requires Valid()
      modifies Footprint()
      ensures Consistent() && Shown(if ok then Some(n) else None) && data.held == old(data.held)
      ensures ok <==> old(State()).free != []
      ensures !ok ==> State() == old(State())
      ensures ok ==>
        && n == old(State()).free[0] && n !in old(State()).listing
        && State() == Contents(old(State()).listing[n := []], old(State()).free[1..], old(State()).blocks)
    {
      hide AllEntries, Stored, AllOnDisk, Sound, numbers.Valid, numbers.Order, numbers.Logical, data.Valid, Shown;
      ghost var before := State();
      numbers.OrderDistinct();
      n := numbers.Take();
      if n == DiskBitmap.FAILURE {
        return 0, false;
      }
      var inode := Inode(DIRECTORY, 0, 0, seq(DIRECT_BLOCKS, _ => FAILURE));
      OneMade(drive.sectors, inodes, n, inode, data.held);
      assert numbers.Order() == before.free[1..];
      MadeSound(before.listing, before.free, numbers.Order(), n);
      Enter(n, inode);
      ok := true;
    }

    /** fs_path_to_inode; None is FS_INODE_FAILURE. */
    method PathToInode(path: string, cwd: nat) returns (inode: Option<nat>)
      requires Valid() && '\0' !in path
      modifies cache`hand, cache.slots, cache.disk
      ensures Valid() && State() == old(State())
      ensures inode == PathInode(Graph(State()), path, cwd)
    {
      hide Walk, Split, Valid, Consistent, Shown, State, DirsOf, Lookup;
      ghost var before := State();
      ghost var dirs := Graph(before);
      StateUnnamed();
      WalkNothing(dirs, cwd);
      if |path| == 0 {
        SplitStep("", "");
        return Some(cwd);
      }
      var current, pathIndex, segment := cwd, 0, "";
      if path[0] == '/' {
        current := ROOT;
        pathIndex := 1;
      }
      assert path[0..] == path;
      while true
        invariant Valid() && State() == before && pathIndex <= |path|
        invariant segment == "" && pathIndex > 0 ==> path[pathIndex - 1] == '/'
        invariant segment == "" && pathIndex == 0 ==> path[0] != '/'
        invariant Walk(dirs, current, UpToEmpty(Split(segment, path[pathIndex..]))) == PathInode(dirs, path, cwd)
        decreases |path| - pathIndex
      {
        SplitStep(segment, path[pathIndex..]);
        if pathIndex < |path| && path[pathIndex] != '/' {
          assert path[pathIndex..][1..] == path[pathIndex + 1..];
          segment := segment + [path[pathIndex]];
          pathIndex := pathIndex + 1;
          continue;
        }
        WalkNothing(dirs, current);
        if |segment| == 0 {
          assert path[pathIndex - 1] == '/';
          return Some(current);
        }
        WalkOne(dirs, current, segment, UpToEmpty(Split(segment, path[pathIndex..])[1..]));
        FindIsLookup(before.listing, current, segment);
        var entry := FindIn(current, segment);
        if entry.None? {
          return None;
        }
        current := entry.value.inode;
        WalkNothing(dirs, current);
        if pathIndex == |path| {
          return Some(current);
        }
        assert path[pathIndex..][1..] == path[pathIndex + 1..];
        segment := "";
        pathIndex := pathIndex + 1;
      }
    }

    lemma BlocksFree()
      requires Consistent()
      ensures State().blocks == data.bitmap.totalBits - data.bitmap.usedBits
    {
    }

    lemma StateUnnamed()
      requires Consistent()
      ensures FreesUnnamed(State().listing)
    {
    }

    lemma StateDirectories(d: nat)
      requires Consistent()
      ensures d in State().listing <==> d in inodes && inodes[d].kind == DIRECTORY
    {
    }

    /** fs_inode_create of a directory, and its two dots. */
    method MakeDotted(parent: nat) returns (n: nat, fault: bool)
      requires Valid() && parent in State().listing
      modifies Footprint()
      ensures Consistent() && (!fault ==> Valid())
      ensures fault <==> old(State()).free == [] || old(State()).blocks == 0
      ensures fault ==> ListingKept(old(State()), State())
      ensures !fault ==>
        && n == old(State()).free[0] && n !in old(State()).listing
        && State() == Contents(old(State()).listing[n := Dots(n, parent)], old(State()).free[1..],
                               old(State()).blocks - 1)
    {
      hide Consistent, Shown, State, Added, CanPlace, BlocksTaken, Dots, ListingKept;
      ghost var before := State();
      KeptSelf(before);
      StateSound();
      SoundNumbers(before, parent);
      var ok;
      n, ok := NewDirectory();
      if !ok {
        return n, true;
      }
      DotsAdded(n, parent);
      DotsPlaced(n, before.blocks);
      fault := Add(n, Entry(n, DIRECTORY, "."), Some(n));
      NewcomerKeeps(before, State(), n, State().listing[n]);
      if fault {
        return;
      }
      fault := Add(n, Entry(parent, DIRECTORY, ".."), None);
    }

    /**
     * The end of fs_directory_create: a new inode, its dots, and its entry in the parent. It breaks off with a fault
     * where something it needs is missing, which the code does not check; what was listed before is then listed as
     * before.
     */
    method MakeChild(parent: nat, name: string) returns (fault: bool)
      requires Valid() && LookupIn(State().listing, parent, name).None?
      modifies Footprint()
      ensures Consistent() && (!fault ==> Valid())
      ensures fault ==> ListingKept(old(State()), State())
      ensures fault <==> !CanCreate(old(State()), parent, name)
      ensures !fault ==> State() == AfterCreate(old(State()), parent, name)
    {
      hide Consistent, Shown, State, Lookup, Added, CanPlace, BlocksTaken, Dots, ListingKept, AfterCreate;
      ghost var before := State();
      KeptSelf(before);
      StateSound();
      StateDirectories(parent);
      if parent !in inodes || inodes[parent].kind != DIRECTORY {
        return true;
      }
      var n;
      n, fault := MakeDotted(parent);
      if fault {
        return;
      }
      ghost var dotted := State();
      SoundNumbers(before, parent);
      NewcomerKeeps(before, dotted, n, Dots(n, parent));
      var entry;
      entry, fault := CreateEntry(n, DIRECTORY, name);
      if fault {
        return;
      }
      fault := Add(parent, entry, None);
      if !fault { ChildMade(before, dotted, parent, name, n); }
    }

    /**
     * fs_directory_create. It does to the volume exactly what Create says, the fault included; where it breaks off,
     * every directory there was is as it was.
     */
    method CreateDirectory(path: string, cwd: nat) returns (status: nat, fault: bool)
      requires Valid() && '\0' !in path
      modifies Footprint()
      ensures Consistent() && (!fault ==> Valid())
      ensures fault <==> Create(old(State()), path, cwd) == MadeFault
      ensures !fault ==> Made(status, State()) == Create(old(State()), path, cwd)
      ensures fault ==> ListingKept(old(State()), State())
    {
      hide PathInode, ParentText, NameText, Graph, Valid, Consistent, Shown, State, Lookup, CanCreate, AfterCreate;
      var parentPath, name;
      status := 0;
      parentPath, fault := ParentAt(path, 0);
      if fault {
        return;
      }
      var parent := PathToInode(parentPath, cwd);
      if parent.None? || parent.value == NONE {
        return;
      }
      name, fault := NameOf(path);
      if fault {
        return;
      }
      var entry := FindIn(parent.value, name);
      if entry.Some? {
        return ENTRY_EXISTS, false;
      }
      fault := MakeChild(parent.value, name);
      status := 1;
    }

    /**
     * After a directory is made, any inodes may be looked up. Every one, those just made or changed too, is then
     * found as it was left, evicted and read back meanwhile or not.
     */
    method CreateThenLook(path: string, cwd: nat, others: seq<nat>, n: nat)
      returns (status: nat, fault: bool, found: Option<Inode>)
      requires Valid() && '\0' !in path
      modifies Footprint()
      ensures fault <==> Create(old(State()), path, cwd) == MadeFault
      ensures !fault ==> Valid() && Made(status, State()) == Create(old(State()), path, cwd)
      ensures !fault && n in inodes ==> found == Some(inodes[n])
    {
      hide Consistent, Shown, State, Create;
      found := None;
      status, fault := CreateDirectory(path, cwd);
      if fault {
        return;
      }
      ghost var made := State();
      for k := 0 to |others|
        invariant Valid() && State() == made
      {
        if others[k] in inodes {
          var slot, icache := Look(others[k], None);
        }
      }
      if n in inodes {
        var slot, icache := Look(n, None);
        found := Some(icache.inode);
      }
    }
  }

  ghost function Disks(dataDisk: Drive<BitmapModel.Block>, numberDisk: Drive<BitmapModel.Block>,
                       drive: Drive<seq<Entry>>, table: Drive<Sector>): set<object>
  {
    {dataDisk as object, numberDisk as object, drive as object, table as object}
  }

  /** A volume made anew, with both bitmaps, the inode cache and the root directory. */
  method NewVolume(dataDisk: Drive<BitmapModel.Block>, numberDisk: Drive<BitmapModel.Block>, drive: Drive<seq<Entry>>,
                   table: Drive<Sector>, layout: Layout, blockCount: nat, inodeCount: nat) returns (volume: Volume)
    requires blockCount > 0 && blockCount % 8 == 0 && blockCount + BitmapModel.BLOCK_BITS < FAILURE
    requires inodeCount > 0 && inodeCount % 8 == 0 && inodeCount + BitmapModel.BLOCK_BITS < FAILURE
    requires dataDisk != numberDisk && (drive as object) != (dataDisk as object)
      && (drive as object) != (numberDisk as object)
    requires forall b: nat :: b < blockCount ==> b in drive.sectors
    requires forall b :: b in drive.sectors ==> |drive.sectors[b]| == PER_BLOCK
    requires TableValid(table.sectors, layout) && inodeCount <= layout.count
    requires (table as object) !in {dataDisk as object, numberDisk as object, drive as object}
    modifies Disks(dataDisk, numberDisk, drive, table)
    ensures volume.Valid() && fresh(volume.Footprint() - Disks(dataDisk, numberDisk, drive, table))
    ensures volume.State().listing == map[ROOT := Dots(ROOT, ROOT)] && volume.State().blocks == blockCount - 1
    ensures |volume.State().free| == inodeCount - 1
    ensures forall k :: 0 <= k < inodeCount - 1 ==> volume.State().free[k] == k + 1
  {
    volume := EmptyVolume(dataDisk, numberDisk, drive, table, layout, blockCount, inodeCount);
    hide Dots, Disks, BitmapModel.IsSet, volume.Valid, volume.Consistent, volume.Shown, volume.State, volume.Footprint;
    volume.CreateRoot();
  }

  /** fs_data_init, fs_inode_init and fs_inode_load, up to the root's number. */
  method EmptyVolume(dataDisk: Drive<BitmapModel.Block>, numberDisk: Drive<BitmapModel.Block>, drive: Drive<seq<Entry>>,
                     table: Drive<Sector>, layout: Layout, blockCount: nat, inodeCount: nat) returns (volume: Volume)
    requires blockCount > 0 && blockCount % 8 == 0 && blockCount + BitmapModel.BLOCK_BITS < FAILURE
    requires inodeCount > 0 && inodeCount % 8 == 0 && inodeCount + BitmapModel.BLOCK_BITS < FAILURE
    requires dataDisk != numberDisk && (drive as object) != (dataDisk as object)
      && (drive as object) != (numberDisk as object)
    requires forall b: nat :: b < blockCount ==> b in drive.sectors
    requires forall b :: b in drive.sectors ==> |drive.sectors[b]| == PER_BLOCK
    requires TableValid(table.sectors, layout) && inodeCount <= layout.count
    requires (table as object) !in {dataDisk as object, numberDisk as object, drive as object}
    modifies Disks(dataDisk, numberDisk, drive, table)
    ensures volume.Valid() && fresh(volume.Footprint() - Disks(dataDisk, numberDisk, drive, table))
    ensures volume.inodes == map[] && volume.State().blocks == blockCount
    ensures volume.numbers.totalBits == inodeCount && volume.numbers.blockIndex == 0
    ensures forall bit: nat :: bit < inodeCount ==> !BitmapModel.IsSet(volume.numbers.Logical(), bit)
  {
    hide Dots, BitmapModel.IsSet, Sound, Stored;
    var data, numbers := NewBitmaps(dataDisk, numberDisk, blockCount, inodeCount);
    hide data.Valid, data.Exact, numbers.Valid, numbers.Logical, numbers.Order;
    var cache := new Cache(table, layout, Inode(0, 0, 0, []));
    hide cache.Valid, Logical, Record, InodeCache.Coherent;
    volume := new Volume(data, numbers, drive, cache);
    hide volume.Valid, volume.Consistent, volume.Shown, volume.State;
    volume.BlocksFree();
  }

  /** fs_data_init and fs_inode_init, up to the root's number. */
  method NewBitmaps(dataDisk: Drive<BitmapModel.Block>, numberDisk: Drive<BitmapModel.Block>, blockCount: nat,
                    inodeCount: nat)
    returns (data: FsData.BlockAllocator, numbers: DiskBitmap.Bitmap)
    requires blockCount > 0 && blockCount % 8 == 0 && blockCount + BitmapModel.BLOCK_BITS < FAILURE
    requires inodeCount > 0 && inodeCount % 8 == 0 && inodeCount + BitmapModel.BLOCK_BITS < FAILURE
    requires dataDisk != numberDisk
    modifies dataDisk, numberDisk
    ensures fresh(data) && fresh(data.bitmap) && fresh(data.bitmap.block) && fresh(numbers) && fresh(numbers.block)
    ensures data.bitmap.disk == dataDisk && numbers.disk == numberDisk
    ensures data.bitmap != numbers && data.bitmap.block != numbers.block
    ensures data.Valid() && data.bitmap.totalBits == blockCount && data.bitmap.usedBits == 0
    ensures numbers.Valid() && numbers.totalBits == inodeCount && numbers.blockIndex == 0
    ensures forall bit: nat :: bit < inodeCount ==> !BitmapModel.IsSet(numbers.Logical(), bit)
  {
    data := new FsData.BlockAllocator(dataDisk, 0, blockCount);
    hide data.Valid, data.Exact, BitmapModel.IsSet, BitmapModel.Count, DiskBitmap.Overlay;
    numbers := new DiskBitmap.Bitmap(numberDisk, 0, inodeCount);
  }

  /** With the root's number taken, the free numbers start at 1. */
  lemma RootTaken(clear: BitmapModel.Blocks, blocks: BitmapModel.Blocks, total: nat)
    requires total > 0 && forall bit: nat :: bit < total ==> !BitmapModel.IsSet(clear, bit)
    requires BitmapModel.IsSet(blocks, ROOT) && BitmapModel.AgreeExcept(clear, blocks, ROOT, total)
    ensures var free := BitmapModel.FreeOrder(blocks, 0, total);
      |free| == total - 1 && forall k :: 0 <= k < total - 1 ==> free[k] == k + 1
    ensures BitmapModel.Count(blocks, total) == 1
  {
    hide BitmapModel.FreeOrder, BitmapModel.IsSet;
    FsData.FreshOrder(clear, total);
    assert BitmapModel.PassedSet(clear, 0, total, ROOT);
    BitmapModel.FreeOrderStep(clear, blocks, 0, total, ROOT);
    DiskBitmap.NoneSet(clear, total);
    BitmapModel.CountFlip(clear, blocks, ROOT, total);
  }

  /** The bitmap_disk_set of fs_inode_init: the root's number is used, and all the others are free. */
  method SetRootBit(numbers: DiskBitmap.Bitmap)
    requires numbers.Valid() && numbers.blockIndex == 0
    requires forall bit: nat :: bit < numbers.totalBits ==> !BitmapModel.IsSet(numbers.Logical(), bit)
    modifies numbers`dirty, numbers`blockIndex, numbers`usedBits, numbers.block, numbers.disk
    ensures numbers.Valid() && numbers.blockIndex == 0 && numbers.totalBits > ROOT
    ensures |numbers.Order()| == numbers.totalBits - 1
    ensures forall k :: 0 <= k < numbers.totalBits - 1 ==> numbers.Order()[k] == k + 1
  {
    hide BitmapModel.FreeOrder, BitmapModel.IsSet, BitmapModel.BitAt, BitmapModel.Count, DiskBitmap.Overlay,
      BitmapModel.BlocksValid;
    ghost var clear := numbers.Logical();
    DiskBitmap.NoneSet(clear, numbers.totalBits);
    numbers.OffsetLoaded(ROOT);
    numbers.Set(ROOT);
    RootTaken(clear, numbers.Logical(), numbers.totalBits);
  }

  lemma DotsPlaced(n: nat, blocks: nat)
    ensures blocks > 0 ==> CanPlace([], blocks)
    ensures BlocksTaken([]) == 1
    ensures forall left: nat :: CanPlace(Added([], Entry(n, DIRECTORY, ".")), left)
    ensures BlocksTaken(Added([], Entry(n, DIRECTORY, "."))) == 0
  {
  }

  lemma WalkNothing(dirs: Dirs, from: nat)
    ensures Walk(dirs, from, []) == Some(from)
  {
  }

  lemma WalkOne(dirs: Dirs, from: nat, seg: string, rest: seq<string>)
    ensures Walk(dirs, from, [seg] + rest) ==
      match Find(dirs, from, seg) case None => None case Some(next) => Walk(dirs, next, rest)
  {
    assert ([seg] + rest)[1..] == rest;
  }

  /** Whatever a number without a directory comes to list, the directories there are stay as they are. */
  lemma NewcomerKeeps(c: Contents, c': Contents, n: nat, entries: seq<Entry>)
    requires n !in c.listing && c'.listing == c.listing[n := entries]
    ensures ListingKept(c, c')
  {
  }

  /** The dots first and the parent's entry last, or the other way round. */
  lemma ChildMade(c: Contents, dotted: Contents, parent: nat, name: string, n: nat)
    requires CanCreate(c, parent, name) && n == c.free[0] && n != parent
    requires dotted == Contents(c.listing[n := Dots(n, parent)], c.free[1..], c.blocks - 1)
    ensures var entries := dotted.listing[parent];
      && BlocksTaken(entries) <= dotted.blocks
      && Contents(dotted.listing[parent := Added(entries, Entry(n, DIRECTORY, name))], dotted.free,
                  dotted.blocks - BlocksTaken(entries)) == AfterCreate(c, parent, name)
  {
    hide Added, BlocksTaken, Dots;
  }

  lemma KeptSelf(c: Contents)
    ensures ListingKept(c, c)
  {
  }

  lemma SoundNumbers(c: Contents, parent: nat)
    requires Sound(c) && parent in c.listing
    ensures parent !in c.free && forall n :: n in c.free ==> n !in c.listing
    ensures c.free != [] ==> c.free[0] !in c.free[1..]
  {
  }
}
