/** The virtual memory manager of os/mm/vmm.c over the frame allocator of os/mm/pmm.c. */
module Vmm {
  import opened Common
  import opened Bits
  import opened RadixTree
  import opened PageTables
  import Pmm

  const PHYSMAP_OFFSET: nat := 0xFFFF_8000_0000_0000
  const IDENTITYMAP_END: nat := 0x100_0000
  const IDENTITY_PAGES: nat := 0x1000

  /** vmm_physical_to_virtual */
  function PhysicalToVirtual(initMode: bool, physical: nat): nat {
    if initMode then physical
    else if physical < IDENTITYMAP_END then physical
    else (physical + PHYSMAP_OFFSET - IDENTITYMAP_END) % UINT64
  }

  /** The frame an address lies in, as far as 52 bits go. */
  function FrameOf(physical: nat): nat {
    0x1000 * (physical / 0x1000 % 0x100_0000_0000)
  }

  // ----- the tables and the allocator together ------------------------------------------------

  ghost predicate FramesPresent(mem: Memory, frames: nat) {
    forall f: nat :: 0 < f < frames ==> f * PAGE_SIZE in mem
  }

  /** Every table sits in a frame that the allocator's bitmap shows as taken. */
  ghost predicate TablesMarked(labels: Labels, words: seq<nat>) {
    forall t :: t in labels ==>
      && t % PAGE_SIZE == 0 && 0 < t / PAGE_SIZE < 32 * |words|
      && Pmm.Marked(words, t / PAGE_SIZE)
  }

  /** Every entry of every table is zero, or a frame present and writable and nothing else. */
  ghost predicate TablesStored(mem: Memory, labels: Labels) {
    forall t, i: nat :: t in labels && i < ENTRY_COUNT ==> Stored(Entry(mem, t, i))
  }

  ghost predicate TablesValid(mem: Memory, root: nat, labels: Labels, words: seq<nat>) {
    && MemoryValid(mem)
    && FramesPresent(mem, 32 * |words|)
    && WellLabelled(Decode(mem), root, labels)
    && TablesMarked(labels, words)
    && TablesStored(mem, labels)
  }

  ghost predicate SameWalks(mem: Memory, mem': Memory, root: nat) {
    forall page: nat :: page < PAGE_COUNT ==> HardwareWalk(mem', root, 4, page) == HardwareWalk(mem, root, 4, page)
  }

  /** memset of the new block to zero, then the parent's entry pointed at it. */
  function LinkBlock(mem: Memory, table: nat, i: nat, block: nat): Memory
    requires table in mem && i < |mem[table]| && block != table
  {
    StoreEntry(mem[block := ZeroTable()], table, i, LinkEntry(mem[table][i], block))
  }

  ghost predicate CanLinkBlock(mem: Memory, root: nat, labels: Labels, words: seq<nat>, table: nat, i: nat,
                               block: nat)
  {
    && TablesValid(mem, root, labels, words)
    && Pmm.WordsValid(words) && 32 * |words| <= Pmm.FRAME_LIMIT
    && table in labels && labels[table].level >= 2 && i < ENTRY_COUNT
    && !Present(Entry(mem, table, i))
    && block % PAGE_SIZE == 0 && 0 < block / PAGE_SIZE < 32 * |words|
    && !Pmm.Marked(words, block / PAGE_SIZE)
  }

  lemma LinkBlockDecodes(mem: Memory, root: nat, labels: Labels, words: seq<nat>, table: nat, i: nat, block: nat)
    requires CanLinkBlock(mem, root, labels, words, table, i, block)
    ensures CanLink(Decode(mem), root, labels, table, i, block)
    ensures table in mem && block in mem && |mem[table]| == ENTRY_COUNT && block != table
    ensures MemoryValid(LinkBlock(mem, table, i, block))
    ensures Decode(LinkBlock(mem, table, i, block)) == LinkTable(Decode(mem), table, i, block)
    ensures Entry(LinkBlock(mem, table, i, block), table, i) == LinkEntry(mem[table][i], block)
    ensures GetAddress(LinkEntry(mem[table][i], block)) == block
  {
    assert block == block / PAGE_SIZE * PAGE_SIZE;
    assert table in Decode(mem);
    assert Next(Decode(mem), table, i) == DecodeEntry(mem[table][i]);
    LinkEntryEffect(mem[table][i], block);
    AlignedAddressFits(block);
    ZeroDecodes(mem, block);
    StoreDecodes(mem[block := ZeroTable()], table, i, LinkEntry(mem[table][i], block), block);
  }

  lemma StoreKeepsStored(mem: Memory, labels: Labels, table: nat, i: nat, entry: nat)
    requires TablesStored(mem, labels) && table in mem && i < |mem[table]| && Stored(entry)
    ensures TablesStored(StoreEntry(mem, table, i, entry), labels)
  {
    forall t, j: nat | t in labels && j < ENTRY_COUNT ensures Stored(Entry(StoreEntry(mem, table, i, entry), t, j)) {
      StoredEntry(mem, table, i, entry, t, j);
    }
  }

  lemma LinkKeepsStored(mem: Memory, labels: Labels, table: nat, i: nat, block: nat, l: Label)
    requires TablesStored(mem, labels) && MemoryValid(mem) && table in labels
    requires table in mem && i < ENTRY_COUNT == |mem[table]| && block != table && !Present(mem[table][i])
    ensures TablesStored(LinkBlock(mem, table, i, block), labels[block := l])
  {
    hide Stored, LinkEntry;
    var zeroed := mem[block := ZeroTable()];
    assert Stored(Entry(mem, table, i));
    EntriesStored(mem[table][i], block);
    forall t, j: nat | t in labels[block := l] && j < ENTRY_COUNT ensures Stored(Entry(zeroed, t, j)) {
      if t != block { assert Entry(zeroed, t, j) == Entry(mem, t, j); }
    }
    StoreKeepsStored(zeroed, labels[block := l], table, i, LinkEntry(mem[table][i], block));
  }

  /** No entry of a table has a bit set but P, R/W and its frame's: none maps a large page or forbids execution. */
  lemma OnlyFrameAndFlags(mem: Memory, root: nat, labels: Labels, words: seq<nat>, t: nat, i: nat, k: nat)
    requires TablesValid(mem, root, labels, words) && t in labels && i < ENTRY_COUNT
    ensures Bit(Entry(mem, t, i), k) ==> k == 0 || k == 1 || 12 <= k < 52
  {
    assert Stored(Entry(mem, t, i));
    if Entry(mem, t, i) == 0 { ZeroBit(k); } else { StoredBits(Entry(mem, t, i), k); }
  }

  lemma TableAt(mem: Memory, root: nat, labels: Labels, words: seq<nat>, t: nat, i: nat)
    requires TablesValid(mem, root, labels, words) && t in labels && i < ENTRY_COUNT
    ensures t in mem && |mem[t]| == 512 && mem[t][i] < UINT64 && Stored(mem[t][i]) && Entry(mem, t, i) == mem[t][i]
  {
    assert t in Decode(mem) && Stored(Entry(mem, t, i));
  }

  /** Linking stores the block's address with both flags in that one entry. */
  lemma LinkedEntry(mem: Memory, root: nat, labels: Labels, words: seq<nat>, table: nat, i: nat, block: nat)
    requires CanLinkBlock(mem, root, labels, words, table, i, block)
    ensures table in mem && |mem[table]| == 512 && block != table
    ensures LinkBlock(mem, table, i, block) == StoreEntry(mem[block := ZeroTable()], table, i, block + 3)
  {
    LinkBlockDecodes(mem, root, labels, words, table, i, block);
    assert Stored(Entry(mem, table, i));
    EntriesStored(mem[table][i], block);
    assert block == block / PAGE_SIZE * PAGE_SIZE;
    AlignedAddressFits(block);
  }

  /** All entries a walk meets allow writing. */
  predicate WalkWritable(mem: Memory, table: nat, level: nat, page: nat)
    requires 1 <= level <= 4
    decreases level
  {
    var e := Entry(mem, table, IndexAt(level, page));
    Present(e) ==> And(e, READ_WRITE) != 0 && (level == 1 || WalkWritable(mem, GetAddress(e), level - 1, page))
  }

  /** Every page that is mapped is mapped writable on all four levels. */
  lemma {:induction false} MappedWritable(mem: Memory, root: nat, labels: Labels, words: seq<nat>, t: nat, level: nat,
                                          page: nat)
    requires TablesValid(mem, root, labels, words) && 1 <= level <= 4
    requires t in labels && labels[t].level == level
    ensures WalkWritable(mem, t, level, page)
    decreases level
  {
    hide IndexAt, GetAddress;
    var i := IndexAt(level, page);
    var e := Entry(mem, t, i);
    assert Stored(e);
    StoredPresent(e);
    if Present(e) && level > 1 {
      assert t in Decode(mem) && EntryLabelled(Decode(mem), labels, t, i);
      assert Next(Decode(mem), t, i) == DecodeEntry(e);
      MappedWritable(mem, root, labels, words, GetAddress(e), level - 1, page);
    }
  }

  /** A block the bitmap shows as free is in no table; linked and marked, it joins them and no page's walk changes. */
  lemma LinkBlockKeeps(mem: Memory, root: nat, labels: Labels, words: seq<nat>, table: nat, i: nat, block: nat)
    requires CanLinkBlock(mem, root, labels, words, table, i, block)
    ensures block !in labels
    ensures table in mem && |mem[table]| == ENTRY_COUNT && block != table
    ensures TablesValid(LinkBlock(mem, table, i, block), root, labels[block := ChildLabel(labels[table], i)],
                        Pmm.MarkFrame(words, block / PAGE_SIZE))
    ensures SameWalks(mem, LinkBlock(mem, table, i, block), root)
  {
    hide HardwareWalk, Present, Stored, LinkEntry;
    LinkBlockDecodes(mem, root, labels, words, table, i, block);
    TableAt(mem, root, labels, words, table, i);
    LinkKeepsStored(mem, labels, table, i, block, ChildLabel(labels[table], i));
    LinkKeepsLabels(Decode(mem), root, labels, table, i, block);
    Pmm.MarkFrameMarks(words, block / PAGE_SIZE);
    forall page: nat | page < PAGE_COUNT
      ensures HardwareWalk(LinkBlock(mem, table, i, block), root, 4, page) == HardwareWalk(mem, root, 4, page)
    {
      LinkKeepsWalks(Decode(mem), root, labels, table, i, block, root, 4, page);
      WalkDecodes(mem, root, 4, page);
      WalkDecodes(LinkBlock(mem, table, i, block), root, 4, page);
    }
  }

  ghost predicate MapsOnly(mem: Memory, mem': Memory, root: nat, page: nat, target: nat) {
    && HardwareWalk(mem', root, 4, page) == Some(target)
    && (forall q: nat :: q < PAGE_COUNT && q != page ==>
        HardwareWalk(mem', root, 4, q) == HardwareWalk(mem, root, 4, q))
  }

  /** Writing the level 1 entry of a page maps that page and changes no other walk. */
  lemma StoreLeafMaps(mem: Memory, root: nat, labels: Labels, words: seq<nat>, table: nat, page: nat, entry: nat)
    requires TablesValid(mem, root, labels, words) && page < PAGE_COUNT
    requires table in labels && labels[table] == LabelFor(1, page)
    requires entry != 0 && Stored(entry)
    ensures table in mem && |mem[table]| == ENTRY_COUNT
    ensures TablesValid(StoreEntry(mem, table, IndexAt(1, page), entry), root, labels, words)
    ensures MapsOnly(mem, StoreEntry(mem, table, IndexAt(1, page), entry), root, page, GetAddress(entry))
  {
    var i := IndexAt(1, page);
    assert table in Decode(mem);
    var mem' := StoreEntry(mem, table, i, entry);
    StoredPresent(entry);
    StoreDecodes(mem, table, i, entry, GetAddress(entry));
    StoreKeepsStored(mem, labels, table, i, entry);
    LeafKeepsLabels(Decode(mem), root, labels, table, i, GetAddress(entry));
    RootServesPage(page);
    forall q: nat | q < PAGE_COUNT && q != page
      ensures HardwareWalk(mem', root, 4, q) == HardwareWalk(mem, root, 4, q)
    {
      RootServesPage(q);
      LeafWalk(Decode(mem), root, labels, table, GetAddress(entry), page, root, 4, q);
      WalkDecodes(mem, root, 4, q);
      WalkDecodes(mem', root, 4, q);
    }
    WalkReachesLeaf(Decode(mem'), root, labels, table, page, root, 4);
    WalkDecodes(mem', root, 4, page);
  }

  // ----- counting tables ----------------------------------------------------------------------

  /** The labels of the three tables a page needs below the PML4. */
  function PathLabels(page: nat): set<Label> {
    {LabelFor(3, page), LabelFor(2, page), LabelFor(1, page)}
  }

  function One(b: bool): nat {
    if b then 1 else 0
  }

  /** How many of those tables are still to be allocated. */
  function Missing(tables: set<Label>, page: nat): nat {
    One(LabelFor(3, page) !in tables) + One(LabelFor(2, page) !in tables) + One(LabelFor(1, page) !in tables)
  }

  /** The labels that have a table. */
  ghost function InUse(labels: Labels): set<Label> {
    labels.Values
  }

  /** Tables stay where they are, and new ones lie in frames below the limit. */
  ghost predicate Grown(labels: Labels, labels': Labels, limit: nat) {
    && (forall t :: t in labels ==> t in labels' && labels'[t] == labels[t])
    && (forall t :: t in labels' ==> t in labels || t / PAGE_SIZE < limit)
  }

  lemma GrownByOne(labels: Labels, block: nat, l: Label, limit: nat)
    requires block !in labels && block / PAGE_SIZE < limit
    ensures Grown(labels, labels[block := l], limit)
    ensures InUse(labels[block := l]) == InUse(labels) + {l}
    ensures |labels[block := l]| == |labels| + 1
  {
    LabelsAdd(labels, block, l);
  }

  /** A zeroed block taken from the allocator is a well-formed PML4 with no tables below it. */
  lemma FreshRoot(mem: Memory, words: seq<nat>, block: nat)
    requires MemoryValid(mem) && FramesPresent(mem, 32 * |words|) && Pmm.WordsValid(words)
    requires block % PAGE_SIZE == 0 && 0 < block / PAGE_SIZE < 32 * |words|
    ensures TablesValid(mem[block := ZeroTable()], block, map[block := Label(4, 0)],
      Pmm.MarkFrame(words, block / PAGE_SIZE))
    ensures InUse(map[block := Label(4, 0)]) == {Label(4, 0)}
  {
    var labels: Labels := map[block := Label(4, 0)];
    ZeroDecodes(mem, block);
    EntriesStored(0, 0);
    Pmm.MarkFrameMarks(words, block / PAGE_SIZE);
    assert labels[block] in labels.Values;
    assert Pmm.Marked(Pmm.MarkFrame(words, block / PAGE_SIZE), block / PAGE_SIZE);
    assert block / PAGE_SIZE * PAGE_SIZE in mem;
  }

  lemma SameWalksRefl(mem: Memory, root: nat)
    ensures SameWalks(mem, mem, root)
  {
  }

  lemma SameWalksTwice(m0: Memory, m1: Memory, m2: Memory, root: nat)
    requires SameWalks(m0, m1, root) && SameWalks(m1, m2, root)
    ensures SameWalks(m0, m2, root)
  {
  }

  lemma MapsOnlyAfter(m0: Memory, m1: Memory, m2: Memory, root: nat, page: nat, target: nat)
    requires SameWalks(m0, m1, root) && MapsOnly(m1, m2, root, page, target)
    ensures MapsOnly(m0, m2, root, page, target)
  {
  }

  lemma RootOfPage(virtual: nat)
    ensures PageOf(virtual) < PAGE_COUNT && LabelFor(4, PageOf(virtual)) == Label(4, 0)
  {
    RootServesPage(PageOf(virtual));
  }

  lemma GrownTwice(l0: Labels, l1: Labels, l2: Labels, limit: nat)
    requires Grown(l0, l1, limit) && Grown(l1, l2, limit)
    ensures Grown(l0, l2, limit)
  {
  }

  /** The labels of a page are on different levels, so allocating one does not supply another. */
  lemma MissingInSteps(tables: set<Label>, page: nat)
    ensures One(LabelFor(2, page) !in tables + {LabelFor(3, page)}) == One(LabelFor(2, page) !in tables)
    ensures One(LabelFor(1, page) !in tables + {LabelFor(3, page)} + {LabelFor(2, page)}) ==
      One(LabelFor(1, page) !in tables)
  {
  }

  class AddressSpace {
    var mem: Memory
    const pmm: Pmm.FrameAllocator
    var cr3: nat
    var initMode: bool
    ghost var root: nat
    ghost var labels: Labels

    constructor (mem: Memory, pmm: Pmm.FrameAllocator)
      ensures this.mem == mem && this.pmm == pmm
    {
      this.mem, this.pmm, this.initMode := mem, pmm, true;
    }

    /** Memory and allocator are sound; no page tables need exist yet. */
    ghost predicate Ready()
      reads this, pmm, pmm.memoryMap
    {
      && pmm.Valid()
      && MemoryValid(mem)
      && FramesPresent(mem, 32 * pmm.memoryMap.Length)
    }

    ghost predicate Valid()
      reads this, pmm, pmm.memoryMap
    {
      pmm.Valid() && TablesValid(mem, root, labels, pmm.memoryMap[..])
    }

    /** A zeroed block linked from an absent entry; 0 when no block is left. */
    method AllocateTable(table: nat, index: nat, ghost level: nat, ghost page: nat) returns (block: nat)
      requires Valid() && 2 <= level <= 4
      requires table in labels && labels[table] == LabelFor(level, page) && index == IndexAt(level, page)
      requires !Present(Entry(mem, table, index))
      modifies this`mem, this`labels, pmm`usedBlocks, pmm.memoryMap
      ensures Valid() && SameWalks(old(mem), mem, root)
      ensures block == 0 <==> old(pmm.Supply()) == 0
      ensures block == 0 ==> mem == old(mem) && labels == old(labels) && pmm.Supply() == 0
      ensures block != 0 ==>
        && block !in old(labels) && labels == old(labels)[block := LabelFor(level - 1, page)]
        && block / PAGE_SIZE < pmm.SearchLimit()
        && pmm.Supply() == old(pmm.Supply()) - 1
        && block != table && table in old(mem) && index < |old(mem)[table]|
        && mem == StoreEntry(old(mem)[block := ZeroTable()], table, index, block + 3)
    {
      hide HardwareWalk, SameWalks, Present, Pmm.SupplyOf, IndexAt, WellLabelled;
      ghost var words := pmm.memoryMap[..];
      SameWalksRefl(mem, root);
      block := pmm.AllocBlock();
      if block != 0 {
        LinkBlockKeeps(mem, root, labels, words, table, index, block);
        LinkedEntry(mem, root, labels, words, table, index, block);
        ChildServesPage(level, page);
        mem := LinkBlock(mem, table, index, block);
        labels := labels[block := LabelFor(level - 1, page)];
        assert TablesValid(mem, root, labels, pmm.memoryMap[..]);
      }
    }

    /** One of the three allocate-if-absent steps of vmm_map_page. 0 stands for its return of false. */
    method Descend(table: nat, index: nat, ghost level: nat, ghost page: nat) returns (child: nat)
      requires Valid() && 2 <= level <= 4
      requires table in labels && labels[table] == LabelFor(level, page) && index == IndexAt(level, page)
      modifies this`mem, this`labels, pmm`usedBlocks, pmm.memoryMap
      ensures Valid() && SameWalks(old(mem), mem, root)
      ensures child != 0 <==> old(pmm.Supply()) >= One(LabelFor(level - 1, page) !in old(InUse(labels)))
      ensures Grown(old(labels), labels, pmm.SearchLimit())
      ensures child != 0 ==>
        && InUse(labels) == old(InUse(labels)) + {LabelFor(level - 1, page)}
        && |labels| == |old(labels)| + One(LabelFor(level - 1, page) !in old(InUse(labels)))
        && pmm.Supply() + One(LabelFor(level - 1, page) !in old(InUse(labels))) == old(pmm.Supply())
        && child in labels && labels[child] == LabelFor(level - 1, page)
    {
      assert table in Decode(mem) && EntryLabelled(Decode(mem), labels, table, index);
      ChildServesPage(level, page);
      var entry := mem[table][index];
      assert Next(Decode(mem), table, index) == DecodeEntry(entry);
      if !Present(entry) {
        child := AllocateTable(table, index, level, page);
        if child != 0 {
          GrownByOne(old(labels), child, LabelFor(level - 1, page), pmm.SearchLimit());
        }
      } else {
        child := GetAddress(entry);
      }
    }

    /** The first three levels of vmm_map_page: the level 1 table serving the page, or 0. */
    method FindLeafTable(pml4Index: nat, pdptIndex: nat, pdIndex: nat, pml4: nat, ghost page: nat) returns (pt: nat)
      requires Valid() && pml4 in labels && labels[pml4] == LabelFor(4, page)
      requires pml4Index == IndexAt(4, page) && pdptIndex == IndexAt(3, page) && pdIndex == IndexAt(2, page)
      modifies this`mem, this`labels, pmm`usedBlocks, pmm.memoryMap
      ensures Valid() && SameWalks(old(mem), mem, root)
      ensures pt != 0 <==> old(pmm.Supply()) >= Missing(old(InUse(labels)), page)
      ensures Grown(old(labels), labels, pmm.SearchLimit())
      ensures pt != 0 ==>
        && InUse(labels) == old(InUse(labels)) + PathLabels(page)
        && |labels| == |old(labels)| + Missing(old(InUse(labels)), page)
        && pmm.Supply() + Missing(old(InUse(labels)), page) == old(pmm.Supply())
        && pt in labels && labels[pt] == LabelFor(1, page)
    {
      hide TablesValid, SameWalks, Grown, InUse, IndexAt, LabelFor, One, Pmm.SupplyOf;
      ghost var labels0, mem0 := labels, mem;
      MissingInSteps(InUse(labels), page);
      var pdpt := Descend(pml4, pml4Index, 4, page);
      if pdpt == 0 {
        return 0;
      }
      ghost var labels1, mem1 := labels, mem;
      var pd := Descend(pdpt, pdptIndex, 3, page);
      SameWalksTwice(mem0, mem1, mem, root);
      GrownTwice(labels0, labels1, labels, pmm.SearchLimit());
      if pd == 0 {
        return 0;
      }
      ghost var labels2, mem2 := labels, mem;
      pt := Descend(pd, pdIndex, 2, page);
      SameWalksTwice(mem0, mem2, mem, root);
      GrownTwice(labels0, labels2, labels, pmm.SearchLimit());
      if pt != 0 {
        assert PathLabels(page) == {LabelFor(3, page)} + {LabelFor(2, page)} + {LabelFor(1, page)};
      }
    }

    /** The last level of vmm_map_page: a present entry gets a new frame, an absent one the flags as well. */
    method WriteLeaf(pt: nat, index: nat, physical: nat, ghost page: nat)
      requires Valid() && pt in labels && labels[pt] == LabelFor(1, page)
      requires page < PAGE_COUNT && index == IndexAt(1, page) && physical < UINT64
      modifies this`mem
      ensures Valid() && MapsOnly(old(mem), mem, root, page, FrameOf(physical))
      ensures pt in old(mem) && |old(mem)[pt]| == 512
      ensures mem == StoreEntry(old(mem), pt, index, FrameOf(physical) + 3)
    {
      hide HardwareWalk, MapsOnly, SetAddress, LinkEntry, GetAddress, Stored, WellLabelled, TablesValid, Present;
      TableAt(mem, root, labels, pmm.memoryMap[..], pt, index);
      var entry := mem[pt][index];
      EntriesStored(entry, physical);
      AddressIsFrame(physical);
      if !Present(entry) {
        entry := LinkEntry(entry, physical);
      } else {
        entry := SetAddress(entry, physical);
      }
      StoreLeafMaps(mem, root, labels, pmm.memoryMap[..], pt, page, entry);
      mem := StoreEntry(mem, pt, index, entry);
    }

    /**
     * vmm_map_page. It succeeds exactly when the blocks left cover the tables the page still misses. Then the
     * page walks to the requested frame and every other page is as before; on failure no page changes.
     */
    method MapPage(physical: nat, virtual: nat, pml4: nat) returns (ok: bool)
      requires Valid() && pml4 == root
      requires physical < UINT64 && virtual < UINT64
      modifies this`mem, this`labels, pmm`usedBlocks, pmm.memoryMap
      ensures Valid()
      ensures ok <==> old(pmm.Supply()) >= Missing(old(InUse(labels)), PageOf(virtual))
      ensures ok ==> MapsOnly(old(mem), mem, root, PageOf(virtual), FrameOf(physical))
      ensures !ok ==> SameWalks(old(mem), mem, root)
      ensures Grown(old(labels), labels, pmm.SearchLimit())
      ensures ok ==>
        && InUse(labels) == old(InUse(labels)) + PathLabels(PageOf(virtual))
        && |labels| == |old(labels)| + Missing(old(InUse(labels)), PageOf(virtual))
        && pmm.Supply() + Missing(old(InUse(labels)), PageOf(virtual)) == old(pmm.Supply())
    {
      hide IndexAt, ShiftAndMask, LabelFor, PageOf, Grown, InUse, PathLabels, Missing, Pmm.SupplyOf, FrameOf;
      ghost var page := PageOf(virtual);
      ShiftsAreIndices(virtual);
      RootOfPage(virtual);
      var pt := FindLeafTable(ShiftAndMask(virtual, 39), ShiftAndMask(virtual, 30), ShiftAndMask(virtual, 21),
                              pml4, page);
      if pt == 0 {
        return false;
      }
      ghost var mem1 := mem;
      WriteLeaf(pt, ShiftAndMask(virtual, 12), physical, page);
      MapsOnlyAfter(old(mem), mem1, mem, root, page, FrameOf(physical));
      return true;
    }
  }
}
