/** vmm_init of os/mm/vmm.c: which pages it maps, how many tables that takes, and what the result walks to. */
module VmmInit {
  import opened Common
  import opened RadixTree
  import opened PageTables
  import opened Vmm
  import Pmm

  /** The page numbers vmm_init maps, in order: the identity range, then the physmap from the upper half on. */
  function PageAt(j: nat): (p: nat)
    requires j < 0x10_0000
    ensures p < PAGE_COUNT
  {
    if j < IDENTITY_PAGES then j else 0x8_0000_0000 + (j - IDENTITY_PAGES)
  }

  lemma PageStart(q: nat, turns: nat, page: nat)
    requires q == PAGE_COUNT * turns + page && page < PAGE_COUNT
    ensures PageOf(q * PAGE_SIZE) == page
  {
    DivModUnique(q * PAGE_SIZE, PAGE_SIZE, q, 0);
    DivModUnique(q, PAGE_COUNT, turns, page);
  }

  /** The virtual address of the j-th page is what vmm_physical_to_virtual answers for the j-th frame. */
  lemma PhysmapPage(j: nat)
    requires j < 0x10_0000
    ensures PhysicalToVirtual(false, j * PAGE_SIZE) < UINT64
    ensures PageOf(PhysicalToVirtual(false, j * PAGE_SIZE)) == PageAt(j)
  {
    hide PageOf;
    if j < IDENTITY_PAGES {
      PageStart(j, 0, j);
    } else {
      PageStart(0xF_FFF8_0000_0000 + (j - IDENTITY_PAGES), 0xFFFF, 0x8_0000_0000 + (j - IDENTITY_PAGES));
    }
  }

  /** The labels in use once the first j pages are mapped. */
  ghost function TablesAfter(j: nat): set<Label>
    requires j <= 0x10_0000
  {
    if j == 0 then {Label(4, 0)} else TablesAfter(j - 1) + PathLabels(PageAt(j - 1))
  }

  /** How many tables those pages take, the PML4 included. */
  ghost function CountAfter(j: nat): nat
    requires j <= 0x10_0000
  {
    if j == 0 then 1 else CountAfter(j - 1) + Missing(TablesAfter(j - 1), PageAt(j - 1))
  }

  lemma {:induction false} CountGrows(i: nat, j: nat)
    requires i <= j <= 0x10_0000
    ensures CountAfter(i) <= CountAfter(j)
  {
    if i < j { CountGrows(i, j - 1); }
  }

  /** Pages are mapped in increasing order, so no label beyond those of the latest page is in use. */
  lemma {:induction false} LatestIsHighest(j: nat, l: Label)
    requires 0 < j <= 0x10_0000 && l in TablesAfter(j) && 1 <= l.level <= 3
    ensures l.prefix <= PageAt(j - 1) / Span(l.level)
  {
    if l !in PathLabels(PageAt(j - 1)) {
      if j > 1 {
        LatestIsHighest(j - 1, l);
      }
    }
  }

  lemma QuotientGrows(a: nat, b: nat, d: nat)
    requires d > 0 && a <= b
    ensures a / d <= b / d
  {
    if b / d < a / d { MulStep(d, b / d, a / d); }
  }

  /** A label of the next page is in use exactly when the page before shares it. */
  lemma InUseIffShared(j: nat, level: nat)
    requires 0 < j < 0x10_0000 && 1 <= level <= 3
    ensures LabelFor(level, PageAt(j)) in TablesAfter(j) <==> PageAt(j) / Span(level) == PageAt(j - 1) / Span(level)
  {
    hide Span;
    var before, page, span := PageAt(j - 1), PageAt(j), Span(level);
    if page / span == before / span {
      assert LabelFor(level, page) in PathLabels(before);
    } else if LabelFor(level, page) in TablesAfter(j) {
      LatestIsHighest(j, LabelFor(level, page));
      QuotientGrows(before, page, span);
    }
  }

  /** Consecutive pages of one range share the level 1 table unless a multiple of 512 starts, and so on upwards. */
  lemma SharedTables(j: nat)
    requires 0 < j < 0x10_0000 && j != IDENTITY_PAGES
    ensures var n := if j < IDENTITY_PAGES then j else j - IDENTITY_PAGES;
      && (PageAt(j) / 0x200 == PageAt(j - 1) / 0x200 <==> n % 0x200 != 0)
      && (PageAt(j) / 0x4_0000 == PageAt(j - 1) / 0x4_0000 <==> n % 0x4_0000 != 0)
      && PageAt(j) / 0x800_0000 == PageAt(j - 1) / 0x800_0000
  {
    if j > IDENTITY_PAGES {
      var n := j - IDENTITY_PAGES;
      SplitBase(n);
      SplitBase(n - 1);
      StepSmall(n);
      StepMiddle(n);
    } else {
      StepSmall(j);
    }
  }

  lemma SplitBase(n: nat)
    requires n < 0x10_0000
    ensures (0x8_0000_0000 + n) / 0x200 == 0x400_0000 + n / 0x200
    ensures (0x8_0000_0000 + n) / 0x4_0000 == 0x2_0000 + n / 0x4_0000
    ensures (0x8_0000_0000 + n) / 0x800_0000 == 0x100
  {
  }

  lemma StepSmall(n: nat)
    requires n > 0
    ensures n / 0x200 == (n - 1) / 0x200 <==> n % 0x200 != 0
  {
  }

  lemma StepMiddle(n: nat)
    requires n > 0
    ensures n / 0x4_0000 == (n - 1) / 0x4_0000 <==> n % 0x4_0000 != 0
  {
  }

  lemma MissingAt(j: nat)
    requires 0 < j < 0x10_0000
    ensures j == IDENTITY_PAGES ==> Missing(TablesAfter(j), PageAt(j)) == 3
    ensures j < IDENTITY_PAGES ==> Missing(TablesAfter(j), PageAt(j)) == One(j % 0x200 == 0)
    ensures j > IDENTITY_PAGES ==> var n := j - IDENTITY_PAGES;
      Missing(TablesAfter(j), PageAt(j)) == One(n % 0x200 == 0) + One(n % 0x4_0000 == 0)
  {
    hide TablesAfter, LabelFor;
    InUseIffShared(j, 1);
    InUseIffShared(j, 2);
    InUseIffShared(j, 3);
    if j != IDENTITY_PAGES { SharedTables(j); }
  }

  function CeilDiv(n: nat, d: nat): nat
    requires d > 0
  {
    (n + d - 1) / d
  }

  /** Frames vmm_init needs to map n physmap pages. */
  function FramesNeeded(n: nat): nat {
    if n == 0 then 11 else 12 + CeilDiv(n, 0x4_0000) + CeilDiv(n, 0x200)
  }

  lemma {:induction false} IdentityCount(j: nat)
    requires 0 < j <= IDENTITY_PAGES
    ensures CountAfter(j) == 3 + CeilDiv(j, 0x200)
  {
    if j == 1 {
      assert TablesAfter(0) == {Label(4, 0)};
      assert CountAfter(1) == CountAfter(0) + Missing(TablesAfter(0), PageAt(0));
    } else {
      CeilStep(j);
      IdentityCount(j - 1);
      MissingAt(j - 1);
    }
  }

  lemma CeilStep(n: nat)
    requires n > 0
    ensures CeilDiv(n, 0x200) == CeilDiv(n - 1, 0x200) + One((n - 1) % 0x200 == 0)
    ensures CeilDiv(n, 0x4_0000) == CeilDiv(n - 1, 0x4_0000) + One((n - 1) % 0x4_0000 == 0)
  {
    if n > 1 {
      StepSmall(n - 1);
      StepMiddle(n - 1);
    }
    CeilSmall(n);
    CeilSmall(n - 1);
  }

  lemma CeilSmall(n: nat)
    ensures CeilDiv(n, 0x200) == if n == 0 then 0 else (n - 1) / 0x200 + 1
    ensures CeilDiv(n, 0x4_0000) == if n == 0 then 0 else (n - 1) / 0x4_0000 + 1
  {
  }

  /** Closed form of the table count for the identity range and n physmap pages. */
  lemma {:induction false} PhysmapCount(n: nat)
    requires IDENTITY_PAGES + n <= 0x10_0000
    ensures CountAfter(IDENTITY_PAGES + n) == FramesNeeded(n)
  {
    hide CountAfter, FramesNeeded, Missing, TablesAfter, CeilDiv;
    if n == 0 {
      IdentityCount(IDENTITY_PAGES);
      NeededAtFirst();
    } else {
      PhysmapCount(n - 1);
      NeededStep(n);
      MissingAt(IDENTITY_PAGES + n - 1);
      CountStep(IDENTITY_PAGES + n - 1);
    }
  }

  lemma NeededAtFirst()
    ensures FramesNeeded(0) == 3 + CeilDiv(IDENTITY_PAGES, 0x200)
  {
  }

  lemma NeededStep(n: nat)
    requires n > 0
    ensures FramesNeeded(n) == FramesNeeded(n - 1)
      + if n == 1 then 3 else One((n - 1) % 0x200 == 0) + One((n - 1) % 0x4_0000 == 0)
  {
    hide CeilDiv;
    CeilStep(n);
    assert CeilDiv(0, 0x200) == 0 == CeilDiv(0, 0x4_0000) by { CeilSmall(0); }
  }

  lemma CountStep(j: nat)
    requires j < 0x10_0000
    ensures CountAfter(j + 1) == CountAfter(j) + Missing(TablesAfter(j), PageAt(j))
  {
  }

  // ----- vmm_init -----------------------------------------------------------------------------

  /** The pages visited so far: those of the identity range, then those of the physmap. */
  predicate Visited(j: nat, page: nat) {
    page < Min(j, IDENTITY_PAGES) || (0x8_0000_0000 <= page && page + IDENTITY_PAGES < 0x8_0000_0000 + j)
  }

  ghost predicate NothingElse(mem: Memory, root: nat, j: nat) {
    forall page: nat :: page < PAGE_COUNT && !Visited(j, page) ==> HardwareWalk(mem, root, 4, page) == None
  }

  lemma NothingElseStep(mem: Memory, mem': Memory, root: nat, j: nat, target: nat)
    requires j < 0x10_0000 && NothingElse(mem, root, j)
    requires SameWalks(mem, mem', root) || MapsOnly(mem, mem', root, PageAt(j), target)
    ensures NothingElse(mem', root, j + 1)
  {
    hide HardwareWalk;
    forall page: nat | page < PAGE_COUNT && !Visited(j + 1, page) ensures HardwareWalk(mem', root, 4, page) == None {
      assert !Visited(j, page) && page != PageAt(j);
    }
  }

  /** A zeroed PML4 maps no page. */
  lemma NothingAtFirst(mem: Memory, root: nat)
    ensures NothingElse(mem[root := ZeroTable()], root, 0)
  {
    AbsentZero();
  }

  /** Where vmm_init stands after j pages, having started with the given supply of blocks. */
  ghost predicate Progress(mem: Memory, root: nat, labels: Labels, supply: nat, j: nat, supply0: nat, allMapped: bool)
    requires j <= 0x10_0000
  {
    && (allMapped ==>
          && InUse(labels) == TablesAfter(j) && |labels| == CountAfter(j)
          && supply + CountAfter(j) == supply0
          && forall i: nat :: i < j ==> HardwareWalk(mem, root, 4, PageAt(i)) == Some(i * PAGE_SIZE))
    && (!allMapped ==> supply0 < CountAfter(j))
    && NothingElse(mem, root, j)
  }

  ghost predicate TablesBelow(labels: Labels, frames: nat) {
    forall t :: t in labels ==> t / PAGE_SIZE < frames
  }

  lemma AlignedFrame(j: nat)
    requires j < 0x10_0000
    ensures FrameOf(j * PAGE_SIZE) == j * PAGE_SIZE
  {
  }

  lemma ProgressStep(mem: Memory, mem': Memory, root: nat, j: nat)
    requires j < 0x10_0000
    requires forall i: nat :: i < j ==> HardwareWalk(mem, root, 4, PageAt(i)) == Some(i * PAGE_SIZE)
    requires MapsOnly(mem, mem', root, PageAt(j), j * PAGE_SIZE)
    ensures forall i: nat :: i < j + 1 ==> HardwareWalk(mem', root, 4, PageAt(i)) == Some(i * PAGE_SIZE)
  {
    hide HardwareWalk;
    forall i: nat | i < j + 1 ensures HardwareWalk(mem', root, 4, PageAt(i)) == Some(i * PAGE_SIZE) {
      if i < j { assert PageAt(i) != PageAt(j); }
    }
  }

  lemma GrownBelow(labels: Labels, labels': Labels, frames: nat)
    requires TablesBelow(labels, frames) && Grown(labels, labels', frames)
    ensures TablesBelow(labels', frames)
  {
  }

  /** One call of vmm_map_page in either loop of vmm_init; its result is ignored there, and kept here as a flag. */
  method MapNext(space: AddressSpace, pml4: nat, j: nat, virtual: nat, mapped: bool, ghost supply0: nat)
    returns (allMapped: bool)
    requires pml4 == space.root
    requires j < 0x10_0000 && space.Valid() && space.initMode && space.pmm.initMode
    requires virtual == PhysicalToVirtual(false, j * PAGE_SIZE)
    requires Progress(space.mem, space.root, space.labels, space.pmm.Supply(), j, supply0, mapped)
    requires TablesBelow(space.labels, IDENTITY_PAGES)
    modifies space`mem, space`labels, space.pmm`usedBlocks, space.pmm.memoryMap
    ensures space.Valid()
    ensures Progress(space.mem, space.root, space.labels, space.pmm.Supply(), j + 1, supply0, allMapped)
    ensures TablesBelow(space.labels, IDENTITY_PAGES)
  {
    hide HardwareWalk, TablesValid, Pmm.SupplyOf, PageOf, PhysicalToVirtual, Missing, InUse, PathLabels, Grown,
      TablesBelow;
    hide SameWalks, MapsOnly, NothingElse;
    PhysmapPage(j);
    AlignedFrame(j);
    ghost var mem0, labels0 := space.mem, space.labels;
    var ok := space.MapPage(j * PAGE_SIZE, virtual, pml4);
    GrownBelow(labels0, space.labels, IDENTITY_PAGES);
    NothingElseStep(mem0, space.mem, space.root, j, j * PAGE_SIZE);
    if ok && mapped {
      ProgressStep(mem0, space.mem, space.root, j);
    }
    CountGrows(j, j + 1);
    allMapped := mapped && ok;
  }

  /** Blocks the allocator can hand out in init mode, where it searches the first 4096 frames. */
  ghost function LowSupply(pmm: Pmm.FrameAllocator): nat
    requires pmm.Valid()
    reads pmm, pmm.memoryMap
  {
    Pmm.SupplyOf(pmm.memoryMap[..], 32 * Pmm.LOW_WORD_COUNT, pmm.CounterLeft())
  }

  /** How many pages the second loop of vmm_init visits. */
  function PhysmapPages(memorySize: nat): nat {
    if memorySize <= IDENTITYMAP_END then 0 else CeilDiv(memorySize - IDENTITYMAP_END, PAGE_SIZE)
  }

  ghost predicate TranslationHolds(mem: Memory, root: nat, physical: nat) {
    HardwareWalk(mem, root, 4, PageOf(PhysicalToVirtual(false, physical))) == Some(physical)
  }

  /** With the identity range and n physmap pages mapped, vmm_physical_to_virtual inverts the walk on all of them. */
  lemma AllTranslate(mem: Memory, root: nat, labels: Labels, supply: nat, n: nat, supply0: nat, words: seq<nat>)
    requires IDENTITY_PAGES + n <= 0x10_0000
    requires Progress(mem, root, labels, supply, IDENTITY_PAGES + n, supply0, true)
    requires TablesValid(mem, root, labels, words) && TablesBelow(labels, IDENTITY_PAGES)
    ensures forall p: nat :: p % PAGE_SIZE == 0 && p / PAGE_SIZE < IDENTITY_PAGES + n ==> TranslationHolds(mem, root, p)
    ensures forall t :: t in labels ==> TranslationHolds(mem, root, t)
  {
    hide HardwareWalk, TranslationHolds, PageAt, TablesValid, TablesBelow, Progress;
    ProgressWalks(mem, root, labels, supply, IDENTITY_PAGES + n, supply0);
    forall p: nat | p % PAGE_SIZE == 0 && p / PAGE_SIZE < IDENTITY_PAGES + n
      ensures TranslationHolds(mem, root, p)
    {
      assert p == p / PAGE_SIZE * PAGE_SIZE;
      TranslatesAt(mem, root, p / PAGE_SIZE);
    }
    TablesAligned(mem, root, labels, words);
  }

  lemma TablesAligned(mem: Memory, root: nat, labels: Labels, words: seq<nat>)
    requires TablesValid(mem, root, labels, words) && TablesBelow(labels, IDENTITY_PAGES)
    ensures forall t :: t in labels ==> t % PAGE_SIZE == 0 && t / PAGE_SIZE < IDENTITY_PAGES
  {
    hide HardwareWalk, WellLabelled, MemoryValid, FramesPresent, TablesStored;
    assert TablesMarked(labels, words);
  }

  lemma ProgressWalks(mem: Memory, root: nat, labels: Labels, supply: nat, j: nat, supply0: nat)
    requires j <= 0x10_0000 && Progress(mem, root, labels, supply, j, supply0, true)
    ensures forall i: nat :: i < j ==> HardwareWalk(mem, root, 4, PageAt(i)) == Some(i * PAGE_SIZE)
  {
  }

  lemma TranslatesAt(mem: Memory, root: nat, j: nat)
    requires j < 0x10_0000 && HardwareWalk(mem, root, 4, PageAt(j)) == Some(j * PAGE_SIZE)
    ensures TranslationHolds(mem, root, j * PAGE_SIZE)
  {
    hide HardwareWalk, PageAt, PageOf, PhysicalToVirtual;
    PhysmapPage(j);
  }

  /** The PML4 of vmm_init; 0 when the allocator has no block, where the C code halts. */
  method NewRoot(space: AddressSpace) returns (pml4: nat)
    requires space.Ready() && space.initMode && space.pmm.initMode
    modifies space`mem, space`root, space`labels, space.pmm`usedBlocks, space.pmm.memoryMap
    ensures pml4 == 0 <==> old(space.pmm.Supply()) == 0
    ensures pml4 != 0 ==>
      && space.Valid() && space.root == pml4
      && Progress(space.mem, pml4, space.labels, space.pmm.Supply(), 0, old(space.pmm.Supply()), true)
      && TablesBelow(space.labels, IDENTITY_PAGES)
  {
    hide HardwareWalk, TablesValid, NothingElse;
    ghost var words := space.pmm.memoryMap[..];
    pml4 := space.pmm.AllocBlock();
    if pml4 != 0 {
      FreshRoot(space.mem, words, pml4);
      NothingAtFirst(space.mem, pml4);
      space.mem := space.mem[pml4 := ZeroTable()];
      space.root, space.labels := pml4, map[pml4 := Label(4, 0)];
    }
  }

  /** The first loop of vmm_init: physical addresses below 16 MiB map to themselves. */
  method MapIdentity(space: AddressSpace, pml4: nat, ghost supply0: nat) returns (allMapped: bool)
    requires space.Valid() && space.initMode && space.pmm.initMode
    requires pml4 == space.root && TablesBelow(space.labels, IDENTITY_PAGES)
    requires Progress(space.mem, pml4, space.labels, space.pmm.Supply(), 0, supply0, true)
    modifies space`mem, space`labels, space.pmm`usedBlocks, space.pmm.memoryMap
    ensures space.Valid() && TablesBelow(space.labels, IDENTITY_PAGES)
    ensures Progress(space.mem, pml4, space.labels, space.pmm.Supply(), IDENTITY_PAGES, supply0, allMapped)
  {
    hide HardwareWalk, TablesValid, Pmm.SupplyOf, Progress, TablesBelow;
    allMapped := true;
    var physical := 0;
    while physical < IDENTITYMAP_END
      invariant physical % PAGE_SIZE == 0 && physical <= IDENTITYMAP_END
      invariant space.Valid() && TablesBelow(space.labels, IDENTITY_PAGES)
      invariant Progress(space.mem, pml4, space.labels, space.pmm.Supply(), physical / PAGE_SIZE, supply0, allMapped)
    {
      allMapped := MapNext(space, pml4, physical / PAGE_SIZE, physical, allMapped, supply0);
      physical := physical + PAGE_SIZE;
    }
  }

  /** The second loop of vmm_init: the rest of memory maps at the physmap offset. */
  method MapPhysmap(space: AddressSpace, pml4: nat, memorySize: nat, mapped: bool, ghost supply0: nat)
    returns (allMapped: bool)
    requires memorySize < Pmm.UINT32
    requires space.Valid() && space.initMode && space.pmm.initMode
    requires pml4 == space.root && TablesBelow(space.labels, IDENTITY_PAGES)
    requires Progress(space.mem, pml4, space.labels, space.pmm.Supply(), IDENTITY_PAGES, supply0, mapped)
    modifies space`mem, space`labels, space.pmm`usedBlocks, space.pmm.memoryMap
    ensures space.Valid() && TablesBelow(space.labels, IDENTITY_PAGES)
    ensures Progress(space.mem, pml4, space.labels, space.pmm.Supply(), IDENTITY_PAGES + PhysmapPages(memorySize),
                     supply0, allMapped)
  {
    hide HardwareWalk, TablesValid, Pmm.SupplyOf, Progress, TablesBelow;
    allMapped := mapped;
    ghost var n := PhysmapPages(memorySize);
    var physical := IDENTITYMAP_END;
    while physical < memorySize
      invariant physical % PAGE_SIZE == 0 && IDENTITYMAP_END <= physical
      invariant physical / PAGE_SIZE <= IDENTITY_PAGES + n
      invariant physical < memorySize || physical / PAGE_SIZE == IDENTITY_PAGES + n
      invariant space.Valid() && TablesBelow(space.labels, IDENTITY_PAGES)
      invariant Progress(space.mem, pml4, space.labels, space.pmm.Supply(), physical / PAGE_SIZE, supply0, allMapped)
    {
      var virtual := physical + PHYSMAP_OFFSET - IDENTITYMAP_END;
      allMapped := MapNext(space, pml4, physical / PAGE_SIZE, virtual, allMapped, supply0);
      physical := physical + PAGE_SIZE;
    }
  }

  /**
   * vmm_init. Every mapping succeeds exactly when the low frames and the block counter leave FramesNeeded blocks;
   * then every page below the memory size, and every table built, is reached through vmm_physical_to_virtual. No other
   * page is mapped, and the tables are at their own addresses before and after the switch of modes.
   */
  method Init(space: AddressSpace, memorySize: nat) returns (halted: bool, allMapped: bool)
    requires space.Ready() && memorySize < Pmm.UINT32
    modifies space, space.pmm, space.pmm.memoryMap
    ensures halted <==> old(LowSupply(space.pmm)) == 0
    ensures halted ==> space.initMode && space.pmm.initMode
    ensures allMapped <==> old(LowSupply(space.pmm)) >= FramesNeeded(PhysmapPages(memorySize))
    ensures !halted ==>
      && space.Valid() && space.cr3 == space.root && !space.initMode && !space.pmm.initMode
      && TablesBelow(space.labels, IDENTITY_PAGES)
      && (forall t, mode :: t in space.labels ==> PhysicalToVirtual(mode, t) == t)
      && (forall page: nat :: page < PAGE_COUNT && HardwareWalk(space.mem, space.cr3, 4, page).Some? ==>
            page < 0x1000
            || (0x8_0000_0000 <= page && 0x1000 * (page - 0x8_0000_0000) + 0x100_0000 < memorySize))
    ensures allMapped ==>
      && (forall p: nat :: p % PAGE_SIZE == 0 && (p < memorySize || p < IDENTITYMAP_END) ==>
            TranslationHolds(space.mem, space.cr3, p))
      && (forall t :: t in space.labels ==> TranslationHolds(space.mem, space.cr3, t))
  {
    hide HardwareWalk, TablesValid, Pmm.SupplyOf, PageOf, Progress, TranslationHolds, TablesBelow, CountAfter,
      FramesNeeded;
    space.pmm.initMode := true;
    space.initMode := true;
    ghost var supply0 := space.pmm.Supply();
    ghost var n := PhysmapPages(memorySize);
    var pml4 := NewRoot(space);
    if pml4 == 0 {
      NeedsBlocks(n);
      return true, false;
    }
    halted := false;
    allMapped := MapIdentity(space, pml4, supply0);
    allMapped := MapPhysmap(space, pml4, memorySize, allMapped, supply0);
    PhysmapCount(n);
    ProgressTells(space.mem, pml4, space.labels, space.pmm.Supply(), IDENTITY_PAGES + n, supply0, allMapped);
    PhysmapEnds(space.mem, pml4, memorySize);
    TableAddresses(space.labels);
    if allMapped {
      AllTranslate(space.mem, pml4, space.labels, space.pmm.Supply(), n, supply0, space.pmm.memoryMap[..]);
    }
    space.cr3 := pml4;
    space.pmm.initMode := false;
    space.initMode := false;
  }

  lemma NeedsBlocks(n: nat)
    ensures FramesNeeded(n) > 0
  {
  }

  lemma ProgressTells(mem: Memory, root: nat, labels: Labels, supply: nat, j: nat, supply0: nat, allMapped: bool)
    requires j <= 0x10_0000 && Progress(mem, root, labels, supply, j, supply0, allMapped)
    ensures allMapped <==> supply0 >= CountAfter(j)
    ensures NothingElse(mem, root, j)
  {
  }

  /** The last page visited is the last that starts below the memory size. */
  lemma PhysmapEnds(mem: Memory, root: nat, memorySize: nat)
    requires NothingElse(mem, root, IDENTITY_PAGES + PhysmapPages(memorySize))
    ensures forall page: nat :: page < PAGE_COUNT && HardwareWalk(mem, root, 4, page).Some? ==>
      page < 0x1000 || (0x8_0000_0000 <= page && 0x1000 * (page - 0x8_0000_0000) + 0x100_0000 < memorySize)
  {
    hide HardwareWalk;
  }

  /** Tables below 16 MiB are at their own addresses in both modes. */
  lemma TableAddresses(labels: Labels)
    requires TablesBelow(labels, IDENTITY_PAGES)
    ensures forall t, mode :: t in labels ==> PhysicalToVirtual(mode, t) == t
  {
  }
}
