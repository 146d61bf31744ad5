/** The inode cache of os/fs/fs_inode.c: 128 slots over the on-disk inode table, replaced by a clock hand. */
module InodeCache {
  import opened Common
  import opened Disk

  const CACHE_SIZE: nat := 128

  datatype Inode = Inode(kind: nat, size: nat, blockCount: nat, blocks: seq<nat>)

  datatype Slot = Slot(inode: Inode, index: nat, reference: bool, dirty: bool, valid: bool)

  type Sector = seq<Inode>
  type Sectors = map<nat, Sector>

  /** Where the table sits on disk and how many inodes it holds. */
  datatype Layout = Layout(start: nat, perBlock: nat, count: nat)

  /** The sectors it takes, the last one perhaps not in full. */
  function TableSectors(l: Layout): nat
    requires l.perBlock > 0
  {
    (l.count + l.perBlock - 1) / l.perBlock
  }

  ghost predicate TableValid(disk: Sectors, l: Layout) {
    && l.perBlock > 0
    && forall s: nat :: l.start <= s < l.start + TableSectors(l) ==> s in disk && |disk[s]| == l.perBlock
  }

  function SectorOf(l: Layout, n: nat): (s: nat)
    requires l.perBlock > 0
    ensures n < l.count ==> l.start <= s < l.start + TableSectors(l)
  {
    QuotientBelow(n, l.count, l.perBlock);
    l.start + n / l.perBlock
  }

  lemma QuotientBelow(n: nat, count: nat, d: nat)
    requires d > 0
    ensures n < count ==> n / d < (count + d - 1) / d && n < d * ((count + d - 1) / d)
  {
    var pieces := (count + d - 1) / d;
    assert count + d - 1 == d * pieces + (count + d - 1) % d && n == d * (n / d) + n % d;
    if pieces < n / d { MulStep(d, pieces, n / d); }
  }

  /** The inode's record in the table. */
  function Record(disk: Sectors, l: Layout, n: nat): Inode
    requires TableValid(disk, l) && n < l.count
  {
    disk[SectorOf(l, n)][n % l.perBlock]
  }

  /** Record n is element n of the table's sectors put one behind the other. */
  lemma RecordInTable(disk: Sectors, l: Layout, n: nat)
    requires TableValid(disk, l) && n < l.count
    ensures var sectors := seq(TableSectors(l), k requires 0 <= k < TableSectors(l) => disk[l.start + k]);
      n < |Flatten(sectors)| && Record(disk, l, n) == Flatten(sectors)[n]
  {
    var sectors := seq(TableSectors(l), k requires 0 <= k < TableSectors(l) => disk[l.start + k]);
    QuotientBelow(n, l.count, l.perBlock);
    FlattenAt(sectors, l.perBlock, n);
  }

  /** Read the sector, change one record, write the sector. */
  function StoreRecord(disk: Sectors, l: Layout, n: nat, inode: Inode): Sectors
    requires TableValid(disk, l) && n < l.count
  {
    disk[SectorOf(l, n) := disk[SectorOf(l, n)][n % l.perBlock := inode]]
  }

  /** A flush alters only that inode's record. */
  lemma StoreAltersOne(disk: Sectors, l: Layout, n: nat, inode: Inode)
    requires TableValid(disk, l) && n < l.count
    ensures var disk' := StoreRecord(disk, l, n, inode);
      && TableValid(disk', l) && Record(disk', l, n) == inode
      && forall m: nat :: m < l.count && m != n ==> Record(disk', l, m) == Record(disk, l, m)
  {
    var disk' := StoreRecord(disk, l, n, inode);
    forall m: nat | m < l.count && m != n ensures Record(disk', l, m) == Record(disk, l, m) {
      SamePlace(l.perBlock, m, n);
    }
  }

  /** No sector outside the table is written. */
  lemma StoreStaysInside(disk: Sectors, l: Layout, n: nat, inode: Inode)
    requires TableValid(disk, l) && n < l.count
    ensures SameElsewhere(disk, StoreRecord(disk, l, n, inode), l.start, TableSectors(l))
  {
  }

  lemma FlushStaysInside(disk: Sectors, l: Layout, slots: seq<Slot>, i: nat)
    requires TableValid(disk, l) && i < |slots| && (slots[i].dirty ==> slots[i].index < l.count)
    ensures SameElsewhere(disk, FlushedDisk(disk, l, slots, i), l.start, TableSectors(l))
  {
    if slots[i].dirty { StoreStaysInside(disk, l, slots[i].index, slots[i].inode); }
  }

  lemma SamePlace(d: nat, m: nat, n: nat)
    requires d > 0 && m != n
    ensures m / d != n / d || m % d != n % d
  {
    assert m == d * (m / d) + m % d && n == d * (n / d) + n % d;
  }

  // ----- the cache as a value -----------------------------------------------------------------

  ghost predicate SlotsValid(slots: seq<Slot>, count: nat) {
    && |slots| == CACHE_SIZE
    && (forall i :: 0 <= i < CACHE_SIZE && slots[i].valid ==> slots[i].index < count)
    && (forall i :: 0 <= i < CACHE_SIZE && !slots[i].valid ==> !slots[i].dirty)
    && forall i, j :: 0 <= i < j < CACHE_SIZE && slots[i].valid && slots[j].valid ==> slots[i].index != slots[j].index
  }

  predicate Caches(slots: seq<Slot>, i: nat, n: nat)
    requires i < |slots|
  {
    slots[i].valid && slots[i].index == n
  }

  /** The first slot from i on that caches inode n; the number of slots when none does. */
  function SlotOf(slots: seq<Slot>, n: nat, i: nat): (r: nat)
    requires i <= |slots|
    ensures i <= r <= |slots|
    ensures r < |slots| ==> Caches(slots, r, n)
    ensures forall k: nat :: i <= k < r ==> !Caches(slots, k, n)
    decreases |slots| - i
  {
    if i == |slots| || Caches(slots, i, n) then i else SlotOf(slots, n, i + 1)
  }

  /** The inode as the system sees it: the table, overlaid by the valid slots. */
  function Logical(disk: Sectors, l: Layout, slots: seq<Slot>, n: nat): Inode
    requires TableValid(disk, l) && n < l.count
  {
    var i := SlotOf(slots, n, 0);
    if i < |slots| then slots[i].inode else Record(disk, l, n)
  }

  ghost predicate SameInodes(disk: Sectors, slots: seq<Slot>, disk': Sectors, slots': seq<Slot>, l: Layout)
    requires TableValid(disk, l) && TableValid(disk', l)
  {
    forall n: nat :: n < l.count ==> Logical(disk', l, slots', n) == Logical(disk, l, slots, n)
  }

  /** A slot that is not dirty repeats the table. fs_inode_create breaks this until the inode is marked dirty. */
  ghost predicate Coherent(disk: Sectors, l: Layout, slots: seq<Slot>)
    requires TableValid(disk, l)
  {
    forall i :: 0 <= i < |slots| && slots[i].valid && !slots[i].dirty && slots[i].index < l.count ==>
      slots[i].inode == Record(disk, l, slots[i].index)
  }

  /** The same of all slots but that of inode n. */
  ghost predicate CoherentBut(disk: Sectors, l: Layout, slots: seq<Slot>, n: nat)
    requires TableValid(disk, l)
  {
    forall i ::
      0 <= i < |slots| && slots[i].valid && !slots[i].dirty && slots[i].index < l.count && slots[i].index != n ==>
      slots[i].inode == Record(disk, l, slots[i].index)
  }

  /** With at most one slot per inode, the slot found is the one given. */
  lemma SlotUnique(slots: seq<Slot>, count: nat, i: nat)
    requires SlotsValid(slots, count) && i < CACHE_SIZE && slots[i].valid
    ensures SlotOf(slots, slots[i].index, 0) == i
  {
    var r := SlotOf(slots, slots[i].index, 0);
    assert Caches(slots, i, slots[i].index);
  }

  function Flushed(slots: seq<Slot>, i: nat): seq<Slot>
    requires i < |slots|
  {
    slots[i := slots[i].(dirty := false)]
  }

  function FlushedDisk(disk: Sectors, l: Layout, slots: seq<Slot>, i: nat): Sectors
    requires TableValid(disk, l) && i < |slots| && (slots[i].dirty ==> slots[i].index < l.count)
  {
    if slots[i].dirty then StoreRecord(disk, l, slots[i].index, slots[i].inode) else disk
  }

  /** Flushing a slot keeps every inode as the system sees it. */
  lemma FlushKeeps(disk: Sectors, l: Layout, slots: seq<Slot>, i: nat)
    requires TableValid(disk, l) && SlotsValid(slots, l.count) && i < CACHE_SIZE
    ensures TableValid(FlushedDisk(disk, l, slots, i), l) && SlotsValid(Flushed(slots, i), l.count)
    ensures SameInodes(disk, slots, FlushedDisk(disk, l, slots, i), Flushed(slots, i), l)
    ensures Coherent(disk, l, slots) ==> Coherent(FlushedDisk(disk, l, slots, i), l, Flushed(slots, i))
    ensures slots[i].dirty ==> Record(FlushedDisk(disk, l, slots, i), l, slots[i].index) == slots[i].inode
  {
    var disk', slots' := FlushedDisk(disk, l, slots, i), Flushed(slots, i);
    if slots[i].dirty {
      StoreAltersOne(disk, l, slots[i].index, slots[i].inode);
    }
    forall n: nat | n < l.count ensures Logical(disk', l, slots', n) == Logical(disk, l, slots, n) {
      SlotOfSame(slots, slots', n);
      if slots[i].dirty && n == slots[i].index { SlotUnique(slots, l.count, i); }
    }
  }

  /** Which slot caches an inode depends only on validity and indices. */
  lemma SlotOfSame(slots: seq<Slot>, slots': seq<Slot>, n: nat)
    requires |slots'| == |slots|
    requires forall i: nat :: i < |slots| ==> Caches(slots', i, n) == Caches(slots, i, n)
    ensures SlotOf(slots', n, 0) == SlotOf(slots, n, 0)
  {
    var r, r' := SlotOf(slots, n, 0), SlotOf(slots', n, 0);
    assert r < |slots| ==> Caches(slots', r, n);
    assert r' < |slots| ==> Caches(slots, r', n);
  }

  function Dropped(slots: seq<Slot>, i: nat): seq<Slot>
    requires i < |slots|
  {
    slots[i := slots[i].(dirty := false, valid := false)]
  }

  /** Dropping a slot that repeats the table keeps every inode. */
  lemma DropKeeps(disk: Sectors, l: Layout, slots: seq<Slot>, i: nat)
    requires TableValid(disk, l) && SlotsValid(slots, l.count) && i < CACHE_SIZE
    requires !slots[i].dirty
    ensures SlotsValid(Dropped(slots, i), l.count)
    ensures Coherent(disk, l, slots) ==> Coherent(disk, l, Dropped(slots, i))
    ensures (slots[i].valid ==> slots[i].inode == Record(disk, l, slots[i].index)) <==>
      SameInodes(disk, slots, disk, Dropped(slots, i), l)
    ensures forall k: nat :: k < CACHE_SIZE && slots[i].valid ==> !Caches(Dropped(slots, i), k, slots[i].index)
  {
    var slots' := Dropped(slots, i);
    forall n: nat | n < l.count && !(slots[i].valid && n == slots[i].index)
      ensures Logical(disk, l, slots', n) == Logical(disk, l, slots, n)
    {
      SlotOfSame(slots, slots', n);
    }
    if slots[i].valid {
      var n := slots[i].index;
      SlotUnique(slots, l.count, i);
      forall k: nat | k < CACHE_SIZE ensures !Caches(slots', k, n) {
        assert Caches(slots, i, n);
        if k != i { assert !Caches(slots, k, n); }
      }
      assert Logical(disk, l, slots', n) == Record(disk, l, n);
      assert Logical(disk, l, slots, n) == slots[i].inode;
    }
  }

  // ----- the clock ----------------------------------------------------------------------------

  /** The slot t steps on from the hand. */
  function Ahead(hand: nat, t: nat): (i: nat)
    requires hand < CACHE_SIZE && t <= CACHE_SIZE
    ensures i < CACHE_SIZE
  {
    if hand + t < CACHE_SIZE then hand + t else hand + t - CACHE_SIZE
  }

  predicate Passable(slot: Slot) {
    slot.valid && slot.reference
  }

  /** How many slots the hand passes: those valid and referenced, at most a full turn. */
  function Passed(slots: seq<Slot>, hand: nat, t: nat): (k: nat)
    requires |slots| == CACHE_SIZE && hand < CACHE_SIZE && t <= CACHE_SIZE
    ensures t <= k <= CACHE_SIZE
    ensures forall u: nat :: t <= u < k ==> Passable(slots[Ahead(hand, u)])
    ensures k < CACHE_SIZE ==> !Passable(slots[Ahead(hand, k)])
    decreases CACHE_SIZE - t
  {
    if t == CACHE_SIZE || !Passable(slots[Ahead(hand, t)]) then t else Passed(slots, hand, t + 1)
  }

  /** How far ahead of the hand a slot is. */
  function Distance(hand: nat, i: nat): (t: nat)
    requires hand < CACHE_SIZE && i < CACHE_SIZE
    ensures t < CACHE_SIZE && Ahead(hand, t) == i
  {
    if i >= hand then i - hand else i + CACHE_SIZE - hand
  }

  /** The slots with the reference bits of the first k slots from the hand cleared. */
  function Swept(slots: seq<Slot>, hand: nat, k: nat): (r: seq<Slot>)
    requires |slots| == CACHE_SIZE && hand < CACHE_SIZE && k <= CACHE_SIZE
    ensures |r| == CACHE_SIZE
  {
    seq(CACHE_SIZE, i requires 0 <= i < CACHE_SIZE =>
      if Distance(hand, i) < k then slots[i].(reference := false) else slots[i])
  }

  lemma SweepStep(slots: seq<Slot>, hand: nat, k: nat)
    requires |slots| == CACHE_SIZE && hand < CACHE_SIZE && k < CACHE_SIZE
    ensures var i := Ahead(hand, k);
      && Distance(hand, i) == k && Swept(slots, hand, k)[i] == slots[i]
      && Swept(slots, hand, k + 1) == Swept(slots, hand, k)[i := slots[i].(reference := false)]
  {
  }

  /** Clearing reference bits touches neither inodes nor validity. */
  lemma SweepKeeps(disk: Sectors, l: Layout, slots: seq<Slot>, hand: nat, k: nat)
    requires TableValid(disk, l) && SlotsValid(slots, l.count) && hand < CACHE_SIZE && k <= CACHE_SIZE
    ensures SlotsValid(Swept(slots, hand, k), l.count)
    ensures SameInodes(disk, slots, disk, Swept(slots, hand, k), l)
    ensures Coherent(disk, l, slots) ==> Coherent(disk, l, Swept(slots, hand, k))
  {
    forall n: nat | n < l.count
      ensures Logical(disk, l, Swept(slots, hand, k), n) == Logical(disk, l, slots, n)
    {
      SlotOfSame(slots, Swept(slots, hand, k), n);
    }
  }

  /** The slot fs_inode_cache_evict picks, and the slots it leaves. */
  function Victim(slots: seq<Slot>, hand: nat): nat
    requires |slots| == CACHE_SIZE && hand < CACHE_SIZE
  {
    Ahead(hand, Passed(slots, hand, 0))
  }

  function Evicted(slots: seq<Slot>, hand: nat): (r: seq<Slot>)
    requires |slots| == CACHE_SIZE && hand < CACHE_SIZE
    ensures |r| == CACHE_SIZE
  {
    Dropped(Swept(slots, hand, Passed(slots, hand, 0)), Victim(slots, hand))
  }

  /**
   * What an eviction does to each slot. Counted from the hand round the 128 slots, the victim is the first invalid or
   * unreferenced one, or the hand's own if there is none. It becomes invalid, and the slots passed lose their reference
   * bit.
   */
  lemma EvictionMeans(slots: seq<Slot>, hand: nat)
    requires |slots| == 128 && hand < 128
    ensures var k, victim := Passed(slots, hand, 0), Victim(slots, hand);
      && k <= 128 && victim == (hand + k) % 128 && (k < 128 ==> !(slots[victim].valid && slots[victim].reference))
      && forall i :: 0 <= i < 128 ==>
        var passed := (i + 128 - hand) % 128 < k;
        var kept := if passed then slots[i].(reference := false) else slots[i];
        && (passed ==> slots[i].valid && slots[i].reference)
        && Evicted(slots, hand)[i] == if i == victim then kept.(dirty := false, valid := false) else kept
  {
    hide Passed, Distance, Ahead;
    var k := Passed(slots, hand, 0);
    RoundTheSlots(hand, k, 0);
    forall i | 0 <= i < 128
      ensures Distance(hand, i) == (i + 128 - hand) % 128
      ensures Distance(hand, i) < k ==> slots[i].valid && slots[i].reference
    {
      RoundTheSlots(hand, 0, i);
      if Distance(hand, i) < k { assert Passable(slots[Ahead(hand, Distance(hand, i))]); }
    }
  }

  lemma RoundTheSlots(hand: nat, t: nat, i: nat)
    requires hand < 128 && t <= 128 && i < 128
    ensures Ahead(hand, t) == (hand + t) % 128 && Distance(hand, i) == (i + 128 - hand) % 128
  {
  }

  /** The hand as the code leaves it: the unreferenced branch of the probe has no wrap. */
  function HandWritten(slots: seq<Slot>, hand: nat): nat
    requires |slots| == CACHE_SIZE && hand < CACHE_SIZE
  {
    var v := Victim(slots, hand);
    if Passed(slots, hand, 0) < CACHE_SIZE && slots[v].valid then v + 1 else Ahead(v, 1)
  }

  /** It runs past the last slot just when that is valid and unreferenced, and the hand passes all slots on the way. */
  lemma HandOverruns(slots: seq<Slot>, hand: nat)
    requires |slots| == CACHE_SIZE && hand < CACHE_SIZE
    ensures HandWritten(slots, hand) == CACHE_SIZE <==>
      && slots[CACHE_SIZE - 1].valid && !slots[CACHE_SIZE - 1].reference
      && forall i :: hand <= i < CACHE_SIZE - 1 ==> Passable(slots[i])
    ensures HandWritten(slots, hand) < CACHE_SIZE ==> HandWritten(slots, hand) == Ahead(Victim(slots, hand), 1)
  {
    var k, last := Passed(slots, hand, 0), CACHE_SIZE - 1;
    assert Ahead(hand, last - hand) == last;
    if k < CACHE_SIZE && slots[Victim(slots, hand)].valid && Victim(slots, hand) == last {
      assert k == last - hand;
      forall i | hand <= i < last ensures Passable(slots[i]) { assert Ahead(hand, i - hand) == i; }
    }
    if !Passable(slots[last]) && (forall i :: hand <= i < last ==> Passable(slots[i])) {
      forall u: nat | u < last - hand ensures Passable(slots[Ahead(hand, u)]) { assert Ahead(hand, u) == hand + u; }
    }
  }

  /** The sweep leaves dirty bits, indices and inodes, so it makes no difference to a flush. */
  lemma SweptDisk(disk: Sectors, l: Layout, slots: seq<Slot>, hand: nat, k: nat, i: nat)
    requires TableValid(disk, l) && |slots| == CACHE_SIZE && hand < CACHE_SIZE && k <= CACHE_SIZE && i < CACHE_SIZE
    requires slots[i].dirty ==> slots[i].index < l.count
    ensures FlushedDisk(disk, l, Swept(slots, hand, k), i) == FlushedDisk(disk, l, slots, i)
  {
  }

  /** Evicting a slot that is dirty or repeats the table keeps every inode; a clean slot that does not is lost. */
  lemma EvictKeeps(disk: Sectors, l: Layout, slots: seq<Slot>, hand: nat)
    requires TableValid(disk, l) && SlotsValid(slots, l.count) && hand < CACHE_SIZE
    ensures var v := Victim(slots, hand);
      var disk' := FlushedDisk(disk, l, slots, v);
      && TableValid(disk', l) && SlotsValid(Evicted(slots, hand), l.count)
      && (Coherent(disk, l, slots) ==> Coherent(disk', l, Evicted(slots, hand)))
      && !Evicted(slots, hand)[v].valid
      && (SameInodes(disk, slots, disk', Evicted(slots, hand), l) <==>
            (slots[v].valid && !slots[v].dirty ==> slots[v].inode == Record(disk, l, slots[v].index)))
  {
    hide SlotsValid, Coherent, Logical;
    SlotsLength(slots, l.count);
    var v, k := Victim(slots, hand), Passed(slots, hand, 0);
    var swept := Swept(slots, hand, k);
    VictimBound(slots, l.count, v);
    SweepKeeps(disk, l, slots, hand, k);
    VictimBound(swept, l.count, v);
    FlushKeeps(disk, l, swept, v);
    var disk' := FlushedDisk(disk, l, swept, v);
    assert Dropped(Flushed(swept, v), v) == Dropped(swept, v);
    VictimBound(Flushed(swept, v), l.count, v);
    DropKeeps(disk', l, Flushed(swept, v), v);
    SameInodesTrans(disk, slots, disk, swept, disk', Flushed(swept, v), l);
    SameInodesMiddle(disk, slots, disk', Flushed(swept, v), disk', Dropped(swept, v), l);
  }

  lemma SlotsLength(slots: seq<Slot>, count: nat)
    requires SlotsValid(slots, count)
    ensures |slots| == CACHE_SIZE
  {
  }

  lemma VictimBound(slots: seq<Slot>, count: nat, v: nat)
    requires SlotsValid(slots, count) && v < CACHE_SIZE
    ensures |slots| == CACHE_SIZE && (slots[v].dirty ==> slots[v].valid) && (slots[v].valid ==> slots[v].index < count)
  {
  }

  lemma SameInodesTrans(d0: Sectors, s0: seq<Slot>, d1: Sectors, s1: seq<Slot>, d2: Sectors, s2: seq<Slot>, l: Layout)
    requires TableValid(d0, l) && TableValid(d1, l) && TableValid(d2, l)
    requires SameInodes(d0, s0, d1, s1, l) && SameInodes(d1, s1, d2, s2, l)
    ensures SameInodes(d0, s0, d2, s2, l)
  {
  }

  lemma SameInodesMiddle(d0: Sectors, s0: seq<Slot>, d1: Sectors, s1: seq<Slot>, d2: Sectors, s2: seq<Slot>, l: Layout)
    requires TableValid(d0, l) && TableValid(d1, l) && TableValid(d2, l)
    requires SameInodes(d0, s0, d1, s1, l)
    ensures SameInodes(d0, s0, d2, s2, l) <==> SameInodes(d1, s1, d2, s2, l)
  {
    hide Logical;
    forall n: nat | n < l.count ensures Logical(d1, l, s1, n) == Logical(d0, l, s0, n) {}
  }

  lemma SweepNone(slots: seq<Slot>, hand: nat)
    requires |slots| == CACHE_SIZE && hand < CACHE_SIZE
    ensures Swept(slots, hand, 0) == slots
  {
  }

  /** What the probe number i from the hand meets. */
  lemma PassedHere(slots: seq<Slot>, hand: nat, i: nat)
    requires |slots| == CACHE_SIZE && hand < CACHE_SIZE && i < CACHE_SIZE
    ensures var k := Passed(slots, hand, 0);
      && (i < k ==> Passable(slots[Ahead(hand, i)]))
      && (k < CACHE_SIZE ==> !Passable(slots[Ahead(hand, k)]))
      && (i <= k ==> Swept(slots, hand, i)[Ahead(hand, i)] == slots[Ahead(hand, i)])
      && (i < k ==> Swept(slots, hand, i + 1)
                    == Swept(slots, hand, i)[Ahead(hand, i) := slots[Ahead(hand, i)].(reference := false)])
  {
    SweepStep(slots, hand, i);
  }

  lemma AheadOne(hand: nat, t: nat)
    requires hand < CACHE_SIZE && t <= CACHE_SIZE
    ensures t < CACHE_SIZE ==> Ahead(Ahead(hand, t), 1) == Ahead(hand, t + 1)
  {
  }

  lemma EvictedIsDropped(slots: seq<Slot>, hand: nat)
    requires |slots| == CACHE_SIZE && hand < CACHE_SIZE
    ensures Evicted(slots, hand) == Dropped(Swept(slots, hand, Passed(slots, hand, 0)), Victim(slots, hand))
  {
  }

  lemma CoherentVictim(disk: Sectors, l: Layout, slots: seq<Slot>, v: nat)
    requires TableValid(disk, l) && SlotsValid(slots, l.count) && v < CACHE_SIZE
    ensures Coherent(disk, l, slots) && slots[v].valid && !slots[v].dirty ==>
      slots[v].inode == Record(disk, l, slots[v].index)
  {
  }

  lemma NotCachedAfterEvict(disk: Sectors, l: Layout, slots: seq<Slot>, hand: nat, n: nat)
    requires TableValid(disk, l) && SlotsValid(slots, l.count) && hand < CACHE_SIZE && n < l.count
    requires SlotOf(slots, n, 0) == CACHE_SIZE
    ensures forall k: nat :: k < CACHE_SIZE ==> !Caches(Evicted(slots, hand), k, n)
    ensures var v := Victim(slots, hand);
      && TableValid(FlushedDisk(disk, l, slots, v), l)
      && Record(FlushedDisk(disk, l, slots, v), l, n) == Record(disk, l, n)
  {
    var v := Victim(slots, hand);
    FlushKeeps(disk, l, slots, v);
    assert !Caches(slots, v, n);
    if slots[v].dirty { StoreAltersOne(disk, l, slots[v].index, slots[v].inode); }
    forall k: nat | k < CACHE_SIZE ensures !Caches(Evicted(slots, hand), k, n) {
      assert !Caches(slots, k, n);
    }
  }

  /** Filling an invalid slot with an inode cached nowhere shows that inode and keeps the others. */
  lemma FillKeeps(disk: Sectors, l: Layout, slots: seq<Slot>, i: nat, inode: Inode, n: nat)
    requires TableValid(disk, l) && SlotsValid(slots, l.count) && i < CACHE_SIZE && n < l.count && !slots[i].valid
    requires forall k: nat :: k < CACHE_SIZE ==> !Caches(slots, k, n)
    ensures var slots' := slots[i := Slot(inode, n, true, false, true)];
      && SlotsValid(slots', l.count) && Logical(disk, l, slots', n) == inode
      && (forall m: nat :: m < l.count && m != n ==> Logical(disk, l, slots', m) == Logical(disk, l, slots, m))
      && (Coherent(disk, l, slots) ==> CoherentBut(disk, l, slots', n))
      && (Coherent(disk, l, slots) && inode == Record(disk, l, n) ==> Coherent(disk, l, slots'))
  {
    var slots' := slots[i := Slot(inode, n, true, false, true)];
    forall k: nat | k < CACHE_SIZE && slots[k].valid ensures slots[k].index != n {
      assert !Caches(slots, k, n);
    }
    SlotUnique(slots', l.count, i);
    forall m: nat | m < l.count && m != n ensures Logical(disk, l, slots', m) == Logical(disk, l, slots, m) {
      SlotOfSame(slots, slots', m);
    }
  }

  lemma TouchKeeps(disk: Sectors, l: Layout, slots: seq<Slot>, i: nat)
    requires TableValid(disk, l) && SlotsValid(slots, l.count) && i < CACHE_SIZE
    ensures var slots' := slots[i := slots[i].(reference := true)];
      && SlotsValid(slots', l.count) && SameInodes(disk, slots, disk, slots', l)
      && (Coherent(disk, l, slots) ==> Coherent(disk, l, slots'))
      && forall n: nat :: CoherentBut(disk, l, slots, n) ==> CoherentBut(disk, l, slots', n)
  {
    var slots' := slots[i := slots[i].(reference := true)];
    forall n: nat | n < l.count ensures Logical(disk, l, slots', n) == Logical(disk, l, slots, n) {
      SlotOfSame(slots, slots', n);
    }
  }

  /** The numbers of the cached inodes. */
  ghost function Held(slots: seq<Slot>): set<nat> {
    set i | 0 <= i < |slots| && slots[i].valid :: slots[i].index
  }

  lemma NotHeld(slots: seq<Slot>, n: nat)
    requires n !in Held(slots)
    ensures SlotOf(slots, n, 0) == |slots|
  {
  }

  lemma IsHeld(slots: seq<Slot>, i: nat, n: nat)
    requires i < |slots| && Caches(slots, i, n)
    ensures SlotOf(slots, n, 0) < |slots|
  {
  }

  lemma HeldAfterAdd(slots: seq<Slot>, hand: nat, i: nat, slot: Slot)
    requires |slots| == CACHE_SIZE && hand < CACHE_SIZE && i < CACHE_SIZE
    ensures Held(Evicted(slots, hand)[i := slot]) <= Held(slots) + {slot.index}
  {
    hide Passed, Victim;
    var slots' := Evicted(slots, hand)[i := slot];
    forall n | n in Held(slots') ensures n in Held(slots) + {slot.index} {
      var k :| 0 <= k < |slots'| && slots'[k].valid && slots'[k].index == n;
      if k != i { assert slots[k].valid && slots[k].index == n; }
    }
  }

  lemma HeldAfterChange(slots: seq<Slot>, i: nat, slot: Slot)
    requires i < |slots| && slot.valid == slots[i].valid && slot.index == slots[i].index
    ensures Held(slots[i := slot]) <= Held(slots)
  {
    forall n | n in Held(slots[i := slot]) ensures n in Held(slots) {
      var k :| 0 <= k < |slots| && slots[i := slot][k].valid && slots[i := slot][k].index == n;
      assert slots[k].valid && slots[k].index == n;
    }
  }

  class Cache {
    const disk: Drive<Sector>
    const layout: Layout
    const slots: array<Slot>
    var hand: nat

    /** fs_inode_load: every slot invalid, the hand at the first. */
    constructor (disk: Drive<Sector>, layout: Layout, empty: Inode)
      requires TableValid(disk.sectors, layout)
      ensures Valid() && Coherent(disk.sectors, layout, slots[..]) && fresh(slots)
      ensures hand == 0 && slots.Length == 128 && forall k :: 0 <= k < 128 ==> !slots[k].valid
      ensures this.disk == disk && this.layout == layout
      ensures forall n: nat :: n < layout.count ==>
        Logical(disk.sectors, layout, slots[..], n) == Record(disk.sectors, layout, n)
    {
      this.disk, this.layout := disk, layout;
      slots := new Slot[CACHE_SIZE](_ => Slot(empty, 0, false, false, false));
      hand := 0;
    }

    ghost predicate Valid()
      reads this, slots, disk
    {
      && TableValid(disk.sectors, layout)
      && slots.Length == CACHE_SIZE && SlotsValid(slots[..], layout.count)
      && hand < CACHE_SIZE
    }

    /** The cache is coherent, and n is this inode, wherever it sits. */
    ghost predicate Shows(n: nat, inode: Inode)
      reads this, slots, disk
    {
      && Valid() && Coherent(disk.sectors, layout, slots[..])
      && n < layout.count && Logical(disk.sectors, layout, slots[..], n) == inode
    }

    lemma NoneDirty()
      requires Valid()
      ensures forall k :: 0 <= k < CACHE_SIZE && !slots[k].valid ==> !slots[k].dirty
    {
    }

    /** fs_inode_cache_entry_flush */
    method FlushSlot(i: nat)
      requires Valid() && i < CACHE_SIZE
      modifies slots, disk
      ensures Valid() && slots[..] == Flushed(old(slots[..]), i)
      ensures disk.sectors == FlushedDisk(old(disk.sectors), layout, old(slots[..]), i)
      ensures SameElsewhere(old(disk.sectors), disk.sectors, layout.start, TableSectors(layout))
    {
      FlushStaysInside(disk.sectors, layout, slots[..], i);
      FlushKeeps(disk.sectors, layout, slots[..], i);
      if !slots[i].dirty {
        assert slots[..] == Flushed(slots[..], i);
        return;
      }
      var n := slots[i].index;
      var buffer := disk.sectors[SectorOf(layout, n)];
      buffer := buffer[n % layout.perBlock := slots[i].inode];
      disk.sectors := disk.sectors[SectorOf(layout, n) := buffer];
      slots[i] := slots[i].(dirty := false);
      assert slots[..] == Flushed(old(slots[..]), i);
    }

    /** Flush the slot at the hand and make it invalid. */
    method DropAtHand()
      requires Valid()
      modifies slots, disk
      ensures TableValid(disk.sectors, layout) && slots[..] == Dropped(old(slots[..]), hand)
      ensures disk.sectors == FlushedDisk(old(disk.sectors), layout, old(slots[..]), hand)
    {
      FlushSlot(hand);
      slots[hand] := slots[hand].(valid := false);
      assert slots[..] == Dropped(old(slots[..]), hand);
    }

    /**
     * fs_inode_cache_entry_evict: one probe at the hand, -1 unless its slot was valid and unreferenced. The hand as the
     * code writes it may be one past the last slot; the model takes it back to the first.
     */
    method ProbeSlot() returns (index: int, ghost written: nat)
      requires Valid()
      modifies this`hand, slots, disk
      ensures TableValid(disk.sectors, layout) && slots.Length == CACHE_SIZE && hand < CACHE_SIZE
      ensures hand == if written == CACHE_SIZE then 0 else written
      ensures var slot := old(slots[hand]);
        if !slot.valid then
          index == -1 && written == old(hand) && slots[..] == old(slots[..]) && disk.sectors == old(disk.sectors)
        else if slot.reference then
          && index == -1 && written == Ahead(old(hand), 1) && disk.sectors == old(disk.sectors)
          && slots[..] == old(slots[..])[old(hand) := slot.(reference := false)]
        else
          && index == old(hand) && written == old(hand) + 1
          && slots[..] == Dropped(old(slots[..]), old(hand))
          && disk.sectors == FlushedDisk(old(disk.sectors), layout, old(slots[..]), old(hand))
    {
      if !slots[hand].valid {
        return -1, hand;
      }
      if !slots[hand].reference {
        DropAtHand();
        index, written := hand, hand + 1;
        // the C code leaves out the wrap here; its other two increments have it
        hand := if hand + 1 < CACHE_SIZE then hand + 1 else 0;
        return;
      }
      slots[hand] := slots[hand].(reference := false);
      hand := hand + 1;
      if hand >= CACHE_SIZE {
        hand := 0;
      }
      return -1, hand;
    }

    /**
     * fs_inode_cache_evict ends within 128 probes and one more step. The victim is the first slot from the hand that
     * is invalid or unreferenced, or the hand's own after a full turn; only the reference bits it passes are cleared.
     */
    method Evict() returns (victim: nat, ghost written: nat)
      requires Valid()
      modifies this`hand, slots, disk
      ensures Valid() && victim == Victim(old(slots[..]), old(hand)) && hand == Ahead(victim, 1)
      ensures slots[..] == Evicted(old(slots[..]), old(hand))
      ensures disk.sectors == FlushedDisk(old(disk.sectors), layout, old(slots[..]), victim)
      ensures written == HandWritten(old(slots[..]), old(hand))
    {
      hide SlotsValid, Passed, Evicted, Dropped, FlushedDisk;
      ghost var slots0, disk0, hand0 := slots[..], disk.sectors, hand;
      ghost var k := Passed(slots0, hand0, 0);
      SlotsLength(slots0, layout.count);
      EvictKeeps(disk0, layout, slots0, hand0);
      SweepNone(slots0, hand0);
      EvictedIsDropped(slots0, hand0);
      for i := 0 to CACHE_SIZE
        invariant slots.Length == CACHE_SIZE && hand < CACHE_SIZE && disk.sectors == disk0
        invariant var j := if i <= k then i else k;
          hand == Ahead(hand0, j) && slots[..] == Swept(slots0, hand0, j)
        invariant i > k ==> !slots[hand].valid
      {
        ghost var j := if i <= k then i else k;
        SweepKeeps(disk0, layout, slots0, hand0, j);
        PassedHere(slots0, hand0, i);
        VictimBound(slots0, layout.count, hand);
        SweptDisk(disk0, layout, slots0, hand0, j, hand);
        var index;
        index, written := ProbeSlot();
        if index != -1 {
          victim := index;
          return;
        }
        AheadOne(hand0, j);
      }
      SweepKeeps(disk0, layout, slots0, hand0, k);
      PassedHere(slots0, hand0, 0);
      VictimBound(slots0, layout.count, hand);
      SweptDisk(disk0, layout, slots0, hand0, k, hand);
      DropAtHand();
      victim := hand;
      hand := hand + 1;
      if hand >= CACHE_SIZE {
        hand := hand - CACHE_SIZE;
      }
      written := hand;
    }

    /** fs_inode_cache_search: the slot caching the inode, or CACHE_SIZE for NULL. */
    method Search(n: nat) returns (i: nat)
      requires Valid()
      ensures i == SlotOf(slots[..], n, 0)
    {
      i := 0;
      while i < CACHE_SIZE
        invariant i <= CACHE_SIZE && SlotOf(slots[..], n, i) == SlotOf(slots[..], n, 0)
      {
        if slots[i].valid && slots[i].index == n {
          return;
        }
        i := i + 1;
      }
    }

    /** fs_inode_cache_add, for an inode no slot holds. The new slot is clean whether or not it repeats the table. */
    method Add(inode: Inode, n: nat) returns (i: nat)
      requires Valid() && n < layout.count && SlotOf(slots[..], n, 0) == CACHE_SIZE
      modifies this`hand, slots, disk
      ensures Valid() && i == Victim(old(slots[..]), old(hand)) && hand == Ahead(i, 1)
      ensures i < CACHE_SIZE && Caches(slots[..], i, n)
      ensures slots[..] == Evicted(old(slots[..]), old(hand))[i := Slot(inode, n, true, false, true)]
      ensures disk.sectors == FlushedDisk(old(disk.sectors), layout, old(slots[..]), i)
      ensures Record(disk.sectors, layout, n) == Record(old(disk.sectors), layout, n)
      ensures Logical(disk.sectors, layout, slots[..], n) == inode
      ensures Held(slots[..]) <= Held(old(slots[..])) + {n}
      ensures old(Coherent(disk.sectors, layout, slots[..])) ==>
        && (forall m: nat :: m < layout.count && m != n ==>
              Logical(disk.sectors, layout, slots[..], m) == old(Logical(disk.sectors, layout, slots[..], m)))
        && CoherentBut(disk.sectors, layout, slots[..], n)
        && (inode == Record(disk.sectors, layout, n) ==> Coherent(disk.sectors, layout, slots[..]))
    {
      hide Evicted, Passed, Logical, Coherent, CoherentBut, SlotsValid, Held;
      ghost var slots0, disk0, hand0 := slots[..], disk.sectors, hand;
      SlotsLength(slots0, layout.count);
      HeldAfterAdd(slots0, hand0, Victim(slots0, hand0), Slot(inode, n, true, false, true));
      EvictKeeps(disk0, layout, slots0, hand0);
      CoherentVictim(disk0, layout, slots0, Victim(slots0, hand0));
      NotCachedAfterEvict(disk0, layout, slots0, hand0, n);
      ghost var written;
      i, written := Evict();
      ghost var evicted := slots[..];
      slots[i] := Slot(inode, n, true, false, true);
      assert slots[..] == evicted[i := Slot(inode, n, true, false, true)];
      FillKeeps(disk.sectors, layout, evicted, i, inode, n);
    }

    /** fs_inode_get: the slot it answers holds the inode as the system sees it, and no inode changes. */
    method Get(n: nat) returns (i: nat)
      requires Valid() && n < layout.count
      modifies this`hand, slots, disk
      ensures Valid() && i < CACHE_SIZE && Caches(slots[..], i, n) && slots[i].reference
      ensures slots[i].inode == old(Logical(disk.sectors, layout, slots[..], n))
      ensures old(SlotOf(slots[..], n, 0)) < CACHE_SIZE ==>
        && hand == old(hand) && disk.sectors == old(disk.sectors)
        && slots[..] == old(slots[..])[i := old(slots[..])[i].(reference := true)]
      ensures old(SlotOf(slots[..], n, 0)) == CACHE_SIZE ==>
        && i == Victim(old(slots[..]), old(hand)) && hand == Ahead(i, 1)
        && slots[..] ==
           Evicted(old(slots[..]), old(hand))[i := Slot(Record(old(disk.sectors), layout, n), n, true, false, true)]
        && disk.sectors == FlushedDisk(old(disk.sectors), layout, old(slots[..]), i)
      ensures old(Coherent(disk.sectors, layout, slots[..])) ==>
        && Coherent(disk.sectors, layout, slots[..])
        && SameInodes(old(disk.sectors), old(slots[..]), disk.sectors, slots[..], layout)
      ensures Held(slots[..]) <= Held(old(slots[..])) + {n}
      ensures SameElsewhere(old(disk.sectors), disk.sectors, layout.start, TableSectors(layout))
    {
      hide Held;
      i := Search(n);
      ghost var slots0 := slots[..];
      ghost var v := Victim(slots0, hand);
      VictimBound(slots0, layout.count, v);
      FlushStaysInside(disk.sectors, layout, slots0, v);
      if i != CACHE_SIZE {
        HeldAfterChange(slots0, i, slots0[i].(reference := true));
        slots[i] := slots[i].(reference := true);
        assert slots[..] == slots0[i := slots0[i].(reference := true)];
        TouchKeeps(disk.sectors, layout, slots0, i);
        return;
      }
      var inode := disk.sectors[SectorOf(layout, n)][n % layout.perBlock];
      i := Add(inode, n);
    }

    /** What fs_inode_set_size and its kin do through the pointer fs_inode_get gave: change the inode, mark it dirty. */
    method Update(i: nat, inode: Inode)
      requires Valid() && i < CACHE_SIZE && slots[i].valid
      modifies slots
      ensures Valid()
      ensures slots[..] == old(slots[..])[i := old(slots[i]).(inode := inode, reference := true, dirty := true)]
      ensures Logical(disk.sectors, layout, slots[..], slots[i].index) == inode
      ensures forall m: nat :: m < layout.count && m != slots[i].index ==>
        Logical(disk.sectors, layout, slots[..], m) == old(Logical(disk.sectors, layout, slots[..], m))
      ensures old(Coherent(disk.sectors, layout, slots[..])
                  || CoherentBut(disk.sectors, layout, slots[..], slots[i].index)) ==>
        Coherent(disk.sectors, layout, slots[..])
      ensures Held(slots[..]) <= Held(old(slots[..]))
    {
      hide Held;
      ghost var slots0 := slots[..];
      HeldAfterChange(slots0, i, slots0[i].(inode := inode, reference := true, dirty := true));
      slots[i] := slots[i].(inode := inode, reference := true, dirty := true);
      assert slots[..] == slots0[i := slots0[i].(inode := inode, reference := true, dirty := true)];
      SlotUnique(slots0, layout.count, i);
      forall m: nat | m < layout.count
        ensures SlotOf(slots[..], m, 0) == SlotOf(slots0, m, 0)
      {
        SlotOfSame(slots0, slots[..], m);
      }
    }

    /** Any lookups: no inode changes. */
    method GetAll(others: seq<nat>)
      requires Valid() && Coherent(disk.sectors, layout, slots[..])
      requires forall k :: 0 <= k < |others| ==> others[k] < layout.count
      modifies this`hand, slots, disk
      ensures Valid() && Coherent(disk.sectors, layout, slots[..])
      ensures SameInodes(old(disk.sectors), old(slots[..]), disk.sectors, slots[..], layout)
    {
      hide SlotsValid, Logical, Coherent;
      for k := 0 to |others|
        invariant Valid() && Coherent(disk.sectors, layout, slots[..])
        invariant SameInodes(old(disk.sectors), old(slots[..]), disk.sectors, slots[..], layout)
      {
        var other := Get(others[k]);
      }
    }

    /** An inode changed through the cache is there again after any other accesses, evicted and read back or not. */
    method UpdateThenGet(i: nat, inode: Inode, others: seq<nat>) returns (j: nat)
      requires Valid() && Coherent(disk.sectors, layout, slots[..])
      requires i < CACHE_SIZE && slots[i].valid && forall k :: 0 <= k < |others| ==> others[k] < layout.count
      modifies this`hand, slots, disk
      ensures Valid() && Coherent(disk.sectors, layout, slots[..])
      ensures j < CACHE_SIZE && slots[j].inode == inode && Caches(slots[..], j, old(slots[i].index))
    {
      hide SlotsValid, Logical, Coherent;
      var n := slots[i].index;
      assert n < layout.count by { SlotsInTable(slots[..], layout.count, i); }
      Update(i, inode);
      GetAll(others);
      j := Get(n);
    }
  }

  lemma SlotsInTable(slots: seq<Slot>, count: nat, i: nat)
    requires SlotsValid(slots, count) && i < CACHE_SIZE && slots[i].valid
    ensures slots[i].index < count
  {
  }

  // ----- a created inode that is lost ---------------------------------------------------------

  /** Slot 0 holds the created inode 0, the slots behind it inodes 1 to n - 1 as in the table, the others nothing. */
  ghost predicate FilledTo(disk: Sectors, l: Layout, slots: seq<Slot>, made: Inode, n: nat)
    requires TableValid(disk, l) && n <= CACHE_SIZE < l.count
  {
    && |slots| == CACHE_SIZE && (0 < n ==> slots[0] == Slot(made, 0, true, false, true))
    && (forall k: nat :: 0 < k < n ==> slots[k] == Slot(Record(disk, l, k), k, true, false, true))
    && forall k: nat :: n <= k < CACHE_SIZE ==> !slots[k].valid && !slots[k].dirty
  }

  /** While the hand stands at an unused slot, that slot is the one taken, and nothing is written. */
  lemma FillNext(disk: Sectors, l: Layout, slots: seq<Slot>, made: Inode, n: nat, inode: Inode)
    requires TableValid(disk, l) && n < CACHE_SIZE < l.count && FilledTo(disk, l, slots, made, n)
    requires inode == if n == 0 then made else Record(disk, l, n)
    ensures SlotOf(slots, n, 0) == CACHE_SIZE && Victim(slots, n) == n && FlushedDisk(disk, l, slots, n) == disk
    ensures FilledTo(disk, l, Evicted(slots, n)[n := Slot(inode, n, true, false, true)], made, n + 1)
    ensures Ahead(n, 1) == if n + 1 < CACHE_SIZE then n + 1 else 0
  {
    SweepNone(slots, n);
    assert !Passable(slots[Ahead(n, 0)]);
    assert Passed(slots, n, 0) == 0;
  }

  lemma AllPassed(slots: seq<Slot>, hand: nat)
    requires |slots| == CACHE_SIZE && hand < CACHE_SIZE && forall k :: 0 <= k < CACHE_SIZE ==> Passable(slots[k])
    ensures Passed(slots, hand, 0) == CACHE_SIZE && Victim(slots, hand) == hand
  {
  }

  /** With every slot referenced the hand goes round once and takes the first, which is clean and is not written. */
  lemma FullTurn(disk: Sectors, l: Layout, slots: seq<Slot>, made: Inode, inode: Inode)
    requires TableValid(disk, l) && CACHE_SIZE < l.count && FilledTo(disk, l, slots, made, CACHE_SIZE)
    ensures SlotOf(slots, CACHE_SIZE, 0) == CACHE_SIZE && Victim(slots, 0) == 0
      && FlushedDisk(disk, l, slots, 0) == disk
    ensures var after := Evicted(slots, 0)[0 := Slot(inode, CACHE_SIZE, true, false, true)];
      && (forall k: nat :: k < CACHE_SIZE ==> !Caches(after, k, 0))
      && forall k: nat :: 0 < k < CACHE_SIZE ==> after[k] == slots[k].(reference := false)
  {
    hide SlotOf, Passed, Victim;
    AllPassed(slots, 0);
    NotCached(slots, CACHE_SIZE);
    assert Swept(slots, 0, CACHE_SIZE)[0].valid;
  }

  /**
   * A run that loses an inode: inode 0 is created and enters the cache clean, then inodes 1 to 128 are looked up. Its
   * slot is taken without a write, and the table still has the old record.
   */
  method LosesInode(disk: Drive<Sector>, layout: Layout, empty: Inode, made: Inode) returns (cache: Cache)
    requires TableValid(disk.sectors, layout) && CACHE_SIZE < layout.count && made != Record(disk.sectors, layout, 0)
    modifies disk
    ensures cache.Valid() && cache.disk == disk && cache.layout == layout && disk.sectors == old(disk.sectors)
    ensures Logical(disk.sectors, layout, cache.slots[..], 0) == Record(disk.sectors, layout, 0) != made
  {
    hide SlotsValid, Evicted, Victim, SlotOf, FlushedDisk, Coherent;
    cache := new Cache(disk, layout, empty);
    cache.NoneDirty();
    FillNext(disk.sectors, layout, cache.slots[..], made, 0, made);
    var first := cache.Add(made, 0);
    for n := 1 to CACHE_SIZE
      invariant cache.Valid() && disk.sectors == old(disk.sectors)
        && FilledTo(disk.sectors, layout, cache.slots[..], made, n)
      invariant cache.hand == if n < CACHE_SIZE then n else 0
    {
      FillNext(disk.sectors, layout, cache.slots[..], made, n, Record(disk.sectors, layout, n));
      var next := cache.Get(n);
    }
    FullTurn(disk.sectors, layout, cache.slots[..], made, Record(disk.sectors, layout, CACHE_SIZE));
    var last := cache.Get(CACHE_SIZE);
    NotCached(cache.slots[..], 0);
  }

  lemma NotCached(slots: seq<Slot>, n: nat)
    requires forall k: nat :: k < |slots| ==> !Caches(slots, k, n)
    ensures SlotOf(slots, n, 0) == |slots|
  {
  }

  // ----- a hand that runs past the slots ------------------------------------------------------

  /**
   * After a full turn: slots below n hold inodes 128 on, referenced, and the others inodes of their own numbers,
   * unreferenced.
   */
  ghost predicate SecondTurn(slots: seq<Slot>, n: nat) {
    && |slots| == CACHE_SIZE && n <= CACHE_SIZE
    && (forall k: nat :: k < n ==> slots[k].valid && slots[k].index == CACHE_SIZE + k)
    && forall k: nat :: n <= k < CACHE_SIZE ==>
        slots[k].valid && slots[k].index == k && !slots[k].reference && !slots[k].dirty
  }

  lemma SecondTurnStep(disk: Sectors, l: Layout, slots: seq<Slot>, n: nat, inode: Inode)
    requires TableValid(disk, l) && SecondTurn(slots, n) && n < CACHE_SIZE
    ensures SlotOf(slots, CACHE_SIZE + n, 0) == CACHE_SIZE && Victim(slots, n) == n
      && FlushedDisk(disk, l, slots, n) == disk
    ensures SecondTurn(Evicted(slots, n)[n := Slot(inode, CACHE_SIZE + n, true, false, true)], n + 1)
  {
    hide SlotOf;
    SweepNone(slots, n);
    assert !Passable(slots[Ahead(n, 0)]);
    assert Passed(slots, n, 0) == 0;
    NotCached(slots, CACHE_SIZE + n);
  }

  /**
   * A run up to that point: inodes 0 to 254 are looked up once each. The first 128 fill the slots, the next goes
   * round and clears every reference bit, and 126 more take one unreferenced slot each. The next miss leaves the hand
   * at 128.
   */
  method OverrunsHand(disk: Drive<Sector>, layout: Layout, empty: Inode) returns (cache: Cache)
    requires TableValid(disk.sectors, layout) && 255 < layout.count
    modifies disk
    ensures cache.Valid() && cache.disk == disk && cache.layout == layout
      && SlotOf(cache.slots[..], 255, 0) == CACHE_SIZE
    ensures HandWritten(cache.slots[..], cache.hand) == CACHE_SIZE
  {
    hide SlotsValid, Evicted, Victim, SlotOf, FlushedDisk, Coherent, HandWritten, Passed;
    cache := new Cache(disk, layout, empty);
    cache.NoneDirty();
    ghost var made := Record(disk.sectors, layout, 0);
    var next;
    for n := 0 to CACHE_SIZE
      invariant cache.Valid() && FilledTo(disk.sectors, layout, cache.slots[..], made, n)
      invariant disk.sectors == old(disk.sectors) && cache.hand == if n < CACHE_SIZE then n else 0
    {
      FillNext(disk.sectors, layout, cache.slots[..], made, n, Record(disk.sectors, layout, n));
      next := cache.Get(n);
    }
    FullTurn(disk.sectors, layout, cache.slots[..], made, Record(disk.sectors, layout, CACHE_SIZE));
    next := cache.Get(CACHE_SIZE);
    for n := 1 to CACHE_SIZE - 1
      invariant cache.Valid() && cache.hand == n && SecondTurn(cache.slots[..], n)
    {
      SecondTurnStep(disk.sectors, layout, cache.slots[..], n, Record(disk.sectors, layout, CACHE_SIZE + n));
      next := cache.Get(CACHE_SIZE + n);
    }
    SecondTurnStep(disk.sectors, layout, cache.slots[..], CACHE_SIZE - 1, empty);
    HandOverruns(cache.slots[..], cache.hand);
  }
}
