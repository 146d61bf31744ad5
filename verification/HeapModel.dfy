/**
 * The buddy heap of os/mm/heap.c as a value: a tiling of the heap by aligned blocks, thirteen free
 * lists, and the set of blocks handed out.
 */
module HeapModel {
  import opened Common
  import opened Bits

  const START: nat := 0xFFFF_8000_0100_0000
  const SIZE: nat := 0x100_0000
  const END: nat := START + SIZE
  const MAX_ORDER: nat := 12

  /** heap_order_to_size */
  function BlockSize(order: nat): (size: nat)
    ensures size > 0
  {
    Pow2(order + 12)
  }

  type Blocks = map<nat, nat>

  /** blocks gives every block its order; lists holds the free ones, by order; held the others. */
  datatype State = State(lists: seq<seq<nat>>, blocks: Blocks, held: set<nat>)

  ghost predicate Fits(a: nat, order: nat) {
    order <= MAX_ORDER && a % BlockSize(order) == 0 && START <= a && a + BlockSize(order) <= END
  }

  ghost predicate Covers(blocks: Blocks, a: nat, x: nat) {
    a in blocks && a <= x < a + BlockSize(blocks[a])
  }

  ghost predicate Covered(blocks: Blocks, x: nat) {
    exists a :: Covers(blocks, a, x)
  }

  /** Blocks are aligned to their own size, pairwise disjoint, and leave no byte of the heap out. */
  ghost predicate Tiled(blocks: Blocks) {
    && (forall a :: a in blocks ==> Fits(a, blocks[a]))
    && (forall a, b :: a in blocks && b in blocks && a < b ==> a + BlockSize(blocks[a]) <= b)
    && (forall x: nat :: START <= x < END ==> Covered(blocks, x))
  }

  ghost predicate NoRepeats(list: seq<nat>) {
    forall i, j :: 0 <= i < j < |list| ==> list[i] != list[j]
  }

  /** List o holds exactly the free blocks of order o, each once. */
  ghost predicate Listed(s: State) {
    && |s.lists| == MAX_ORDER + 1
    && s.held <= s.blocks.Keys
    && (forall o :: 0 <= o <= MAX_ORDER ==> NoRepeats(s.lists[o]))
    && (forall o, a :: 0 <= o <= MAX_ORDER ==> (a in s.lists[o] <==> a in s.blocks && s.blocks[a] == o && a !in s.held))
  }

  ghost predicate Inv(s: State) {
    Tiled(s.blocks) && Listed(s)
  }

  function RemoveAt(list: seq<nat>, k: nat): seq<nat>
    requires k < |list|
  {
    list[..k] + list[k + 1..]
  }

  lemma RemoveAtContents(list: seq<nat>, k: nat)
    requires k < |list| && NoRepeats(list)
    ensures NoRepeats(RemoveAt(list, k))
    ensures forall a :: a in RemoveAt(list, k) <==> a in list && a != list[k]
  {
    var r := RemoveAt(list, k);
    forall a | a in list && a != list[k] ensures a in r {
      var i :| 0 <= i < |list| && list[i] == a;
      assert a == r[if i < k then i else i - 1];
    }
  }

  // ----- splitting ----------------------------------------------------------------------------

  function SplitBlocks(blocks: Blocks, a: nat, order: nat): Blocks
    requires order > 0
  {
    blocks[a := order - 1][a + BlockSize(order - 1) := order - 1]
  }

  /** One round of heap_split_block: the block leaves its list and its halves head the list below. */
  function SplitOnce(s: State, order: nat, k: nat): State
    requires |s.lists| == MAX_ORDER + 1 && 0 < order <= MAX_ORDER && k < |s.lists[order]|
  {
    var a := s.lists[order][k];
    var removed: seq<seq<nat>> := s.lists[order := RemoveAt(s.lists[order], k)];
    var halves := [a + BlockSize(order - 1), a] + s.lists[order - 1];
    State(removed[order - 1 := halves], SplitBlocks(s.blocks, a, order), s.held)
  }

  lemma HalvesFit(a: nat, order: nat)
    requires Fits(a, order) && order > 0
    ensures BlockSize(order) == 2 * BlockSize(order - 1)
    ensures Fits(a, order - 1) && Fits(a + BlockSize(order - 1), order - 1)
  {
    AlignedHalves(a, BlockSize(order - 1));
  }

  lemma AlignedHalves(a: nat, half: nat)
    requires half > 0 && a % (2 * half) == 0
    ensures a % half == 0 && (a + half) % half == 0
  {
    var q := a / (2 * half);
    assert a == (2 * half) * q;
    DoubleProduct(half, q);
    DoubleProductRight(half, q);
    DivModUnique(a, half, 2 * q, 0);
    DivModUnique(a + half, half, 2 * q + 1, 0);
  }

  lemma DoubleProductRight(m: nat, q: nat)
    ensures m * (2 * q) == 2 * (m * q) && m * (2 * q + 1) == 2 * (m * q) + m
  {
  }

  ghost predicate CanSplit(blocks: Blocks, a: nat, order: nat) {
    Tiled(blocks) && a in blocks && blocks[a] == order && order > 0
  }

  /** No block starts inside another, so the upper half's address is new. */
  lemma UpperHalfIsNew(blocks: Blocks, a: nat, order: nat)
    requires CanSplit(blocks, a, order)
    ensures BlockSize(order) == 2 * BlockSize(order - 1)
    ensures a + BlockSize(order - 1) !in blocks
  {
    hide BlockSize;
    HalvesFit(a, order);
  }

  lemma SplitKeepsCover(blocks: Blocks, a: nat, order: nat, x: nat)
    requires CanSplit(blocks, a, order) && START <= x < END
    ensures Covered(SplitBlocks(blocks, a, order), x)
  {
    hide BlockSize, Fits;
    HalvesFit(a, order);
    UpperHalfIsNew(blocks, a, order);
    var half, blocks' := BlockSize(order - 1), SplitBlocks(blocks, a, order);
    assert Covered(blocks, x);
    var b :| Covers(blocks, b, x);
    if b == a {
      assert Covers(blocks', if x < a + half then a else a + half, x);
    } else {
      assert Covers(blocks', b, x);
    }
  }

  lemma SplitKeepsTiling(blocks: Blocks, a: nat, order: nat)
    requires CanSplit(blocks, a, order)
    ensures Tiled(SplitBlocks(blocks, a, order))
  {
    hide BlockSize, Covered;
    HalvesFit(a, order);
    UpperHalfIsNew(blocks, a, order);
    var half, blocks' := BlockSize(order - 1), SplitBlocks(blocks, a, order);
    forall b, c | b in blocks' && c in blocks' && b < c ensures b + BlockSize(blocks'[b]) <= c {
      var b0, c0 := if b == a + half then a else b, if c == a + half then a else c;
      assert b0 in blocks && c0 in blocks;
      assert b0 < c0 ==> b0 + BlockSize(blocks[b0]) <= c0;
    }
    forall x: nat | START <= x < END ensures Covered(blocks', x) {
      SplitKeepsCover(blocks, a, order, x);
    }
  }

  lemma SplitKeepsLists(s: State, order: nat, k: nat, o: nat)
    requires Inv(s) && 0 < order <= MAX_ORDER && k < |s.lists[order]| && o <= MAX_ORDER
    ensures var s' := SplitOnce(s, order, k);
      && NoRepeats(s'.lists[o])
      && forall b :: b in s'.lists[o] <==> b in s'.blocks && s'.blocks[b] == o && b !in s'.held
  {
    hide BlockSize, Fits, Covered;
    var a := s.lists[order][k];
    assert a in s.lists[order];
    UpperHalfIsNew(s.blocks, a, order);
    var upper := a + BlockSize(order - 1);
    assert a != upper;
    RemoveAtContents(s.lists[order], k);
    assert upper !in s.lists[order - 1] && a !in s.lists[order - 1];
    var s' := SplitOnce(s, order, k);
    if o == order - 1 {
      assert s'.lists[o] == [upper, a] + s.lists[o];
    } else if o == order {
      assert s'.lists[o] == RemoveAt(s.lists[o], k);
    } else {
      assert s'.lists[o] == s.lists[o];
    }
  }

  lemma SplitKeepsInv(s: State, order: nat, k: nat)
    requires Inv(s) && 0 < order <= MAX_ORDER && k < |s.lists[order]|
    ensures Inv(SplitOnce(s, order, k))
  {
    hide BlockSize, Fits, Covered, NoRepeats;
    var s' := SplitOnce(s, order, k);
    assert s.lists[order][k] in s.lists[order];
    SplitKeepsTiling(s.blocks, s.lists[order][k], order);
    forall o | 0 <= o <= MAX_ORDER
      ensures NoRepeats(s'.lists[o])
      ensures forall b :: b in s'.lists[o] <==> b in s'.blocks && s'.blocks[b] == o && b !in s'.held
    {
      SplitKeepsLists(s, order, k, o);
    }
  }

  // ----- allocating and freeing ---------------------------------------------------------------

  /** heap_split_block down to the target order; its block is first in its list at the start and second afterwards. */
  function SplitDown(s: State, order: nat, target: nat, k: nat): State
    requires |s.lists| == MAX_ORDER + 1 && target <= order <= MAX_ORDER && k < |s.lists[order]|
    decreases order
  {
    if order == target then s else SplitDown(SplitOnce(s, order, k), order - 1, target, 1)
  }

  /** The lowest order from the given one on whose list has a block; MAX_ORDER + 1 when none has. */
  function FirstNonEmpty(s: State, order: nat): (f: nat)
    requires |s.lists| == MAX_ORDER + 1 && order <= MAX_ORDER + 1
    ensures order <= f <= MAX_ORDER + 1
    ensures f <= MAX_ORDER ==> s.lists[f] != []
    ensures forall o :: order <= o < f ==> s.lists[o] == []
    decreases MAX_ORDER + 1 - order
  {
    if order > MAX_ORDER || s.lists[order] != [] then order else FirstNonEmpty(s, order + 1)
  }

  function TakeHead(s: State, order: nat): State
    requires |s.lists| == MAX_ORDER + 1 && order <= MAX_ORDER && s.lists[order] != []
  {
    State(s.lists[order := s.lists[order][1..]], s.blocks, s.held + {s.lists[order][0]})
  }

  /** The state and the block an allocation of the given order yields. */
  function AllocStep(s: State, order: nat): (r: (State, Option<nat>))
    requires |s.lists| == MAX_ORDER + 1 && order <= MAX_ORDER + 1
    ensures |r.0.lists| == MAX_ORDER + 1
  {
    var f := FirstNonEmpty(s, order);
    if f > MAX_ORDER then (s, None)
    else
      SplitDownHasBlock(s, f, order, 0);
      var split := SplitDown(s, f, order, 0);
      (TakeHead(split, order), Some(split.lists[order][0]))
  }

  function FreeStep(s: State, a: nat): State
    requires |s.lists| == MAX_ORDER + 1 && a in s.blocks && s.blocks[a] <= MAX_ORDER
  {
    State(s.lists[s.blocks[a] := [a] + s.lists[s.blocks[a]]], s.blocks, s.held - {a})
  }

  lemma {:induction false} SplitDownHasBlock(s: State, order: nat, target: nat, k: nat)
    requires |s.lists| == MAX_ORDER + 1 && target <= order <= MAX_ORDER && k < |s.lists[order]|
    ensures |SplitDown(s, order, target, k).lists| == MAX_ORDER + 1
    ensures SplitDown(s, order, target, k).lists[target] != []
    decreases order
  {
    if order > target { SplitDownHasBlock(SplitOnce(s, order, k), order - 1, target, 1); }
  }

  /** The new blocks lie inside the old ones, and blocks handed out are left alone. */
  ghost predicate Refines(s: State, s': State) {
    && (forall b :: b in s'.blocks ==> Inside(s.blocks, b, s'.blocks[b]))
    && (forall a :: a in s.held && a in s.blocks ==> a in s'.blocks && s'.blocks[a] == s.blocks[a])
  }

  ghost predicate Inside(blocks: Blocks, b: nat, order: nat) {
    exists a :: a in blocks && Holds(a, blocks[a], b, order)
  }

  ghost predicate Holds(a: nat, order: nat, b: nat, order': nat) {
    a <= b && b + BlockSize(order') <= a + BlockSize(order) && order' <= order
  }

  lemma InsideSelf(blocks: Blocks, a: nat)
    requires a in blocks
    ensures Inside(blocks, a, blocks[a])
  {
    assert Holds(a, blocks[a], a, blocks[a]);
  }

  lemma SameBlocksRefine(s: State, s': State)
    requires s'.blocks == s.blocks
    ensures Refines(s, s')
  {
    forall b | b in s.blocks ensures Inside(s.blocks, b, s.blocks[b]) {
      InsideSelf(s.blocks, b);
    }
  }

  lemma RefinesTrans(s: State, t: State, u: State)
    requires Refines(s, t) && Refines(t, u) && s.held <= t.held
    ensures Refines(s, u)
  {
    hide BlockSize;
    forall c | c in u.blocks ensures Inside(s.blocks, c, u.blocks[c]) {
      assert Inside(t.blocks, c, u.blocks[c]);
      var b :| b in t.blocks && Holds(b, t.blocks[b], c, u.blocks[c]);
      assert Inside(s.blocks, b, t.blocks[b]);
      var a :| a in s.blocks && Holds(a, s.blocks[a], b, t.blocks[b]);
      assert Holds(a, s.blocks[a], c, u.blocks[c]);
    }
  }

  lemma SplitRefines(s: State, order: nat, k: nat)
    requires Inv(s) && 0 < order <= MAX_ORDER && k < |s.lists[order]|
    ensures Refines(s, SplitOnce(s, order, k))
  {
    hide BlockSize, Tiled, NoRepeats;
    var a := s.lists[order][k];
    assert a in s.lists[order];
    UpperHalfIsNew(s.blocks, a, order);
    var s' := SplitOnce(s, order, k);
    forall b | b in s'.blocks ensures Inside(s.blocks, b, s'.blocks[b]) {
      if b == a || b == a + BlockSize(order - 1) {
        assert Holds(a, order, b, s'.blocks[b]);
      } else {
        InsideSelf(s.blocks, b);
      }
    }
  }

  lemma {:induction false} SplitDownKeeps(s: State, order: nat, target: nat, k: nat)
    requires Inv(s) && target <= order <= MAX_ORDER && k < |s.lists[order]|
    ensures var s' := SplitDown(s, order, target, k);
      Inv(s') && s'.held == s.held && Refines(s, s')
    decreases order
  {
    hide Refines, Tiled, NoRepeats, BlockSize;
    if order == target {
      SameBlocksRefine(s, s);
    } else {
      var t := SplitOnce(s, order, k);
      SplitKeepsInv(s, order, k);
      SplitRefines(s, order, k);
      SplitDownKeeps(t, order - 1, target, 1);
      RefinesTrans(s, t, SplitDown(t, order - 1, target, 1));
    }
  }

  lemma TakeHeadListed(s: State, order: nat)
    requires Listed(s) && order <= MAX_ORDER && s.lists[order] != []
    ensures Listed(TakeHead(s, order))
    ensures s.lists[order][0] in s.blocks && s.blocks[s.lists[order][0]] == order && s.lists[order][0] !in s.held
  {
    var a, rest := s.lists[order][0], s.lists[order][1..];
    assert a in s.lists[order] && s.lists[order] == [a] + rest;
    var s' := TakeHead(s, order);
    forall o, b | 0 <= o <= MAX_ORDER
      ensures b in s'.lists[o] <==> b in s'.blocks && s'.blocks[b] == o && b !in s'.held
    {
      assert b in s.lists[o] <==> b in s.blocks && s.blocks[b] == o && b !in s.held;
      if o == order { assert b in s.lists[o] <==> b == a || b in rest; }
    }
  }

  lemma TakeHeadKeeps(s: State, order: nat)
    requires Inv(s) && order <= MAX_ORDER && s.lists[order] != []
    ensures var a := s.lists[order][0];
      a in s.blocks && s.blocks[a] == order && a !in s.held
    ensures Inv(TakeHead(s, order)) && Refines(s, TakeHead(s, order))
  {
    hide Tiled, Refines, NoRepeats;
    TakeHeadListed(s, order);
    SameBlocksRefine(s, TakeHead(s, order));
  }

  /**
   * An allocation of an order fails exactly when no list of that order or above has a block. Otherwise it hands
   * out one block of that order that was free, and disturbs no block handed out before.
   */
  lemma AllocKeeps(s: State, order: nat)
    requires Inv(s) && order <= MAX_ORDER + 1
    ensures var (s', r) := AllocStep(s, order);
      && Inv(s') && Refines(s, s')
      && (r.None? <==> forall o :: order <= o <= MAX_ORDER ==> s.lists[o] == [])
      && (r.None? ==> s' == s)
      && (r.Some? ==> r.value !in s.held && s'.held == s.held + {r.value}
                      && r.value in s'.blocks && s'.blocks[r.value] == order)
  {
    hide Tiled, Refines, BlockSize, NoRepeats;
    var f := FirstNonEmpty(s, order);
    if f > MAX_ORDER {
      SameBlocksRefine(s, s);
    } else {
      SplitDownHasBlock(s, f, order, 0);
      SplitDownKeeps(s, f, order, 0);
      var t := SplitDown(s, f, order, 0);
      TakeHeadKeeps(t, order);
      RefinesTrans(s, t, TakeHead(t, order));
    }
  }

  /** Splitting from a list that begins with a block's upper half and the block: each list on the way gains its half. */
  lemma {:induction false} SplitDownLists(s: State, order: nat, target: nat, upper: nat, a: nat, rest: seq<nat>)
    requires |s.lists| == MAX_ORDER + 1 && target <= order <= MAX_ORDER && s.lists[order] == [upper, a] + rest
    ensures var lists := SplitDown(s, order, target, 1).lists;
      && |lists| == MAX_ORDER + 1
      && (order == target ==> lists == s.lists)
      && (order > target ==>
            lists[order] == [upper] + rest && lists[target] == [a + BlockSize(target), a] + s.lists[target])
      && (forall o :: target < o < order ==> lists[o] == [a + BlockSize(o)] + s.lists[o])
      && (forall o :: 0 <= o <= MAX_ORDER && (o < target || o > order) ==> lists[o] == s.lists[o])
    decreases order
  {
    hide BlockSize, SplitOnce;
    if order > target {
      SplitSecond(s, order, upper, a, rest);
      SplitDownLists(SplitOnce(s, order, 1), order - 1, target, a + BlockSize(order - 1), a, s.lists[order - 1]);
    }
  }

  lemma SplitSecond(s: State, order: nat, upper: nat, a: nat, rest: seq<nat>)
    requires |s.lists| == MAX_ORDER + 1 && 0 < order <= MAX_ORDER && s.lists[order] == [upper, a] + rest
    ensures var s1 := SplitOnce(s, order, 1);
      && |s1.lists| == MAX_ORDER + 1 && s1.lists[order] == [upper] + rest
      && s1.lists[order - 1] == [a + BlockSize(order - 1), a] + s.lists[order - 1]
      && forall o :: 0 <= o <= MAX_ORDER && o != order && o != order - 1 ==> s1.lists[o] == s.lists[o]
  {
    hide BlockSize;
    assert RemoveAt(s.lists[order], 1) == [upper] + rest;
  }

  /** From a list of its own order the head is handed out. */
  lemma AllocHead(s: State, order: nat)
    requires |s.lists| == MAX_ORDER + 1 && order <= MAX_ORDER && s.lists[order] != []
    ensures AllocStep(s, order).1 == Some(s.lists[order][0])
    ensures AllocStep(s, order).0.lists == s.lists[order := s.lists[order][1..]]
  {
  }

  /**
   * Otherwise the head of the lowest list above is split. The upper half of the last split is handed out, its lower
   * half heads the list of that order, and every list in between gains the upper half of its order.
   */
  lemma AllocSplits(s: State, order: nat, f: nat)
    requires |s.lists| == MAX_ORDER + 1 && order < f <= MAX_ORDER && s.lists[f] != []
    requires forall o :: order <= o < f ==> s.lists[o] == []
    ensures var (s', r) := AllocStep(s, order);
      && r == Some(s.lists[f][0] + BlockSize(order))
      && s'.lists[order] == [s.lists[f][0]] && s'.lists[f] == s.lists[f][1..]
      && (forall o :: order < o < f ==> s'.lists[o] == [s.lists[f][0] + BlockSize(o)])
      && (forall o :: 0 <= o <= MAX_ORDER && (o < order || o > f) ==> s'.lists[o] == s.lists[o])
  {
    hide BlockSize, SplitDown, SplitOnce;
    assert f == FirstNonEmpty(s, order);
    var a := s.lists[f][0];
    SplitFirst(s, f, order);
    SplitDownLists(SplitOnce(s, f, 0), f - 1, order, a + BlockSize(f - 1), a, s.lists[f - 1]);
  }

  lemma SplitFirst(s: State, order: nat, target: nat)
    requires |s.lists| == MAX_ORDER + 1 && target < order <= MAX_ORDER && s.lists[order] != []
    ensures var s1, a := SplitOnce(s, order, 0), s.lists[order][0];
      && |s1.lists| == MAX_ORDER + 1 && SplitDown(s, order, target, 0) == SplitDown(s1, order - 1, target, 1)
      && s1.lists[order - 1] == [a + BlockSize(order - 1), a] + s.lists[order - 1]
      && s1.lists[order] == s.lists[order][1..]
      && forall o :: 0 <= o <= MAX_ORDER && o != order && o != order - 1 ==> s1.lists[o] == s.lists[o]
  {
    hide BlockSize;
    assert RemoveAt(s.lists[order], 0) == s.lists[order][1..];
  }

  lemma NoneAbove(s: State)
    requires |s.lists| == MAX_ORDER + 1
    ensures AllocStep(s, MAX_ORDER + 1).1 == None
  {
  }

  lemma FirstOrders()
    ensures OrderFrom(1, 0) == 0 && OrderFrom(0xFF_FFFE, 0) == 12 && OrderFrom(0xFF_FFFF, 0) == 13
  {
    hide BlockSize, OrderFrom;
    BlockSizes();
    HalfSize();
  }

  /**
   * The first request for one byte gets the second 4 KiB of the heap. The largest that can be met leaves two of its
   * 16 MiB, and gets the start.
   */
  lemma FirstAllocation()
    ensures Malloc(InitialState(), 1).1 == Some(0xFFFF_8000_0100_1000)
    ensures Malloc(InitialState(), 0xFF_FFFE).1 == Some(0xFFFF_8000_0100_0000)
    ensures Malloc(InitialState(), 0xFF_FFFF).1 == None
  {
    hide BlockSize, OrderFrom, AllocStep;
    BlockSizes();
    FirstOrders();
    AllocSplits(InitialState(), 0, 12);
    AllocHead(InitialState(), 12);
    NoneAbove(InitialState());
  }

  /** Freeing a held block puts back exactly that block, at the head of its own list, and merges nothing. */
  lemma FreeKeeps(s: State, a: nat)
    requires Inv(s) && a in s.held
    ensures s.blocks[a] <= MAX_ORDER
    ensures Inv(FreeStep(s, a)) && FreeStep(s, a).blocks == s.blocks
  {
    hide BlockSize;
    assert Fits(a, s.blocks[a]);
    var s', order := FreeStep(s, a), s.blocks[a];
    assert a !in s.lists[order];
    forall o, b | 0 <= o <= MAX_ORDER
      ensures b in s'.lists[o] <==> b in s'.blocks && s'.blocks[b] == o && b !in s'.held
    {
      assert b in s.lists[o] <==> b in s.blocks && s.blocks[b] == o && b !in s.held;
    }
  }

  // ----- requests and runs --------------------------------------------------------------------

  /** heap_size_to_order: the least order whose block is larger than the request with its one-byte header. */
  function OrderFrom(size: nat, order: nat): (r: nat)
    requires order <= MAX_ORDER + 1
    ensures order <= r <= MAX_ORDER + 1
    ensures r <= MAX_ORDER ==> size + 1 < BlockSize(r)
    ensures forall o :: order <= o < r ==> BlockSize(o) <= size + 1
    decreases MAX_ORDER + 1 - order
  {
    if order > MAX_ORDER || size + 1 < BlockSize(order) then order else OrderFrom(size, order + 1)
  }

  function Malloc(s: State, size: nat): (State, Option<nat>)
    requires |s.lists| == MAX_ORDER + 1
  {
    if size == 0 || size > SIZE then (s, None) else AllocStep(s, OrderFrom(size, 0))
  }

  datatype Op = Alloc(size: nat) | Free(block: nat)

  function Step(s: State, op: Op): (s': State)
    requires |s.lists| == MAX_ORDER + 1
    ensures |s'.lists| == MAX_ORDER + 1
  {
    match op
    case Alloc(size) => Malloc(s, size).0
    case Free(a) => if a in s.blocks && s.blocks[a] <= MAX_ORDER then FreeStep(s, a) else s
  }

  /** Every block a run frees is one handed out and not yet freed. */
  predicate RunAllowed(s: State, ops: seq<Op>)
    requires |s.lists| == MAX_ORDER + 1
    decreases |ops|
  {
    ops != [] ==> (ops[0].Free? ==> ops[0].block in s.held) && RunAllowed(Step(s, ops[0]), ops[1..])
  }

  function Run(s: State, ops: seq<Op>): (s': State)
    requires |s.lists| == MAX_ORDER + 1
    ensures |s'.lists| == MAX_ORDER + 1
    decreases |ops|
  {
    if ops == [] then s else Run(Step(s, ops[0]), ops[1..])
  }

  /** heap_init leaves one free block, the whole heap. */
  function InitialState(): State {
    State(seq(MAX_ORDER + 1, o => if o == MAX_ORDER then [START] else []), map[START := MAX_ORDER], {})
  }

  lemma BlockSizes()
    ensures BlockSize(0) == 0x1000 && BlockSize(MAX_ORDER) == SIZE
    ensures START % SIZE == 0
  {
    Pow2Constants();
    PowAdd(12, 12);
  }

  lemma HalfSize()
    ensures forall o :: 0 <= o < 12 ==> BlockSize(o) <= 0x80_0000
  {
    BlockSizes();
    assert BlockSize(12) == 2 * BlockSize(11);
    forall o | 0 <= o < 12 ensures BlockSize(o) <= 0x80_0000 { BlockSizeGrows(o, 11); }
  }

  lemma {:induction false} BlockSizeGrows(o: nat, p: nat)
    requires o <= p
    ensures BlockSize(o) <= BlockSize(p)
    decreases p
  {
    if o < p { BlockSizeGrows(o, p - 1); }
  }

  lemma InitialInv()
    ensures Inv(InitialState())
  {
    BlockSizes();
    var s := InitialState();
    forall x: nat | START <= x < END ensures Covered(s.blocks, x) {
      assert Covers(s.blocks, START, x);
    }
  }

  ghost predicate NoBlockFrom(s: State, order: nat) {
    forall a :: a in s.blocks ==> s.blocks[a] < order
  }

  lemma StepKeeps(s: State, op: Op, order: nat)
    requires Inv(s) && (op.Free? ==> op.block in s.held)
    ensures Inv(Step(s, op)) && Refines(s, Step(s, op))
    ensures NoBlockFrom(s, order) ==> NoBlockFrom(Step(s, op), order)
    ensures forall a :: a in s.held && op != Free(a) ==> a in Step(s, op).held
  {
    hide Tiled, BlockSize, Refines, NoBlockFrom;
    match op {
      case Alloc(size) =>
        SameBlocksRefine(s, s);
        AllocKeeps(s, OrderFrom(size, 0));
      case Free(a) =>
        FreeKeeps(s, a);
        SameBlocksRefine(s, FreeStep(s, a));
    }
    if NoBlockFrom(s, order) {
      RefinesLowersOrders(s, Step(s, op), order);
    }
  }

  lemma RefinesLowersOrders(s: State, s': State, order: nat)
    requires Refines(s, s') && NoBlockFrom(s, order)
    ensures NoBlockFrom(s', order)
  {
    hide BlockSize;
    forall b | b in s'.blocks ensures s'.blocks[b] < order {
      assert Inside(s.blocks, b, s'.blocks[b]);
      var a :| a in s.blocks && Holds(a, s.blocks[a], b, s'.blocks[b]);
    }
  }

  /** Over every run the heap stays exactly tiled and listed, and a size of block once used up never comes back. */
  lemma {:induction false} RunKeeps(s: State, ops: seq<Op>, order: nat)
    requires Inv(s) && |s.lists| == MAX_ORDER + 1 && RunAllowed(s, ops)
    ensures Inv(Run(s, ops))
    ensures NoBlockFrom(s, order) ==> NoBlockFrom(Run(s, ops), order)
    decreases |ops|
  {
    hide Tiled, Listed, NoBlockFrom, Refines, Step;
    if ops != [] {
      StepKeeps(s, ops[0], order);
      RunKeeps(Step(s, ops[0]), ops[1..], order);
    }
  }

  /** Bytes of two blocks handed out never overlap. */
  lemma HeldBlocksDisjoint(s: State, a: nat, b: nat, x: nat)
    requires Inv(s) && a in s.held && b in s.held && Covers(s.blocks, a, x) && Covers(s.blocks, b, x)
    ensures a == b
  {
  }

  /** A block of the largest order fills the heap, so beside any smaller block there is none. */
  lemma SmallExcludesLargest(s: State, a: nat)
    requires Inv(s) && a in s.blocks && s.blocks[a] < MAX_ORDER
    ensures NoBlockFrom(s, MAX_ORDER)
  {
    BlockSizes();
    forall b | b in s.blocks ensures s.blocks[b] < MAX_ORDER {
      assert Fits(b, s.blocks[b]) && Fits(a, s.blocks[a]);
    }
  }

  lemma NoBlockNoList(s: State, order: nat)
    requires Listed(s) && order <= MAX_ORDER && NoBlockFrom(s, order)
    ensures s.lists[order] == []
  {
    var list := s.lists[order];
    assert |list| > 0 ==> list[0] in list;
    forall a ensures a !in list {
      assert a in s.blocks ==> s.blocks[a] != order;
    }
  }

  /**
   * The merge guard of heap_free never fires, so splitting is for good: after any run and one allocation of
   * less than the largest order, no later run makes the largest block available again.
   */
  lemma SplittingIsForGood(s: State, order: nat, ops: seq<Op>)
    requires |s.lists| == MAX_ORDER + 1 && order < MAX_ORDER
    requires AllocStep(s, order).1.Some? && RunAllowed(AllocStep(s, order).0, ops)
    requires Inv(s)
    ensures AllocStep(Run(AllocStep(s, order).0, ops), MAX_ORDER).1 == None
  {
    hide Tiled, Refines, AllocStep;
    AllocKeeps(s, order);
    var (s1, r) := AllocStep(s, order);
    SmallExcludesLargest(s1, r.value);
    RunKeeps(s1, ops, MAX_ORDER);
    var s2 := Run(s1, ops);
    NoBlockNoList(s2, MAX_ORDER);
    assert forall o :: MAX_ORDER <= o <= MAX_ORDER ==> s2.lists[o] == [];
    AllocKeeps(s2, MAX_ORDER);
  }
}
