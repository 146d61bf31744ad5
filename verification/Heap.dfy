/** The buddy heap of os/mm/heap.c: free lists threaded through the free blocks, a header byte in the others. */
module Heap {
  import opened Common
  import opened Bits
  import opened HeapModel

  /** The 64-bit word at the start of each block: a next pointer while free, the order in its low byte while held. */
  type Words = map<nat, nat>

  /** The list starting at head runs through exactly these blocks and ends, so it has no cycle. */
  ghost predicate Chain(mem: Words, head: nat, list: seq<nat>)
    decreases |list|
  {
    if list == [] then head == 0
    else head == list[0] && head != 0 && head in mem && Chain(mem, mem[head], list[1..])
  }

  lemma {:induction false} ChainFrame(mem: Words, a: nat, w: nat, head: nat, list: seq<nat>)
    requires Chain(mem, head, list) && a !in list
    ensures Chain(mem[a := w], head, list)
    decreases |list|
  {
    if list != [] { ChainFrame(mem, a, w, mem[head], list[1..]); }
  }

  /** Where a chain stands after i steps. */
  lemma {:induction false} ChainFrom(mem: Words, head: nat, list: seq<nat>, i: nat)
    requires Chain(mem, head, list) && i < |list|
    ensures list[i] in mem && list[i] != 0 && Chain(mem, list[i], list[i..]) && Chain(mem, mem[list[i]], list[i + 1..])
    decreases |list|
  {
    if i > 0 {
      ChainFrom(mem, mem[head], list[1..], i - 1);
      assert list[1..][i - 1..] == list[i..] && list[1..][i..] == list[i + 1..];
    }
  }

  /** Pointing the predecessor past an element takes just that element out. */
  lemma {:induction false} ChainRemove(mem: Words, head: nat, list: seq<nat>, k: nat)
    requires Chain(mem, head, list) && NoRepeats(list) && 0 < k < |list|
    requires list[k - 1] in mem && list[k] in mem
    ensures Chain(mem[list[k - 1] := mem[list[k]]], head, RemoveAt(list, k))
    decreases |list|
  {
    var mem' := mem[list[k - 1] := mem[list[k]]];
    if k == 1 {
      assert mem[head] == list[1];
      assert RemoveAt(list, 1)[1..] == list[2..];
      ChainFrom(mem, head, list, 1);
      ChainFrame(mem, list[0], mem[list[1]], mem[list[1]], list[2..]);
    } else {
      assert RemoveAt(list, k)[1..] == RemoveAt(list[1..], k - 1);
      assert list[0] != list[k - 1];
      ChainRemove(mem, mem[head], list[1..], k - 1);
    }
  }

  ghost predicate Linked(mem: Words, heads: seq<nat>, lists: seq<seq<nat>>) {
    && |heads| == |lists| == MAX_ORDER + 1
    && forall o :: 0 <= o <= MAX_ORDER ==> Chain(mem, heads[o], lists[o])
  }

  ghost predicate InNoList(lists: seq<seq<nat>>, a: nat) {
    forall o :: 0 <= o < |lists| ==> a !in lists[o]
  }

  ghost predicate OnlyInList(lists: seq<seq<nat>>, order: nat) {
    forall o, a :: 0 <= o < |lists| && o != order && order < |lists| && a in lists[order] ==> a !in lists[o]
  }

  ghost predicate HeadersKept(mem: Words, s: State) {
    forall a :: a in s.held ==> a in mem && a in s.blocks && mem[a] % 256 == s.blocks[a]
  }

  lemma PushLinks(mem: Words, heads: seq<nat>, lists: seq<seq<nat>>, order: nat, a: nat)
    requires Linked(mem, heads, lists) && order <= MAX_ORDER && InNoList(lists, a) && a != 0
    ensures Linked(mem[a := heads[order]], heads[order := a], lists[order := [a] + lists[order]])
  {
    var mem' := mem[a := heads[order]];
    var heads', lists' := heads[order := a], lists[order := [a] + lists[order]];
    forall o | 0 <= o <= MAX_ORDER ensures Chain(mem', heads'[o], lists'[o]) {
      ChainFrame(mem, a, heads[order], heads[o], lists[o]);
      assert ([a] + lists[order])[1..] == lists[order];
    }
  }

  lemma UnlinkFirst(mem: Words, heads: seq<nat>, lists: seq<seq<nat>>, order: nat)
    requires Linked(mem, heads, lists) && order <= MAX_ORDER && lists[order] != []
    ensures heads[order] in mem
    ensures Linked(mem, heads[order := mem[heads[order]]], lists[order := RemoveAt(lists[order], 0)])
  {
    assert RemoveAt(lists[order], 0) == lists[order][1..];
  }

  lemma UnlinkLater(mem: Words, heads: seq<nat>, lists: seq<seq<nat>>, order: nat, k: nat)
    requires Linked(mem, heads, lists) && order <= MAX_ORDER && 0 < k < |lists[order]|
    requires NoRepeats(lists[order]) && OnlyInList(lists, order)
    ensures lists[order][k] in mem && lists[order][k - 1] in mem
    ensures Linked(mem[lists[order][k - 1] := mem[lists[order][k]]], heads, lists[order := RemoveAt(lists[order], k)])
  {
    var list := lists[order];
    ChainFrom(mem, heads[order], list, k);
    ChainFrom(mem, heads[order], list, k - 1);
    ChainRemove(mem, heads[order], list, k);
    forall o | 0 <= o <= MAX_ORDER && o != order
      ensures Chain(mem[list[k - 1] := mem[list[k]]], heads[o], lists[o])
    {
      assert list[k - 1] in list;
      ChainFrame(mem, list[k - 1], mem[list[k]], heads[o], lists[o]);
    }
  }

  lemma ListFacts(s: State, order: nat)
    requires Listed(s) && order <= MAX_ORDER
    ensures NoRepeats(s.lists[order]) && OnlyInList(s.lists, order)
    ensures forall a :: a in s.lists[order] ==> a !in s.held
  {
    forall o, a | 0 <= o <= MAX_ORDER && o != order && a in s.lists[order] ensures a !in s.lists[o] {
      assert a in s.lists[order] <==> a in s.blocks && s.blocks[a] == order && a !in s.held;
    }
  }

  /** Taken out of its own list, a free block is in none. */
  lemma RemovedInNoList(s: State, order: nat, k: nat)
    requires Listed(s) && order <= MAX_ORDER && k < |s.lists[order]|
    ensures InNoList(s.lists[order := RemoveAt(s.lists[order], k)], s.lists[order][k])
    ensures s.lists[order][k] in s.blocks && s.blocks[s.lists[order][k]] == order
  {
    var a := s.lists[order][k];
    assert a in s.lists[order];
    ListFacts(s, order);
    RemoveAtContents(s.lists[order], k);
  }

  /** An address at which no block starts is in no list, nor is it once a block is removed and pushed elsewhere. */
  lemma NewInNoList(s: State, order: nat, k: nat, u: nat)
    requires Listed(s) && 0 < order <= MAX_ORDER && k < |s.lists[order]| && u !in s.blocks
    ensures var a, removed := s.lists[order][k], RemoveAt(s.lists[order], k);
      InNoList(s.lists[order := removed][order - 1 := [a] + s.lists[order - 1]], u)
  {
    var a := s.lists[order][k];
    assert a in s.lists[order];
    RemoveAtContents(s.lists[order], k);
    assert forall o :: 0 <= o <= MAX_ORDER ==> u !in s.lists[o];
  }

  lemma FreeBlockFacts(s: State, order: nat, k: nat)
    requires Inv(s) && 0 < order <= MAX_ORDER && k < |s.lists[order]|
    ensures var a := s.lists[order][k];
      var upper := a + BlockSize(order - 1);
      && a in s.blocks && a !in s.held && a != 0 && upper != a && upper !in s.blocks && upper !in s.held
  {
    hide BlockSize, Covered;
    assert s.lists[order][k] in s.lists[order];
    UpperHalfIsNew(s.blocks, s.lists[order][k], order);
    assert Fits(s.lists[order][k], order);
  }

  lemma HeldInNoList(s: State, a: nat)
    requires Inv(s) && a in s.held
    ensures InNoList(s.lists, a) && a != 0
  {
    assert Fits(a, s.blocks[a]);
  }

  lemma BlockSizeEven(order: nat)
    ensures BlockSize(order) % 2 == 0
  {
  }

  lemma AlignedEven(a: nat, order: nat)
    requires a % BlockSize(order) == 0
    ensures a % 2 == 0
  {
    var m, q := Pow2(order + 11), a / BlockSize(order);
    assert a == (2 * m) * q;
    DoubleProduct(m, q);
  }

  lemma ListedFits(s: State, order: nat, a: nat)
    requires Inv(s) && order <= MAX_ORDER && a in s.lists[order]
    ensures Fits(a, order)
  {
    hide Covered, Fits, NoRepeats;
    assert a in s.blocks && Fits(a, s.blocks[a]);
  }

  /** The merge test of heap_free compares blocks with the user pointer, which is odd; blocks are even. */
  lemma BuddyGuardFails(block: nat, blockOrder: nat, current: nat, order: nat)
    requires Fits(block, blockOrder) && Fits(current, order)
    ensures current != Xor(block + 1, BlockSize(order))
  {
    hide BlockSize, Xor;
    AlignedEven(block, blockOrder);
    AlignedEven(current, order);
    BlockSizeEven(order);
    XorOdd(block + 1, BlockSize(order));
  }

  lemma XorOdd(a: nat, b: nat)
    requires a % 2 == 1 && b % 2 == 0
    ensures Xor(a, b) % 2 == 1
  {
    XorBit(a, b, 0);
  }

  lemma FitsOrder(a: nat, order: nat)
    requires Fits(a, order)
    ensures order <= MAX_ORDER
  {
  }

  function EmptyState(): State {
    State(seq(MAX_ORDER + 1, _ => []), map[], {})
  }

  class BuddyHeap {
    var mem: Words
    var freeList: array<nat>
    ghost var s: State

    ghost predicate LinkedUp()
      reads this, freeList
    {
      freeList.Length == MAX_ORDER + 1 && Linked(mem, freeList[..], s.lists) && HeadersKept(mem, s)
    }

    ghost predicate Valid()
      reads this, freeList
    {
      LinkedUp() && Inv(s)
    }

    /** heap_init on empty lists: one block of the largest order covers the whole heap. */
    constructor ()
      ensures Valid() && fresh(freeList) && s == InitialState()
    {
      mem := map[];
      freeList := new nat[MAX_ORDER + 1](_ => 0);
      s := EmptyState();
      new;
      BlockSizes();
      var start, remaining, order := START, SIZE, MAX_ORDER;
      while remaining >= 0x1000
        invariant LinkedUp() && fresh(freeList)
        invariant if remaining == 0 then s == EmptyState().(lists := InitialState().lists)
                  else start == START && remaining == SIZE && order == MAX_ORDER && s == EmptyState()
        decreases remaining
      {
        var blockSize := BlockSize(order);
        while remaining >= blockSize && start % blockSize == 0
          invariant LinkedUp() && fresh(freeList) && blockSize == BlockSize(MAX_ORDER) && order == MAX_ORDER
          invariant if remaining == 0 then s == EmptyState().(lists := InitialState().lists)
                    else start == START && remaining == SIZE && s == EmptyState()
          decreases remaining
        {
          AddBlock(order, start);
          assert [start] + EmptyState().lists[order] == [START];
          assert s.lists == InitialState().lists;
          start := start + blockSize;
          remaining := remaining - blockSize;
        }
        order := order - 1;
      }
      s := s.(blocks := map[START := MAX_ORDER]);
      InitialInv();
    }

    /** A store by the holder of a block, behind the header byte: any word that keeps the low byte. */
    method ClientStore(block: nat, word: nat)
      requires Valid() && block in s.held && word % 256 == mem[block] % 256
      modifies this`mem
      ensures Valid() && s == old(s)
    {
      HeldInNoList(s, block);
      forall o | 0 <= o <= MAX_ORDER ensures Chain(mem[block := word], freeList[o], s.lists[o]) {
        ChainFrame(mem, block, word, freeList[o], s.lists[o]);
      }
      mem := mem[block := word];
    }

    /** heap_add_block */
    method AddBlock(order: nat, start: nat)
      requires LinkedUp() && order <= MAX_ORDER
      requires start != 0 && InNoList(s.lists, start) && start !in s.held
      modifies this`mem, this`s, freeList
      ensures LinkedUp()
      ensures s == old(s).(lists := old(s).lists[order := [start] + old(s).lists[order]])
    {
      PushLinks(mem, freeList[..], s.lists, order, start);
      ghost var heads := freeList[..];
      mem := mem[start := freeList[order]];
      freeList[order] := start;
      s := s.(lists := s.lists[order := [start] + s.lists[order]]);
      assert freeList[..] == heads[order := start];
    }

    /** heap_del_block, for a block found at index k of its list. The C index is eight bits wide. */
    method DelBlock(order: nat, block: nat, ghost k: nat)
      requires LinkedUp() && order <= MAX_ORDER
      requires k < |s.lists[order]| && k < 256 && s.lists[order][k] == block
      requires NoRepeats(s.lists[order]) && OnlyInList(s.lists, order)
      requires forall a :: a in s.lists[order] ==> a !in s.held
      modifies this`mem, this`s, freeList
      ensures LinkedUp() && old(mem).Keys <= mem.Keys
      ensures s == old(s).(lists := old(s).lists[order := RemoveAt(old(s).lists[order], k)])
    {
      ghost var list, heads := s.lists[order], freeList[..];
      var current := freeList[order];
      var previous := 0;
      var listIndex := 0;
      ghost var i := 0;
      while current != 0
        invariant i <= k && listIndex == i
        invariant Chain(mem, current, list[i..])
        invariant i > 0 ==> previous == list[i - 1]
        decreases |list| - i
      {
        assert current == list[i];
        if block != current {
          assert list[i + 1..] == list[i..][1..];
          previous := current;
          current := mem[current];
          listIndex := (listIndex + 1) % 256;
          i := i + 1;
          continue;
        }
        assert i == k;
        if listIndex == 0 {
          UnlinkFirst(mem, freeList[..], s.lists, order);
          freeList[order] := mem[block];
          assert freeList[..] == heads[order := mem[block]];
        } else {
          UnlinkLater(mem, freeList[..], s.lists, order, k);
          assert list[k - 1] in list;
          mem := mem[previous := mem[current]];
          assert freeList[..] == heads;
        }
        s := s.(lists := s.lists[order := RemoveAt(list, k)]);
        return;
      }
    }

    /** The body of heap_split_block's loop. */
    method SplitRound(order: nat, block: nat, ghost k: nat)
      requires Valid() && 0 < order <= MAX_ORDER && k < |s.lists[order]| && k < 256 && s.lists[order][k] == block
      modifies this`mem, this`s, freeList
      ensures LinkedUp() && s == SplitOnce(old(s), order, k)
    {
      hide Tiled, Linked, NoRepeats, BlockSize;
      ghost var s0 := s;
      ListFacts(s, order);
      RemovedInNoList(s, order, k);
      FreeBlockFacts(s, order, k);
      NewInNoList(s, order, k, block + BlockSize(order - 1));
      DelBlock(order, block, k);
      AddBlock(order - 1, block);
      AddBlock(order - 1, block + BlockSize(order - 1));
      s := s.(blocks := SplitBlocks(s.blocks, block, order));
      assert s.lists[order - 1] == [block + BlockSize(order - 1), block] + s0.lists[order - 1];
      assert s.lists == SplitOnce(s0, order, k).lists;
    }

    /** heap_split_block. The block is at index k of its list: the head at first, then second behind its upper half. */
    method SplitBlock(from: nat, target: nat, block: nat)
      requires Valid() && target <= from <= MAX_ORDER
      requires s.lists[from] != [] && s.lists[from][0] == block
      modifies this`mem, this`s, freeList
      ensures Valid() && s == SplitDown(old(s), from, target, 0) && s.lists[target] != []
    {
      var order := from;
      ghost var k := 0;
      while order > target
        invariant target <= order <= from
        invariant Valid() && k < |s.lists[order]| && k < 256 && s.lists[order][k] == block
        invariant SplitDown(s, order, target, k) == SplitDown(old(s), from, target, 0)
      {
        SplitKeepsInv(s, order, k);
        SplitRound(order, block, k);
        order := order - 1;
        k := 1;
      }
    }

    /** heap_alloc_block: the head of the list, with its order stored in the header. 0 is NULL. */
    method AllocBlock(order: nat) returns (pointer: nat)
      requires Valid() && order <= MAX_ORDER
      modifies this`mem, this`s, freeList
      ensures Valid()
      ensures old(s).lists[order] == [] ==> pointer == 0 && s == old(s)
      ensures old(s).lists[order] != [] ==> pointer == old(s).lists[order][0] + 1 && s == TakeHead(old(s), order)
    {
      hide Tiled, NoRepeats, Refines, OnlyInList, Listed;
      if freeList[order] == 0 {
        return 0;
      }
      var block := freeList[order];
      ListFacts(s, order);
      RemovedInNoList(s, order, 0);
      TakeHeadKeeps(s, order);
      ghost var s0 := s;
      DelBlock(order, block, 0);
      s := s.(held := s.held + {block});
      assert RemoveAt(s0.lists[order], 0) == s0.lists[order][1..];
      ChainFrom(old(mem), block, s0.lists[order], 0);
      WriteHeader(block, order);
      return block + 1;
    }

    /** header->order = order: the low byte of the word at the block's start. */
    method WriteHeader(block: nat, order: nat)
      requires freeList.Length == MAX_ORDER + 1 && Linked(mem, freeList[..], s.lists)
      requires block in mem && InNoList(s.lists, block) && block in s.blocks && s.blocks[block] == order <= MAX_ORDER
      requires forall a :: a in s.held && a != block ==> a in mem && a in s.blocks && mem[a] % 256 == s.blocks[a]
      modifies this`mem
      ensures LinkedUp()
    {
      forall o | 0 <= o <= MAX_ORDER
        ensures Chain(mem[block := mem[block] - mem[block] % 256 + order], freeList[o], s.lists[o])
      {
        ChainFrame(mem, block, mem[block] - mem[block] % 256 + order, freeList[o], s.lists[o]);
      }
      mem := mem[block := mem[block] - mem[block] % 256 + order];
    }

    /** The search of heap_alloc for the lowest list with a block. */
    method FindOrder(originalOrder: nat) returns (order: nat)
      requires LinkedUp() && originalOrder <= MAX_ORDER + 1
      ensures order == FirstNonEmpty(s, originalOrder)
      ensures order <= MAX_ORDER ==>
        freeList[order] != 0 && s.lists[order] != [] && freeList[order] == s.lists[order][0]
    {
      order := originalOrder;
      while order <= MAX_ORDER
        invariant originalOrder <= order <= MAX_ORDER + 1
        invariant FirstNonEmpty(s, order) == FirstNonEmpty(s, originalOrder)
      {
        if freeList[order] != 0 {
          break;
        }
        order := order + 1;
      }
    }

    /** heap_alloc. 0 is NULL; otherwise the request fits in the block handed out, behind the header byte. */
    method Allocate(size: nat) returns (pointer: nat)
      requires Valid()
      modifies this`mem, this`s, freeList
      ensures Valid()
      ensures (s, if pointer == 0 then None else Some(pointer - 1)) == Malloc(old(s), size)
      ensures pointer == 0 <==>
        size == 0 || size > SIZE || forall o :: OrderFrom(size, 0) <= o <= MAX_ORDER ==> old(s).lists[o] == []
      ensures pointer != 0 ==>
        && pointer - 1 !in old(s).held && s.held == old(s).held + {pointer - 1}
        && pointer - 1 in s.blocks && pointer + size <= pointer - 1 + BlockSize(s.blocks[pointer - 1])
    {
      hide Tiled, Refines, NoRepeats, BlockSize, SplitOnce, Linked, Listed;
      BlockSizes();
      if size == 0 || size > BlockSize(MAX_ORDER) {
        return 0;
      }
      var originalOrder := SizeToOrder(size);
      AllocKeeps(s, originalOrder);
      var order := FindOrder(originalOrder);
      // heap_free_list has no entry 13; reading past it is taken to find nothing
      if order > MAX_ORDER || freeList[order] == 0 {
        return 0;
      }
      if order != originalOrder {
        SplitBlock(order, originalOrder, freeList[order]);
      }
      pointer := AllocBlock(originalOrder);
    }

    /** heap_size_to_order */
    method SizeToOrder(size: nat) returns (order: nat)
      ensures order == OrderFrom(size, 0)
    {
      order := 0;
      var total := size + 1;
      var blockSize := 0x1000;
      BlockSizes();
      while blockSize <= total && order <= MAX_ORDER
        invariant order <= MAX_ORDER + 1 && blockSize == BlockSize(order)
        invariant OrderFrom(size, order) == OrderFrom(size, 0)
        decreases MAX_ORDER + 1 - order
      {
        order := order + 1;
        blockSize := 2 * blockSize;
      }
    }

    /** heap_free of NULL or of a pointer handed out and not yet freed. The merge is never reached. */
    method Free(pointer: nat)
      requires Valid() && (pointer != 0 ==> pointer - 1 in s.held)
      modifies this`mem, this`s, freeList
      ensures Valid()
      ensures s == if pointer == 0 then old(s) else Step(old(s), HeapModel.Free(pointer - 1))
      ensures s.blocks == old(s).blocks && s.held == old(s).held - {pointer - 1}
    {
      hide Tiled, Fits, NoRepeats, BlockSize, Linked;
      if pointer == 0 {
        return;
      }
      var block := pointer - 1;
      var blockOrder := mem[block] % 256;
      ghost var s0 := s;
      PutBack(block, blockOrder);
      var order := blockOrder;
      var merged := true;
      while merged && order <= MAX_ORDER
        invariant order >= 0 && Valid() && s == FreeStep(s0, block)
        decreases if merged then 1 else 0
      {
        merged := FindBuddy(pointer, order, blockOrder);
        order := if merged then order + 1 else order;
      }
    }

    /** The freed block goes to the head of the list of its order. */
    method PutBack(block: nat, order: nat)
      requires Valid() && block in s.held && order == s.blocks[block]
      modifies this`mem, this`s, freeList
      ensures order <= MAX_ORDER && Fits(block, order)
      ensures Valid() && s == FreeStep(old(s), block)
    {
      hide Covered, NoRepeats, Fits;
      assert Fits(block, s.blocks[block]);
      FitsOrder(block, order);
      FreeKeeps(s, block);
      HeldInNoList(s, block);
      s := s.(held := s.held - {block});
      AddBlock(order, block);
    }

    /** The search heap_free makes of one list for a buddy to merge with. It never finds one. */
    method FindBuddy(pointer: nat, order: nat, ghost blockOrder: nat) returns (merged: bool)
      requires Valid() && order <= MAX_ORDER && pointer > 0 && Fits(pointer - 1, blockOrder)
      ensures !merged
    {
      hide Tiled, Listed, Fits, BlockSize;
      var current := freeList[order];
      merged := false;
      ghost var i := 0;
      while current != 0
        invariant !merged && i <= |s.lists[order]| && Chain(mem, current, s.lists[order][i..])
        decreases |s.lists[order]| - i
      {
        assert current == s.lists[order][i] && current in s.lists[order];
        ListedFits(s, order, current);
        BuddyGuardFails(pointer - 1, blockOrder, current, order);
        if current != Xor(pointer, BlockSize(order)) {
          assert s.lists[order][i..][1..] == s.lists[order][i + 1..];
          current := mem[current];
          i := i + 1;
          continue;
        }
        assert false;
      }
    }
  }
}
