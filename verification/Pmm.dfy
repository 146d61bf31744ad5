/** The physical frame allocator of os/mm/pmm.c: a bitmap of 32-bit words and a used-block counter. */
module Pmm {
  import opened Common
  import opened Bits

  const BLOCK_SIZE: nat := 4096
  const LOW_WORD_COUNT: nat := 128
  const UINT32: nat := 0x1_0000_0000

  /** Frames are C ints multiplied by the block size, so an address stays below 2^31. */
  const FRAME_LIMIT: nat := 0x8_0000

  ghost predicate WordsValid(words: seq<nat>) {
    forall i :: 0 <= i < |words| ==> words[i] < UINT32
  }

  predicate Marked(words: seq<nat>, frame: nat)
    requires frame < 32 * |words|
  {
    Bit(words[frame / 32], frame % 32)
  }

  /** No frame below the limit is free. */
  ghost predicate AllMarked(words: seq<nat>, limit: nat)
    requires limit <= 32 * |words|
  {
    forall f: nat :: f < limit ==> Marked(words, f)
  }

  ghost function FreeFrames(words: seq<nat>, limit: nat): set<nat>
    requires limit <= 32 * |words|
  {
    set f: nat | f < limit && !Marked(words, f)
  }

  function MarkFrame(words: seq<nat>, frame: nat): seq<nat>
    requires frame < 32 * |words|
  {
    words[frame / 32 := SetBit(words[frame / 32], frame % 32)]
  }

  /** Setting one bit marks that frame and no other. */
  lemma MarkFrameMarks(words: seq<nat>, frame: nat)
    requires WordsValid(words) && frame < 32 * |words|
    ensures WordsValid(MarkFrame(words, frame))
    ensures forall f: nat :: f < 32 * |words| ==> Marked(MarkFrame(words, frame), f) == (Marked(words, f) || f == frame)
  {
    Pow2Constants();
    SetBitBits(words[frame / 32], frame % 32, 32);
    forall f: nat | f < 32 * |words|
      ensures Marked(MarkFrame(words, frame), f) == (Marked(words, f) || f == frame)
    {
      if f / 32 == frame / 32 {
        assert (f % 32 == frame % 32) == (f == frame);
      }
    }
  }

  lemma MarkShrinksFree(words: seq<nat>, limit: nat, frame: nat)
    requires WordsValid(words) && frame < limit <= 32 * |words| && !Marked(words, frame)
    ensures WordsValid(MarkFrame(words, frame))
    ensures Marked(words, 0) ==> Marked(MarkFrame(words, frame), 0)
    ensures |FreeFrames(words, limit)| > 0
    ensures |FreeFrames(MarkFrame(words, frame), limit)| == |FreeFrames(words, limit)| - 1
  {
    MarkFrameMarks(words, frame);
    assert frame in FreeFrames(words, limit);
    assert FreeFrames(MarkFrame(words, frame), limit) == FreeFrames(words, limit) - {frame};
  }

  /** How many more blocks can be handed out: both the counter and the bitmap must allow it. */
  ghost function SupplyOf(words: seq<nat>, limit: nat, left: nat): nat
    requires limit <= 32 * |words|
  {
    Min(left, |FreeFrames(words, limit)|)
  }

  lemma AllocTakesOne(words: seq<nat>, limit: nat, max: nat, used: nat, frame: nat)
    requires WordsValid(words) && frame < limit <= 32 * |words| && !Marked(words, frame)
    requires max < UINT32 && used < UINT32 && (max - used) % UINT32 != 0
    ensures WordsValid(MarkFrame(words, frame))
    ensures Marked(words, 0) ==> Marked(MarkFrame(words, frame), 0)
    ensures SupplyOf(words, limit, (max - used) % UINT32) > 0
    ensures SupplyOf(MarkFrame(words, frame), limit, (max - (used + 1) % UINT32) % UINT32)
         == SupplyOf(words, limit, (max - used) % UINT32) - 1
  {
    MarkShrinksFree(words, limit, frame);
    CounterStep(max, used);
  }

  lemma NoneFree(words: seq<nat>, limit: nat)
    requires limit <= 32 * |words|
    requires AllMarked(words, limit)
    ensures |FreeFrames(words, limit)| == 0
  {
    assert FreeFrames(words, limit) == {};
  }

  function UnmarkFrame(words: seq<nat>, frame: nat): seq<nat>
    requires frame < 32 * |words|
  {
    words[frame / 32 := ClearBit(words[frame / 32], frame % 32, 32)]
  }

  lemma UnmarkFrameUnmarks(words: seq<nat>, frame: nat)
    requires WordsValid(words) && frame < 32 * |words|
    ensures WordsValid(UnmarkFrame(words, frame))
    ensures forall f: nat :: f < 32 * |words| ==>
      Marked(UnmarkFrame(words, frame), f) == (Marked(words, f) && f != frame)
  {
    Pow2Constants();
    ClearBitBits(words[frame / 32], frame % 32, 32);
    forall f: nat | f < 32 * |words|
      ensures Marked(UnmarkFrame(words, frame), f) == (Marked(words, f) && f != frame)
    {
      if f / 32 == frame / 32 {
        assert (f % 32 == frame % 32) == (f == frame);
      }
    }
  }

  /** Marking then freeing a free frame gives the same words back. */
  lemma UnmarkUndoesMark(words: seq<nat>, frame: nat)
    requires WordsValid(words) && frame < 32 * |words| && !Marked(words, frame)
    ensures UnmarkFrame(MarkFrame(words, frame), frame) == words
  {
    var w, n := words[frame / 32], frame % 32;
    Pow2Constants();
    SetBitBits(w, n, 32);
    ClearBitBits(SetBit(w, n), n, 32);
    forall k: nat ensures Bit(ClearBit(SetBit(w, n), n, 32), k) == Bit(w, k) {}
    BitsDetermine(ClearBit(SetBit(w, n), n, 32), w);
  }

  /** Counting one more used block takes one off the unsigned difference when it is not zero. */
  lemma CounterStep(max: nat, used: nat)
    requires max < UINT32 && used < UINT32
    requires (max - used) % UINT32 != 0
    ensures (max - (used + 1) % UINT32) % UINT32 == (max - used) % UINT32 - 1
  {
  }

  /** The address is that of the lowest free frame below the limit, and that frame alone becomes marked. */
  ghost predicate TakesFirstFree(words: seq<nat>, words': seq<nat>, limit: nat, address: nat)
    requires limit <= 32 * |words|
  {
    && address % BLOCK_SIZE == 0
    && var frame := address / BLOCK_SIZE;
       && 0 < frame < limit
       && !Marked(words, frame)
       && AllMarked(words, frame)
       && words' == MarkFrame(words, frame)
  }

  lemma NothingLeft(words: seq<nat>, limit: nat)
    requires limit <= 32 * |words|
    ensures SupplyOf(words, limit, 0) == 0
    ensures forall left: nat :: |FreeFrames(words, limit)| == 0 ==> SupplyOf(words, limit, left) == 0
  {
  }

  class FrameAllocator {
    var memoryMap: array<nat>
    var usedBlocks: nat
    var maxBlocks: nat
    var initMode: bool

    ghost predicate Valid()
      reads this, memoryMap
    {
      && WordsValid(memoryMap[..])
      && LOW_WORD_COUNT <= memoryMap.Length
      && maxBlocks / 32 <= memoryMap.Length
      && 32 * memoryMap.Length <= FRAME_LIMIT
      && maxBlocks < UINT32 && usedBlocks < UINT32
      && Marked(memoryMap[..], 0)
    }

    /** pmm_max_blocks - pmm_used_blocks in unsigned arithmetic. */
    function CounterLeft(): nat
      reads this
    {
      (maxBlocks - usedBlocks) % UINT32
    }

    /** How many frames the search of the current mode looks at. */
    function SearchLimit(): nat
      reads this
    {
      32 * if initMode then LOW_WORD_COUNT else maxBlocks / 32
    }

    ghost function Supply(): nat
      requires Valid()
      reads this, memoryMap
    {
      SupplyOf(memoryMap[..], SearchLimit(), CounterLeft())
    }

    /** pmm_memory_map_find_free_block and pmm_memory_map_find_low_free_block differ only in the word count. */
    method FindFreeBlock(wordCount: nat) returns (frame: int)
      requires Valid() && wordCount <= memoryMap.Length
      ensures frame == -1 ==> AllMarked(memoryMap[..], 32 * wordCount)
      ensures frame != -1 ==> 0 <= frame < 32 * wordCount && !Marked(memoryMap[..], frame)
      ensures frame != -1 ==> AllMarked(memoryMap[..], frame)
    {
      for i := 0 to wordCount
        invariant AllMarked(memoryMap[..], 32 * i)
      {
        if memoryMap[i] == 0xFFFF_FFFF {
          forall f: nat | f < 32 * (i + 1) ensures Marked(memoryMap[..], f) {
            if f >= 32 * i {
              assert f / 32 == i;
              AllOnesBit(32, f % 32);
              Pow2Constants();
            }
          }
          continue;
        }
        for j := 0 to 32
          invariant AllMarked(memoryMap[..], 32 * i + j)
          invariant forall k: nat :: k < j ==> Bit(memoryMap[i], k)
        {
          var bit := i * 32 + j;
          assert bit / 32 == i && bit % 32 == j;
          TestBitIsBit(memoryMap[bit / 32], bit % 32);
          if !TestBit(memoryMap[bit / 32], bit % 32) {
            return bit;
          }
        }
      }
      return -1;
    }

    /**
     * pmm_alloc_block: 0 is the NULL of the C code; otherwise the address of the lowest free frame searched. That is
     * among the first 4096 in init mode, and among all whole words of the bitmap afterwards.
     */
    method AllocBlock() returns (address: nat)
      requires Valid()
      modifies this`usedBlocks, memoryMap
      ensures Valid()
      ensures address != 0 <==>
        old(usedBlocks) != maxBlocks
        && exists f :: 0 < f < (if initMode then 4096 else 32 * (maxBlocks / 32)) && !Marked(old(memoryMap[..]), f)
      ensures address != 0 ==>
        && address % 4096 == 0 && 0 < address / 4096 < (if initMode then 4096 else 32 * (maxBlocks / 32))
        && !Marked(old(memoryMap[..]), address / 4096)
        && (forall f :: 0 < f < address / 4096 ==> Marked(old(memoryMap[..]), f))
        && memoryMap[..] == MarkFrame(old(memoryMap[..]), address / 4096)
      ensures (address != 0) == (old(Supply()) > 0)
      ensures address == 0 ==> memoryMap[..] == old(memoryMap[..]) && usedBlocks == old(usedBlocks)
      ensures address != 0 ==>
        && TakesFirstFree(old(memoryMap[..]), memoryMap[..], SearchLimit(), address)
        && usedBlocks == (old(usedBlocks) + 1) % UINT32
        && Supply() == old(Supply()) - 1
    {
      hide SupplyOf, Marked, SetBit, WordsValid;
      ghost var words := memoryMap[..];
      if CounterLeft() <= 0 {
        NothingLeft(words, 32 * if initMode then LOW_WORD_COUNT else maxBlocks / 32);
        return 0;
      }
      var wordCount := if initMode then LOW_WORD_COUNT else maxBlocks / 32;
      var frame := FindFreeBlock(wordCount);
      if frame == -1 {
        NoneFree(words, 32 * wordCount);
        NothingLeft(words, 32 * wordCount);
        return 0;
      }
      AllocTakesOne(words, 32 * wordCount, maxBlocks, usedBlocks, frame);
      memoryMap[frame / 32] := SetBit(memoryMap[frame / 32], frame % 32);
      address := frame * BLOCK_SIZE;
      assert TakesFirstFree(words, memoryMap[..], 32 * wordCount, address);
      usedBlocks := (usedBlocks + 1) % UINT32;
    }

    /** pmm_free_block of a block handed out earlier. */
    method FreeBlock(address: nat)
      requires Valid()
      requires 0 < address / BLOCK_SIZE < 32 * memoryMap.Length
      modifies this`usedBlocks, memoryMap
      ensures Valid()
      ensures memoryMap[..] == UnmarkFrame(old(memoryMap[..]), address / BLOCK_SIZE)
      ensures usedBlocks == (old(usedBlocks) - 1) % UINT32
    {
      var frame := address / BLOCK_SIZE;
      UnmarkFrameUnmarks(memoryMap[..], frame);
      ghost var words := memoryMap[..];
      memoryMap[frame / 32] := ClearBit(memoryMap[frame / 32], frame % 32, 32);
      assert memoryMap[..] == UnmarkFrame(words, frame);
      usedBlocks := (usedBlocks - 1) % UINT32;
    }
  }
}
