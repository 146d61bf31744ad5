/** A bitmap held in blocks of 64 words of 64 bits, as a value: which bits are set, and how many. */
module BitmapModel {
  import opened Common
  import opened Bits

  const WORD_BITS: nat := 64
  const BLOCK_WORDS: nat := 64
  const BLOCK_BITS: nat := 4096

  type Block = seq<nat>
  type Blocks = seq<Block>

  ghost predicate BlockValid(block: Block) {
    |block| == BLOCK_WORDS && forall i :: 0 <= i < BLOCK_WORDS ==> block[i] < UINT64
  }

  ghost predicate BlocksValid(blocks: Blocks) {
    forall b :: 0 <= b < |blocks| ==> BlockValid(blocks[b])
  }

  /** The word of a block that holds a bit: (bit % (block_size * 8)) / 64. */
  function WordIndex(bit: nat): (w: nat)
    ensures w < BLOCK_WORDS
  {
    bit % BLOCK_BITS / WORD_BITS
  }

  /** The loaded block's bit at the offset a bit has within its own block. */
  predicate BitAt(block: Block, bit: nat)
    requires |block| == BLOCK_WORDS
  {
    Bit(block[WordIndex(bit)], bit % WORD_BITS)
  }

  predicate IsSet(blocks: Blocks, bit: nat) {
    bit / BLOCK_BITS < |blocks| && |blocks[bit / BLOCK_BITS]| == BLOCK_WORDS && BitAt(blocks[bit / BLOCK_BITS], bit)
  }

  /** How many bits below n are set. */
  function Count(blocks: Blocks, n: nat): (c: nat)
    ensures c <= n
  {
    if n == 0 then 0 else Count(blocks, n - 1) + if IsSet(blocks, n - 1) then 1 else 0
  }

  /** Every bit below the limit is set. */
  ghost predicate Full(blocks: Blocks, limit: nat) {
    forall bit: nat :: bit < limit ==> IsSet(blocks, bit)
  }

  ghost predicate Padded(blocks: Blocks, from: nat, limit: nat) {
    forall bit: nat :: from <= bit < limit ==> IsSet(blocks, bit)
  }

  /** The two bitmaps differ at most in one bit below the limit. */
  ghost predicate AgreeExcept(blocks: Blocks, blocks': Blocks, bit: nat, limit: nat) {
    forall b: nat :: b < limit && b != bit ==> IsSet(blocks', b) == IsSet(blocks, b)
  }

  lemma {:induction false} CountAgrees(blocks: Blocks, blocks': Blocks, n: nat)
    requires forall b: nat :: b < n ==> IsSet(blocks', b) == IsSet(blocks, b)
    ensures Count(blocks', n) == Count(blocks, n)
  {
    if n > 0 { CountAgrees(blocks, blocks', n - 1); }
  }

  /** Changing one bit changes the count by one. */
  lemma {:induction false} CountFlip(blocks: Blocks, blocks': Blocks, bit: nat, n: nat)
    requires bit < n && AgreeExcept(blocks, blocks', bit, n)
    requires !IsSet(blocks, bit) && IsSet(blocks', bit)
    ensures Count(blocks', n) == Count(blocks, n) + 1
  {
    hide IsSet;
    if bit == n - 1 {
      CountAgrees(blocks, blocks', n - 1);
    } else {
      CountFlip(blocks, blocks', bit, n - 1);
    }
  }

  /** The count reaches n exactly when no bit below n is clear. */
  lemma {:induction false} CountFull(blocks: Blocks, n: nat)
    ensures Count(blocks, n) == n <==> Full(blocks, n)
  {
    hide IsSet;
    if n > 0 { CountFull(blocks, n - 1); }
  }

  /** The words of one block with one bit changed by an operation on its word. */
  lemma SetChangesOneBit(block: Block, bit: nat)
    requires BlockValid(block)
    ensures var block' := block[WordIndex(bit) := SetBit(block[WordIndex(bit)], bit % WORD_BITS)];
      && BlockValid(block')
      && forall b: nat :: BitAt(block', b) == (BitAt(block, b) || b % BLOCK_BITS == bit % BLOCK_BITS)
  {
    Pow2Constants();
    SetBitBits(block[WordIndex(bit)], bit % WORD_BITS, 64);
    SameOffset(bit);
  }

  lemma ClearChangesOneBit(block: Block, bit: nat)
    requires BlockValid(block)
    ensures var block' := block[WordIndex(bit) := ClearBit(block[WordIndex(bit)], bit % WORD_BITS, 64)];
      && BlockValid(block')
      && forall b: nat :: BitAt(block', b) == (BitAt(block, b) && b % BLOCK_BITS != bit % BLOCK_BITS)
  {
    Pow2Constants();
    ClearBitBits(block[WordIndex(bit)], bit % WORD_BITS, 64);
    SameOffset(bit);
  }

  lemma SameOffset(bit: nat)
    ensures forall b: nat :: (WordIndex(b) == WordIndex(bit) && b % WORD_BITS == bit % WORD_BITS) <==>
      b % BLOCK_BITS == bit % BLOCK_BITS
  {
    forall b: nat
      ensures (WordIndex(b) == WordIndex(bit) && b % WORD_BITS == bit % WORD_BITS) <==>
        b % BLOCK_BITS == bit % BLOCK_BITS
    {
      OffsetSplits(b);
      OffsetSplits(bit);
    }
  }

  lemma OffsetSplits(b: nat)
    ensures b % BLOCK_BITS == WORD_BITS * WordIndex(b) + b % WORD_BITS
  {
  }

  /** Replacing one block by a copy with one bit changed changes that bit of the bitmap and no other. */
  lemma ReplaceBlock(blocks: Blocks, index: nat, block': Block, bit: nat, limit: nat)
    requires BlocksValid(blocks) && index < |blocks| && BlockValid(block') && bit / BLOCK_BITS == index
    requires forall b: nat :: b % BLOCK_BITS != bit % BLOCK_BITS ==> BitAt(block', b) == BitAt(blocks[index], b)
    ensures AgreeExcept(blocks, blocks[index := block'], bit, limit)
    ensures IsSet(blocks[index := block'], bit) == BitAt(block', bit)
  {
  }

  // ----- popcounts ----------------------------------------------------------------------------

  function BlockPopcount(block: Block, n: nat): nat
    requires n <= |block|
  {
    if n == 0 then 0 else BlockPopcount(block, n - 1) + Popcount(block[n - 1])
  }

  function TotalPopcount(blocks: Blocks, n: nat): nat
    requires n <= |blocks|
  {
    if n == 0 then 0 else TotalPopcount(blocks, n - 1) + BlockPopcount(blocks[n - 1], |blocks[n - 1]|)
  }

  /** How many of bits 0 to n - 1 of a word are set. */
  function WordCount(w: nat, n: nat): nat {
    if n == 0 then 0 else WordCount(w, n - 1) + if Bit(w, n - 1) then 1 else 0
  }

  lemma {:induction false} WordCountHalves(w: nat, n: nat)
    ensures WordCount(w, n + 1) == w % 2 + WordCount(w / 2, n)
  {
    if n > 0 { WordCountHalves(w, n - 1); }
  }

  lemma {:induction false} WordCountIsPopcount(w: nat, width: nat)
    requires w < Pow2(width)
    ensures WordCount(w, width) == Popcount(w)
  {
    if width > 0 {
      WordCountHalves(w, width - 1);
      WordCountIsPopcount(w / 2, width - 1);
    }
  }

  lemma FullWordCount(w: nat)
    requires w < UINT64
    ensures WordCount(w, WORD_BITS) == Popcount(w)
  {
    Pow2Constants();
    WordCountIsPopcount(w, WORD_BITS);
  }

  /** The bits of word i of block b, counted up to n. */
  lemma {:induction false} CountWithinWord(blocks: Blocks, b: nat, i: nat, n: nat)
    requires BlocksValid(blocks) && b < |blocks| && i < BLOCK_WORDS && n <= WORD_BITS
    ensures Count(blocks, BLOCK_BITS * b + WORD_BITS * i + n)
         == Count(blocks, BLOCK_BITS * b + WORD_BITS * i) + WordCount(blocks[b][i], n)
  {
    if n > 0 {
      CountWithinWord(blocks, b, i, n - 1);
      BitPlace(b, i, n - 1);
    }
  }

  lemma BitPlace(b: nat, i: nat, k: nat)
    requires i < BLOCK_WORDS && k < WORD_BITS
    ensures var bit := BLOCK_BITS * b + WORD_BITS * i + k;
      bit / BLOCK_BITS == b && WordIndex(bit) == i && bit % WORD_BITS == k
  {
  }

  lemma {:induction false} CountWithinBlock(blocks: Blocks, b: nat, i: nat)
    requires BlocksValid(blocks) && b < |blocks| && i <= BLOCK_WORDS
    ensures Count(blocks, BLOCK_BITS * b + WORD_BITS * i) == Count(blocks, BLOCK_BITS * b) + BlockPopcount(blocks[b], i)
  {
    hide Popcount, WordCount, IsSet, Count;
    if i > 0 {
      CountWithinBlock(blocks, b, i - 1);
      CountWithinWord(blocks, b, i - 1, WORD_BITS);
      FullWordCount(blocks[b][i - 1]);
    }
  }

  /** Summing the popcounts of every word counts the set bits, padding included. */
  lemma {:induction false} PopcountCounts(blocks: Blocks, n: nat)
    requires BlocksValid(blocks) && n <= |blocks|
    ensures TotalPopcount(blocks, n) == Count(blocks, BLOCK_BITS * n)
  {
    if n > 0 {
      PopcountCounts(blocks, n - 1);
      CountWithinBlock(blocks, n - 1, BLOCK_WORDS);
    }
  }

  lemma {:induction false} CountAbove(blocks: Blocks, n: nat, m: nat)
    requires n <= m && Padded(blocks, n, m)
    ensures Count(blocks, m) == Count(blocks, n) + (m - n)
  {
    if n < m { CountAbove(blocks, n, m - 1); }
  }

  // ----- the order in which clear bits are handed out ------------------------------------------

  /** The clear bits from lo up to hi, in increasing order. */
  function ClearBits(blocks: Blocks, lo: nat, hi: nat): seq<nat>
    decreases hi - lo
  {
    if lo >= hi then []
    else if IsSet(blocks, lo) then ClearBits(blocks, lo + 1, hi)
    else [lo] + ClearBits(blocks, lo + 1, hi)
  }

  /** The clear bits below total from the start of a block on, then those before it. */
  function FreeOrder(blocks: Blocks, first: nat, total: nat): seq<nat> {
    var start := Min(BLOCK_BITS * first, total);
    ClearBits(blocks, start, total) + ClearBits(blocks, 0, start)
  }

  lemma {:induction false} ClearBitsSplit(blocks: Blocks, lo: nat, mid: nat, hi: nat)
    requires lo <= mid <= hi
    ensures ClearBits(blocks, lo, hi) == ClearBits(blocks, lo, mid) + ClearBits(blocks, mid, hi)
    decreases mid - lo
  {
    if lo < mid { ClearBitsSplit(blocks, lo + 1, mid, hi); }
  }

  lemma {:induction false} NoClearBits(blocks: Blocks, lo: nat, hi: nat)
    requires forall bit: nat :: lo <= bit < hi ==> IsSet(blocks, bit)
    ensures ClearBits(blocks, lo, hi) == []
    decreases hi - lo
  {
    if lo < hi { NoClearBits(blocks, lo + 1, hi); }
  }

  lemma {:induction false} AllClearBits(blocks: Blocks, lo: nat, hi: nat)
    requires lo <= hi && forall bit: nat :: lo <= bit < hi ==> !IsSet(blocks, bit)
    ensures |ClearBits(blocks, lo, hi)| == hi - lo
    ensures forall k: nat :: k < hi - lo ==> ClearBits(blocks, lo, hi)[k] == lo + k
    decreases hi - lo
  {
    hide IsSet;
    if lo < hi {
      AllClearBits(blocks, lo + 1, hi);
      assert ClearBits(blocks, lo, hi) == [lo] + ClearBits(blocks, lo + 1, hi);
    }
  }

  lemma {:induction false} ClearBitsAgree(blocks: Blocks, blocks': Blocks, lo: nat, hi: nat)
    requires forall bit: nat :: lo <= bit < hi ==> IsSet(blocks', bit) == IsSet(blocks, bit)
    ensures ClearBits(blocks', lo, hi) == ClearBits(blocks, lo, hi)
    decreases hi - lo
  {
    if lo < hi { ClearBitsAgree(blocks, blocks', lo + 1, hi); }
  }

  ghost predicate Increasing(s: seq<nat>) {
    forall i, j :: 0 <= i < j < |s| ==> s[i] < s[j]
  }

  lemma ClearBitsHead(blocks: Blocks, lo: nat, hi: nat)
    requires lo < hi
    ensures IsSet(blocks, lo) ==> ClearBits(blocks, lo, hi) == ClearBits(blocks, lo + 1, hi)
    ensures !IsSet(blocks, lo) ==> ClearBits(blocks, lo, hi) == [lo] + ClearBits(blocks, lo + 1, hi)
    ensures ClearBits(blocks, hi, hi) == []
  {
  }

  /** The list holds exactly the clear bits of the range, each once. */
  lemma {:induction false} ClearBitsExact(blocks: Blocks, lo: nat, hi: nat)
    ensures forall bit: nat :: bit in ClearBits(blocks, lo, hi) <==> lo <= bit < hi && !IsSet(blocks, bit)
    ensures Increasing(ClearBits(blocks, lo, hi))
    decreases hi - lo
  {
    hide IsSet, ClearBits, Increasing;
    if lo < hi {
      var rest := ClearBits(blocks, lo + 1, hi);
      ClearBitsExact(blocks, lo + 1, hi);
      ClearBitsHead(blocks, lo, hi);
      forall bit: nat
        ensures bit in ClearBits(blocks, lo, hi) <==> lo <= bit < hi && !IsSet(blocks, bit)
      {
        assert bit in rest <==> lo + 1 <= bit < hi && !IsSet(blocks, bit);
      }
      IncreasingCons(lo, rest);
    } else {
      EmptyRange(blocks, lo, hi);
    }
  }

  lemma EmptyRange(blocks: Blocks, lo: nat, hi: nat)
    requires lo >= hi
    ensures ClearBits(blocks, lo, hi) == [] && Increasing([])
  {
  }

  lemma IncreasingCons(x: nat, s: seq<nat>)
    requires Increasing(s) && forall y :: y in s ==> x < y
    ensures Increasing([x] + s)
  {
    var t := [x] + s;
    forall i, j | 0 <= i < j < |t| ensures t[i] < t[j] {
      AfterFirst(x, s, j);
      if i > 0 { AfterFirst(x, s, i); }
    }
  }

  lemma AfterFirst(x: nat, s: seq<nat>, i: nat)
    requires 0 < i <= |s|
    ensures ([x] + s)[i] == s[i - 1] && s[i - 1] in s
  {
  }

  lemma {:induction false} ClearBitsCount(blocks: Blocks, n: nat)
    ensures |ClearBits(blocks, 0, n)| == n - Count(blocks, n)
  {
    hide IsSet;
    if n > 0 {
      ClearBitsCount(blocks, n - 1);
      ClearBitsSplit(blocks, 0, n - 1, n);
      ClearBitsHead(blocks, n - 1, n);
    }
  }

  /** Going round from a block, every bit below the total that is clear comes up exactly once. */
  lemma FreeOrderExact(blocks: Blocks, first: nat, total: nat)
    ensures forall bit: nat :: bit in FreeOrder(blocks, first, total) <==> bit < total && !IsSet(blocks, bit)
    ensures forall i, j :: 0 <= i < j < |FreeOrder(blocks, first, total)| ==>
      FreeOrder(blocks, first, total)[i] != FreeOrder(blocks, first, total)[j]
    ensures |FreeOrder(blocks, first, total)| == total - Count(blocks, total)
  {
    hide IsSet, ClearBits, Count;
    var start := Min(BLOCK_BITS * first, total);
    var high, low := ClearBits(blocks, start, total), ClearBits(blocks, 0, start);
    ClearBitsExact(blocks, start, total);
    ClearBitsExact(blocks, 0, start);
    ClearBitsSplit(blocks, 0, start, total);
    ClearBitsCount(blocks, total);
    forall i, j | 0 <= i < j < |high + low| ensures (high + low)[i] != (high + low)[j] {
      if i < |high| <= j {
        assert high[i] in high && low[j - |high|] in low;
      }
    }
  }

  /** On the way round from a block, is the bit passed before the found one? */
  predicate OnTheWay(first: nat, bit: nat, found: nat) {
    if BLOCK_BITS * first <= found then BLOCK_BITS * first <= bit < found
    else BLOCK_BITS * first <= bit || bit < found
  }

  ghost predicate PassedSet(blocks: Blocks, first: nat, total: nat, found: nat) {
    forall bit: nat :: bit < total && OnTheWay(first, bit, found) ==> IsSet(blocks, bit)
  }

  /** The found bit is the first clear one from the start on, and if there is none, the first clear one of all. */
  ghost predicate NextFrom(blocks: Blocks, start: nat, total: nat, found: nat) {
    if start <= found then forall bit: nat :: start <= bit < found ==> IsSet(blocks, bit)
    else forall bit: nat :: bit < found || start <= bit < total ==> IsSet(blocks, bit)
  }

  lemma PassedMeans(blocks: Blocks, first: nat, total: nat, found: nat)
    requires PassedSet(blocks, first, total, found) && found < total
    ensures NextFrom(blocks, 4096 * first, total, found)
  {
    hide IsSet;
  }

  /** The order goes up from the start of the first block to the end, and then up from bit 0 to that start. */
  lemma FreeOrderGoesRound(blocks: Blocks, first: nat, total: nat)
    ensures var order := FreeOrder(blocks, first, total);
      forall i, j :: 0 <= i < j < |order| ==>
        if order[i] < 4096 * first then order[i] < order[j] < 4096 * first
        else order[i] < order[j] || order[j] < 4096 * first
  {
    hide IsSet, ClearBits;
    var start := Min(4096 * first, total);
    var high, low := ClearBits(blocks, start, total), ClearBits(blocks, 0, start);
    ClearBitsExact(blocks, start, total);
    ClearBitsExact(blocks, 0, start);
    forall k | 0 <= k < |high| ensures 4096 * first <= high[k] { assert high[k] in high; }
    forall k | 0 <= k < |low| ensures low[k] < 4096 * first { assert low[k] in low; }
  }

  /** Bit b of the bitmap is bit b % 64 of word b / 64, all words of all blocks one behind the other. */
  lemma BitsOfWords(blocks: Blocks, bit: nat)
    requires BlocksValid(blocks) && bit < 4096 * |blocks|
    ensures bit / 64 < |Flatten(blocks)| && IsSet(blocks, bit) == Bit(Flatten(blocks)[bit / 64], bit % 64)
  {
    assert bit / 64 / 64 == bit / 4096 && bit / 64 % 64 == bit % 4096 / 64;
    FlattenAt(blocks, 64, bit / 64);
  }

  /** What follows the found bit, up to hi, once it is marked and its block is the one to go on from. */
  lemma AfterFound(blocks: Blocks, blocks': Blocks, again: nat, hi: nat, found: nat)
    requires again <= found < hi && !IsSet(blocks, found)
    requires forall bit: nat :: again <= bit < found ==> IsSet(blocks, bit)
    requires IsSet(blocks', found) && AgreeExcept(blocks, blocks', found, hi)
    ensures ClearBits(blocks, again, found) == []
      && ClearBits(blocks, found, hi) == [found] + ClearBits(blocks, found + 1, hi)
    ensures ClearBits(blocks', again, hi) == ClearBits(blocks, found + 1, hi)
    ensures ClearBits(blocks', 0, again) == ClearBits(blocks, 0, again)
    ensures ClearBits(blocks, 0, found) == ClearBits(blocks, 0, again)
  {
    hide IsSet, ClearBits;
    NoClearBits(blocks, again, found);
    NoClearBits(blocks', again, found + 1);
    ClearBitsSplit(blocks', again, found + 1, hi);
    ClearBitsSplit(blocks, 0, again, found);
    ClearBitsAgree(blocks, blocks', found + 1, hi);
    ClearBitsAgree(blocks, blocks', 0, again);
    ClearBitsHead(blocks, found, hi);
  }

  /** The first clear bit met heads the order; marked, with its block the one to go on from, it leaves the rest. */
  lemma FreeOrderStep(blocks: Blocks, blocks': Blocks, first: nat, total: nat, found: nat)
    requires found < total && !IsSet(blocks, found) && PassedSet(blocks, first, total, found)
    requires IsSet(blocks', found) && AgreeExcept(blocks, blocks', found, total)
    ensures FreeOrder(blocks, first, total) != [] && FreeOrder(blocks, first, total)[0] == found
    ensures FreeOrder(blocks', found / BLOCK_BITS, total) == FreeOrder(blocks, first, total)[1..]
  {
    hide IsSet, ClearBits;
    var start, again := Min(BLOCK_BITS * first, total), BLOCK_BITS * (found / BLOCK_BITS);
    StartOfBlock(first, found);
    forall bit: nat | again <= bit < found ensures IsSet(blocks, bit) {
      assert OnTheWay(first, bit, found);
    }
    AfterFound(blocks, blocks', again, total, found);
    if start <= found {
      forall bit: nat | start <= bit < found ensures IsSet(blocks, bit) { assert OnTheWay(first, bit, found); }
      NoClearBits(blocks, start, found);
      ClearBitsSplit(blocks, start, found, total);
      ClearBitsSplit(blocks, 0, start, found);
      var rest := ClearBits(blocks, found + 1, total);
      var low := ClearBits(blocks, 0, start);
      assert ClearBits(blocks, 0, again) == low + [] == low;
      assert [] + ([found] + rest) + low == [found] + (rest + low);
    } else {
      forall bit: nat | start <= bit < total ensures IsSet(blocks, bit) { assert OnTheWay(first, bit, found); }
      forall bit: nat | bit < found ensures IsSet(blocks, bit) { assert OnTheWay(first, bit, found); }
      NoClearBits(blocks, start, total);
      NoClearBits(blocks, 0, found);
      ClearBitsSplit(blocks, found, start, total);
      ClearBitsSplit(blocks, 0, found, start);
      var rest := ClearBits(blocks, found + 1, total);
      var mid := ClearBits(blocks, found, start);
      assert mid == mid + [] == [found] + rest;
      assert FreeOrder(blocks, first, total) == [] + ([] + mid) == [found] + rest;
      assert rest + [] == rest;
    }
  }

  lemma StartOfBlock(first: nat, found: nat)
    ensures BLOCK_BITS * (found / BLOCK_BITS) <= found
    ensures BLOCK_BITS * first <= found ==> BLOCK_BITS * first <= BLOCK_BITS * (found / BLOCK_BITS)
  {
  }
}
