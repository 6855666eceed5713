/**
  `RankedBits`: a read-only bit vector of 64-bit words with constant-time rank
  queries. Next to the words it keeps one 128-bit counter word per L1 block of
  4096 bits (64 words). The low 44 bits of counter word `j` hold the number of
  ones in the words before block `j`; above them, at bit `44 + 12*f` for
  `f < 7`, sit 12-bit fields holding the number of ones in L2 blocks
  (512 bits, 8 words) `0..=f` of block `j`. The eighth cumulative count does
  not fit and is shifted out.
*/
module Rank {
  import opened Bits
  import opened Wrappers

  /** Size of an L2 block in bits. */
  const L2_BIT_SIZE: nat := 512
  /** Size of an L1 block in bits: eight L2 blocks. */
  const L1_BIT_SIZE: nat := 8 * L2_BIT_SIZE
  /** 2^44: the L1 count occupies the low 44 bits of a counter word. */
  const L1_RANK_BOUND: nat := 0x1000_0000_0000
  /** 2^12: each L2 count occupies 12 bits. */
  const L2_RANK_BOUND: nat := 0x1000

  /** The bit words and one counter word (a `u128`) per L1 block. */
  datatype RankedBits = RankedBits(bits: seq<U64>, l12Ranks: seq<nat>)

  function Min(a: nat, b: nat): nat { if a <= b then a else b }

  // ---------------------------------------------------------------------------
  // Reference definitions

  /** Bit `idx` of the vector: bit `idx % 64` of word `idx / 64`. */
  predicate BitAt(bits: seq<U64>, idx: nat)
    requires idx < 64 * |bits|
  {
    Bit(bits[idx / 64], idx % 64)
  }

  /** The number of set bits at positions strictly below `idx`, one position at a time. */
  function CountBefore(bits: seq<U64>, idx: nat): nat
    requires idx <= 64 * |bits|
  {
    if idx == 0 then 0 else CountBefore(bits, idx - 1) + (if BitAt(bits, idx - 1) then 1 else 0)
  }

  /** Sum of the popcounts of a run of words. */
  function WordsOnes(ws: seq<U64>): nat
  {
    if ws == [] then 0 else WordsOnes(ws[..|ws| - 1]) + PopCount(ws[|ws| - 1])
  }

  /** The 12-bit field of counter word `w` that starts at bit `44 + 12*f`. */
  function L2Field(w: nat, f: nat): nat
  {
    Field12(w, 44 + 12 * f)
  }

  /** The 12 bits of `w` starting at bit `p`: `(w >> p) & 0xFFF`. */
  function Field12(w: nat, p: nat): nat
  {
    w / Pow2(p) % L2_RANK_BOUND
  }

  /** L1 block `j`: its 64 words, or fewer for the last block of the vector. */
  function Block(bits: seq<U64>, j: nat): (block: seq<U64>)
    requires 64 * j < |bits|
    ensures 0 < |block| <= 64
  {
    bits[64 * j .. Min(64 * j + 64, |bits|)]
  }

  /**
    What L2 field `f` of a block's counter word must hold: the ones in L2
    blocks `0..=f` of the block (the last L2 block of the vector may be
    short), or 0 when L2 block `f` lies past the end of the block.
  */
  function ChunkCum(block: seq<U64>, f: nat): nat
  {
    if 8 * f < |block| then WordsOnes(block[..Min(8 * f + 8, |block|)]) else 0
  }

  /**
    Counter word `w` describes a block with `l1` ones before it: it is a
    `u128`, its low 44 bits are `l1` modulo 2^44, and while `l1` fits in
    those 44 bits the seven L2 fields hold the cumulative counts of the block.
  */
  predicate BlockCounterOk(block: seq<U64>, l1: nat, w: nat)
  {
    w < U128_BOUND &&
    w % L1_RANK_BOUND == l1 % L1_RANK_BOUND &&
    (l1 < L1_RANK_BOUND ==> forall f :: 0 <= f < 7 ==> L2Field(w, f) == ChunkCum(block, f))
  }

  /** Counter word `w` describes L1 block `j` of the vector. */
  predicate CounterOk(bits: seq<U64>, j: nat, w: nat)
    requires 64 * j < |bits|
  {
    BlockCounterOk(Block(bits, j), WordsOnes(bits[..64 * j]), w)
  }

  /** Fields `0..n` (at most the seven stored ones) of accumulator `acc` hold the cumulative counts of `block`. */
  predicate FieldsUpTo(block: seq<U64>, acc: nat, n: nat)
  {
    forall f :: 0 <= f < n && f < 7 ==> AccField(acc, f) == ChunkCum(block, f)
  }

  /** Each of the counter words `l12` describes the L1 block of its position. */
  predicate CountersUpTo(bits: seq<U64>, l12: seq<nat>)
  {
    forall j :: 0 <= j < |l12| ==> 64 * j < |bits| && CounterOk(bits, j, l12[j])
  }

  /** One counter word per started L1 block, each describing its block. */
  predicate Valid(rb: RankedBits)
  {
    |rb.l12Ranks| == (|rb.bits| + 63) / 64 && CountersUpTo(rb.bits, rb.l12Ranks)
  }

  // ---------------------------------------------------------------------------
  // Construction

  /**
    Builds the counter word of one L1 block: the running count of each L2
    block (`chunks(8)` of the block's words) is shifted into field `i`, the
    whole is shifted above the 44-bit L1 count and or-ed with it. Also returns
    the ones of the block, which the caller adds to its L1 count.
  */
  method BlockCounter(block: seq<U64>, l1Rank: nat) returns (w: nat, sum: nat)
    requires 0 < |block| <= 64
    ensures sum == WordsOnes(block)
    ensures BlockCounterOk(block, l1Rank, w)
  {
    var n := |block|;
    var chunks := (n + 7) / 8;
    var acc: nat := 0;
    sum := 0;
    var i := 0;
    while i < chunks
      invariant i <= chunks
      invariant Counted(block, i, sum, acc)
    {
      var next := sum + WordsOnes(block[8 * i .. Min(8 * i + 8, n)]);
      CountedStep(block, i, sum, acc);
      sum, acc, i := next, acc + Shl(next, 12 * i), i + 1;
    }
    assert block[..Min(8 * i, n)] == block;
    w := Or(Trunc(Shl(acc, 44), 128), l1Rank, 128);
    BlockFinish(block, chunks, acc, l1Rank, w);
  }

  /** The state of `BlockCounter` after its first `i` L2 blocks. */
  predicate Counted(block: seq<U64>, i: nat, sum: nat, acc: nat)
  {
    sum == WordsOnes(block[..Min(8 * i, |block|)]) && sum <= 512 * i
    && (i < 8 ==> acc < Pow2(12 * i)) && FieldsUpTo(block, acc, i)
  }

  /** One round of `BlockCounter`: L2 block `i`'s running count goes into field `i`. */
  lemma CountedStep(block: seq<U64>, i: nat, sum: nat, acc: nat)
    requires 8 * i < |block| <= 64 && Counted(block, i, sum, acc)
    ensures var next := sum + WordsOnes(block[8 * i .. Min(8 * i + 8, |block|)]);
      Counted(block, i + 1, next, acc + Shl(next, 12 * i))
  {
    hide WordsOnes;
    hide ChunkCum;
    hide FieldsUpTo;
    hide Shl;
    hide Pow2;
    var next := sum + WordsOnes(block[8 * i .. Min(8 * i + 8, |block|)]);
    SumStep(block, i, sum);
    FieldsStep(block, i, acc, next);
    ShlIsMul(next, 12 * i);
  }

  /** The running count after L2 block `i`: the ones of blocks `0..=i`. */
  lemma SumStep(block: seq<U64>, i: nat, sum: nat)
    requires 8 * i < |block|
    requires sum == WordsOnes(block[..8 * i])
    requires sum <= 512 * i
    ensures var next := sum + WordsOnes(block[8 * i .. Min(8 * i + 8, |block|)]);
      next == WordsOnes(block[..Min(8 * (i + 1), |block|)]) &&
      next <= 512 * (i + 1) &&
      (i < 7 ==> next == ChunkCum(block, i))
  {
    var chunkEnd := Min(8 * i + 8, |block|);
    WordsOnesSplit(block, 0, 8 * i, chunkEnd);
    assert block[0 .. 8 * i] == block[..8 * i];
    assert block[0 .. chunkEnd] == block[..chunkEnd];
    WordsOnesBound(block[8 * i .. chunkEnd]);
  }

  /** Shifting the count of L2 block `i` into field `i` keeps the fields below. */
  lemma FieldsStep(block: seq<U64>, i: nat, acc: nat, y: nat)
    requires i < 8
    requires acc < Pow2(12 * i)
    requires FieldsUpTo(block, acc, i)
    requires i < 7 ==> y == ChunkCum(block, i) && y <= 512 * (i + 1)
    ensures i + 1 < 8 ==> acc + y * Pow2(12 * i) < Pow2(12 * (i + 1))
    ensures FieldsUpTo(block, acc + y * Pow2(12 * i), i + 1)
  {
    if i < 7 {
      AccStep(acc, y, i);
    }
    forall f | 0 <= f < i + 1 && f < 7
      ensures AccField(acc + y * Pow2(12 * i), f) == ChunkCum(block, f)
    {
      if f < i {
        FieldAddHigh(acc, y, f, i);
      }
    }
  }

  /** After the last L2 block the counter word describes the whole L1 block. */
  lemma BlockFinish(block: seq<U64>, chunks: nat, acc: nat, l1Rank: nat, w: nat)
    requires 0 < |block| && chunks == (|block| + 7) / 8
    requires chunks < 8 ==> acc < Pow2(12 * chunks)
    requires FieldsUpTo(block, acc, chunks)
    requires w == Or(Trunc(Shl(acc, 44), 128), l1Rank, 128)
    ensures BlockCounterOk(block, l1Rank, w)
  {
    CounterWordFacts(acc, l1Rank, w);
    forall f | 0 <= f < 7 && chunks <= f
      ensures AccField(acc, f) == ChunkCum(block, f)
    {
      AccZeroAbove(acc, chunks, f);
    }
  }

  /** A full L1 block: its counter word describes block `j`, and the running count moves past it. */
  lemma BlockStep(bits: seq<U64>, j: nat, l1Rank: nat, w: nat, sum: nat)
    requires 64 * j + 64 <= |bits| && l1Rank == WordsOnes(bits[..64 * j])
    requires sum == WordsOnes(bits[64 * j .. 64 * j + 64]) && BlockCounterOk(bits[64 * j .. 64 * j + 64], l1Rank, w)
    ensures l1Rank + sum == WordsOnes(bits[..64 * (j + 1)]) && CounterOk(bits, j, w)
  {
    assert bits[64 * j .. 64 * j + 64] == Block(bits, j);
    WordsOnesSplit(bits, 0, 64 * j, 64 * j + 64);
    assert bits[0 .. 64 * j] == bits[..64 * j];
    assert bits[0 .. 64 * j + 64] == bits[..64 * (j + 1)];
  }

  /** Adding the counter word of the next L1 block keeps every counter word describing its block. */
  lemma CountersAppend(bits: seq<U64>, l12: seq<nat>, w: nat)
    requires CountersUpTo(bits, l12) && 64 * |l12| < |bits| && CounterOk(bits, |l12|, w)
    ensures CountersUpTo(bits, l12 + [w])
  {
    forall j | 0 <= j < |l12| + 1
      ensures 64 * j < |bits| && CounterOk(bits, j, (l12 + [w])[j])
    {
      if j < |l12| {
        assert (l12 + [w])[j] == l12[j];
      }
    }
  }

  /** `RankedBits::new`: full L1 blocks first, then the short trailing block if any. */
  method New(bits: seq<U64>) returns (rb: RankedBits)
    ensures rb.bits == bits && Valid(rb)
  {
    hide BlockCounterOk;
    var blocks := |bits| / 64;
    var l12: seq<nat> := [];
    var l1Rank: nat := 0;
    var j := 0;
    while j < blocks
      invariant j <= blocks && |l12| == j
      invariant l1Rank == WordsOnes(bits[..64 * j])
      invariant CountersUpTo(bits, l12)
    {
      var w, sum := BlockCounter(bits[64 * j .. 64 * j + 64], l1Rank);
      BlockStep(bits, j, l1Rank, w, sum);
      CountersAppend(bits, l12, w);
      l12 := l12 + [w];
      l1Rank := l1Rank + sum;
      j := j + 1;
    }
    if 64 * blocks < |bits| {
      assert bits[64 * blocks ..] == Block(bits, blocks);
      var w, _ := BlockCounter(bits[64 * blocks ..], l1Rank);
      CountersAppend(bits, l12, w);
      l12 := l12 + [w];
    }
    rb := RankedBits(bits, l12);
  }

  // ---------------------------------------------------------------------------
  // Query

  /**
    `rank(idx)`: `None` when bit `idx` is clear, otherwise the count computed
    from the counter word of its L1 block.
  */
  function Rank(rb: RankedBits, idx: nat): (r: Option<nat>)
    requires Valid(rb) && idx < 64 * |rb.bits|
    ensures r.None? <==> !BitAt(rb.bits, idx)
  {
    var wordIdx := idx / 64;
    var bitIdx := idx % 64;
    var word := rb.bits[wordIdx];
    SingleBitTest(word, bitIdx);
    if And64(word, Shl64(1, bitIdx)) == 0 then None
    else
      ReadsInBounds(|rb.bits|, idx);
      var l1Pos := idx / L1_BIT_SIZE;
      Some(TotalRank(rb.bits, rb.l12Ranks[l1Pos], idx))
  }

  /**
    The sum `rank` returns for a set bit: the L1 count, the L2 count read at
    `32 + 12*l2_pos`, the whole words of the L2 block before the word of `idx`,
    and the masked low bits of that word.
  */
  function TotalRank(bits: seq<U64>, l12Rank: nat, idx: nat): nat
    requires idx < 64 * |bits|
  {
    ReadsInBounds(|bits|, idx);
    var l2Pos := (idx % L1_BIT_SIZE) / L2_BIT_SIZE;
    var l1Rank := L1Count(l12Rank);
    var l2Rank := L2Count(l12Rank, l2Pos);
    var idxWithinL2 := idx % L2_BIT_SIZE;
    var blocksNum := idxWithinL2 / 64;
    var offset := (idx / L2_BIT_SIZE) * 8;
    var blockRank := WordsOnes(bits[offset .. offset + blocksNum]);
    var wordRank := WordRank(bits[offset + blocksNum], idxWithinL2);
    l1Rank + l2Rank + blockRank + wordRank
  }

  /** `l12_rank & 0xFFFFFFFFFFF`: the low 44 bits of the counter word. */
  function L1Count(l12Rank: nat): (r: nat)
    ensures r == l12Rank % L1_RANK_BOUND
  {
    Pow2At44();
    AndLowMaskIsMod(l12Rank, 44, 128);
    And(l12Rank, 0xFFF_FFFF_FFFF, 128)
  }

  /** `(l12_rank >> (32 + 12 * l2_pos)) & 0xFFF`: the 12 bits at `32 + 12*l2_pos`. */
  function L2Count(l12Rank: nat, l2Pos: nat): (r: nat)
    ensures r == Field12(l12Rank, 32 + 12 * l2Pos)
  {
    FieldRead(l12Rank, 32 + 12 * l2Pos);
    And(Shr(l12Rank, 32 + 12 * l2Pos), 0xFFF, 128)
  }

  /**
    Why the rank needs fewer than 2^32 ones: L2 block 0 reads the L1 count's
    bits 32..43, so an L1 count of 2^32 shows through as one earlier one.
  */
  lemma L2CountPastBound()
    ensures L2Count(U32_BOUND, 0) == 1
  {
    hide L2Count;
    hide And;
    hide Shr;
    hide Pow2;
    Pow2At32();
    assert Field12(U32_BOUND, 32) == 1;
  }

  /**
    The ones of the word of `idx` below its bit: the word masked with
    `((1 << (idx_within_l2 % 64)) - 1) * (idx_within_l2 > 0)`.
  */
  function WordRank(word: U64, idxWithinL2: nat): (r: nat)
    ensures r == CountOnes(word, idxWithinL2 % 64)
  {
    WordRead(word, idxWithinL2);
    var wordMask := (Shl64(1, idxWithinL2 % 64) - 1) * (if idxWithinL2 > 0 then 1 else 0);
    PopCount(And64(word, wordMask))
  }

  // ---------------------------------------------------------------------------
  // Properties

  /**
    Every word and counter read by `rank` is in bounds: the word of `idx` is
    `offset + blocks_num`, and its L1 block has a counter word.
  */
  lemma ReadsInBounds(n: nat, idx: nat)
    requires idx < 64 * n
    ensures 0 <= (idx / L2_BIT_SIZE) * 8 && 0 <= (idx % L2_BIT_SIZE) / 64
    ensures (idx / L2_BIT_SIZE) * 8 + (idx % L2_BIT_SIZE) / 64 == idx / 64 < n
    ensures idx / L1_BIT_SIZE < (n + 63) / 64
  {
    IndexSplit(idx);
  }

  /**
    With fewer than 2^32 ones in the vector, `rank` of a set bit is the number
    of set bits strictly before it.
  */
  lemma RankIsCountBefore(rb: RankedBits, idx: nat)
    requires Valid(rb) && idx < 64 * |rb.bits| && BitAt(rb.bits, idx)
    requires WordsOnes(rb.bits) < U32_BOUND
    ensures Rank(rb, idx) == Some(CountBefore(rb.bits, idx))
  {
    ReadsInBounds(|rb.bits|, idx);
    var j := idx / L1_BIT_SIZE;
    assert 64 * j < |rb.bits| && CounterOk(rb.bits, j, rb.l12Ranks[j]);
    TotalRankIsCountBefore(rb.bits, rb.l12Ranks[j], idx);
  }

  lemma TotalRankIsCountBefore(bits: seq<U64>, w: nat, idx: nat)
    requires idx < 64 * |bits| && 64 * (idx / L1_BIT_SIZE) < |bits|
    requires CounterOk(bits, idx / L1_BIT_SIZE, w)
    requires WordsOnes(bits) < U32_BOUND
    ensures TotalRank(bits, w, idx) == CountBefore(bits, idx)
  {
    hide TotalRank;
    hide L1Count;
    hide L2Count;
    hide WordsOnes;
    hide CountOnes;
    hide CounterOk;
    hide CountBefore;
    var q := idx / 64;
    var j := idx / L1_BIT_SIZE;
    var l2 := (idx % L1_BIT_SIZE) / L2_BIT_SIZE;
    var offset := 64 * j + 8 * l2;
    var l1Count := L1Count(w);
    var l2Count := L2Count(w, l2);
    var wordsCount := WordsOnes(bits[offset .. q]);
    var lowBits := CountOnes(bits[q], idx % 64);
    assert offset <= q < |bits| && l2 < 8 by {
      IndexSplit(idx);
    }
    assert TotalRank(bits, w, idx) == l1Count + l2Count + wordsCount + lowBits by {
      TotalRankParts(bits, w, idx);
    }
    assert l1Count == WordsOnes(bits[..64 * j]) by {
      L1Read(bits, j, w);
    }
    assert l2Count == WordsOnes(bits[64 * j .. offset]) by {
      L1Read(bits, j, w);
      L2Read(bits, j, w, l2);
    }
    assert WordsOnes(bits[..q]) == WordsOnes(bits[..64 * j]) + WordsOnes(bits[64 * j .. offset]) + wordsCount by {
      WordsOnesPrefix(bits, 64 * j, offset, q);
    }
    CountBeforeWords(bits, idx);
  }

  /** The four terms of the sum, with the positions expressed through the word index. */
  lemma TotalRankParts(bits: seq<U64>, w: nat, idx: nat)
    requires idx < 64 * |bits|
    ensures 64 * (idx / L1_BIT_SIZE) + 8 * ((idx % L1_BIT_SIZE) / L2_BIT_SIZE) <= idx / 64 < |bits|
    ensures TotalRank(bits, w, idx) ==
      L1Count(w) + L2Count(w, (idx % L1_BIT_SIZE) / L2_BIT_SIZE) +
      WordsOnes(bits[64 * (idx / L1_BIT_SIZE) + 8 * ((idx % L1_BIT_SIZE) / L2_BIT_SIZE) .. idx / 64]) +
      CountOnes(bits[idx / 64], idx % 64)
  {
    hide L1Count;
    hide L2Count;
    hide WordRank;
    hide WordsOnes;
    hide CountOnes;
    var offset := (idx / L2_BIT_SIZE) * 8;
    var blocksNum := (idx % L2_BIT_SIZE) / 64;
    assert offset == 64 * (idx / L1_BIT_SIZE) + 8 * ((idx % L1_BIT_SIZE) / L2_BIT_SIZE)
      && offset + blocksNum == idx / 64 < |bits|
      && idx % L2_BIT_SIZE % 64 == idx % 64 by {
      IndexSplit(idx);
    }
  }

  /** The L1 count read from the counter word is the number of ones before the L1 block. */
  lemma L1Read(bits: seq<U64>, j: nat, w: nat)
    requires 64 * j < |bits| && CounterOk(bits, j, w)
    requires WordsOnes(bits) < U32_BOUND
    ensures L1Count(w) == WordsOnes(bits[..64 * j]) < U32_BOUND
  {
    WordsOnesSplit(bits, 0, 64 * j, |bits|);
    assert bits[0 .. 64 * j] == bits[..64 * j];
    assert bits[0 .. |bits|] == bits;
    var l1 := WordsOnes(bits[..64 * j]);
    DivModUnique(l1, L1_RANK_BOUND, 0, l1);
  }

  /**
    The L2 count read at `32 + 12*l2_pos` is the number of ones in the L2
    blocks of the L1 block before L2 block `l2_pos`.
  */
  lemma L2Read(bits: seq<U64>, j: nat, w: nat, l2: nat)
    requires 64 * j + 8 * l2 < |bits| && l2 < 8 && CounterOk(bits, j, w)
    requires WordsOnes(bits[..64 * j]) < U32_BOUND
    ensures L2Count(w, l2) == WordsOnes(bits[64 * j .. 64 * j + 8 * l2])
  {
    var l1 := WordsOnes(bits[..64 * j]);
    var field := Field12(w, 32 + 12 * l2);
    if l2 == 0 {
      FieldBelowL1(w, l1);
      assert bits[64 * j .. 64 * j] == [];
      assert field == WordsOnes(bits[64 * j .. 64 * j + 8 * l2]);
    } else {
      assert 32 + 12 * l2 == 44 + 12 * (l2 - 1);
      assert field == L2Field(w, l2 - 1);
      var block := Block(bits, j);
      assert 8 * (l2 - 1) < |block| && Min(8 * (l2 - 1) + 8, |block|) == 8 * l2;
      assert block[..8 * l2] == bits[64 * j .. 64 * j + 8 * l2];
      assert field == ChunkCum(block, l2 - 1);
      assert field == WordsOnes(bits[64 * j .. 64 * j + 8 * l2]);
    }
  }

  /** The masked word contributes the ones of that word below bit `idx % 64`. */
  lemma WordRead(word: U64, idxWithinL2: nat)
    ensures Shl64(1, idxWithinL2 % 64) >= 1
    ensures PopCount(And64(word, (Shl64(1, idxWithinL2 % 64) - 1) * (if idxWithinL2 > 0 then 1 else 0)))
      == CountOnes(word, idxWithinL2 % 64)
  {
    var k := idxWithinL2 % 64;
    var mask := Shl64(1, k) - 1;
    var factor := if idxWithinL2 > 0 then 1 else 0;
    assert mask * factor == mask by {
      if idxWithinL2 == 0 {
        OneShl64(0);
      }
    }
    LowMaskCount(word, k);
  }

  /** Words 0b11001010, 0b00110111, 0b11110000: `rank(0)` is `None` and `rank(7)` is `Some(3)`. */
  lemma RankExample(rb: RankedBits)
    requires Valid(rb) && rb.bits == [0xCA, 0x37, 0xF0]
    ensures Rank(rb, 0) == None
    ensures Rank(rb, 7) == Some(3)
  {
    assert !Bit(0xCA, 0) && Bit(0xCA, 7) && CountOnes(0xCA, 7) == 3;
    assert WordsOnes(rb.bits) < U32_BOUND by {
      WordsOnesBound(rb.bits);
    }
    assert CountBefore(rb.bits, 7) == 3 by {
      CountBeforeWords(rb.bits, 7);
      assert rb.bits[..0] == [];
    }
    RankIsCountBefore(rb, 7);
  }

  // ---------------------------------------------------------------------------
  // Counting lemmas

  lemma {:induction false} WordsOnesAppend(a: seq<U64>, b: seq<U64>)
    ensures WordsOnes(a + b) == WordsOnes(a) + WordsOnes(b)
  {
    if b == [] {
      assert a + b == a;
    } else {
      assert (a + b)[..|a + b| - 1] == a + b[..|b| - 1];
      WordsOnesAppend(a, b[..|b| - 1]);
    }
  }

  lemma WordsOnesSplit(s: seq<U64>, i: nat, j: nat, k: nat)
    requires i <= j <= k <= |s|
    ensures WordsOnes(s[i..k]) == WordsOnes(s[i..j]) + WordsOnes(s[j..k])
  {
    assert s[i..k] == s[i..j] + s[j..k];
    WordsOnesAppend(s[i..j], s[j..k]);
  }

  lemma WordsOnesPrefix(s: seq<U64>, a: nat, b: nat, q: nat)
    requires a <= b <= q <= |s|
    ensures WordsOnes(s[..q]) == WordsOnes(s[..a]) + WordsOnes(s[a..b]) + WordsOnes(s[b..q])
  {
    WordsOnesSplit(s, 0, a, q);
    WordsOnesSplit(s, a, b, q);
    assert s[0 .. q] == s[..q];
    assert s[0 .. a] == s[..a];
  }

  lemma {:induction false} WordsOnesBound(ws: seq<U64>)
    ensures WordsOnes(ws) <= 64 * |ws|
  {
    if ws != [] {
      WordsOnesBound(ws[..|ws| - 1]);
    }
  }

  /** Counting positions one by one agrees with whole words plus a partial word. */
  lemma {:induction false} CountBeforeWords(bits: seq<U64>, idx: nat)
    requires idx < 64 * |bits|
    ensures CountBefore(bits, idx) == WordsOnes(bits[..idx / 64]) + CountOnes(bits[idx / 64], idx % 64)
  {
    if idx > 0 {
      CountBeforeWords(bits, idx - 1);
      var q := (idx - 1) / 64;
      if idx % 64 == 0 {
        assert idx / 64 == q + 1 && (idx - 1) % 64 == 63;
        assert bits[..q + 1][..q] == bits[..q];
      }
    }
  }

  /** The positions `rank` derives from `idx`, in terms of the word index `idx / 64`. */
  lemma IndexSplit(idx: nat)
    ensures idx / L1_BIT_SIZE == idx / 64 / 64
    ensures (idx % L1_BIT_SIZE) / L2_BIT_SIZE == idx / 64 % 64 / 8
    ensures (idx / L2_BIT_SIZE) * 8 == 64 * (idx / L1_BIT_SIZE) + 8 * ((idx % L1_BIT_SIZE) / L2_BIT_SIZE)
    ensures (idx / L2_BIT_SIZE) * 8 + (idx % L2_BIT_SIZE) / 64 == idx / 64
    ensures idx % L2_BIT_SIZE % 64 == idx % 64
    ensures idx % L2_BIT_SIZE == 0 ==> idx % 64 == 0
  {
    var q := idx / 64;
    var d := idx % 64;
    var c := q % 8;
    var b := q / 8 % 8;
    var a := q / 64;
    DivDiv(q, 8, 8);
    assert q == 64 * a + 8 * b + c;
    assert idx == 512 * (8 * a + b) + (64 * c + d);
    DivModUnique(idx, 512, 8 * a + b, 64 * c + d);
    assert idx == 4096 * a + (512 * b + 64 * c + d);
    DivModUnique(idx, 4096, a, 512 * b + 64 * c + d);
    DivModUnique(512 * b + 64 * c + d, 512, b, 64 * c + d);
    DivModUnique(64 * c + d, 64, c, d);
  }

  // ---------------------------------------------------------------------------
  // Counter-word arithmetic

  /** The 12-bit field `f` of the accumulator before it is shifted into place. */
  function AccField(acc: nat, f: nat): nat
  {
    Field12(acc, 12 * f)
  }

  /** One step of the accumulation: field `i` receives `y`, the lower fields stay. */
  lemma AccStep(acc: nat, y: nat, i: nat)
    requires i < 7 && acc < Pow2(12 * i) && y <= 512 * (i + 1)
    ensures acc + y * Pow2(12 * i) < Pow2(12 * (i + 1))
    ensures AccField(acc + y * Pow2(12 * i), i) == y
    ensures forall f :: 0 <= f < i ==> AccField(acc + y * Pow2(12 * i), f) == AccField(acc, f)
  {
    forall f | 0 <= f < i
      ensures AccField(acc + y * Pow2(12 * i), f) == AccField(acc, f)
    {
      FieldAddHigh(acc, y, f, i);
    }
    FieldAddTop(acc, y, i);
    AccBound(acc, y, i);
  }

  /** Adding a value at field `i` leaves the lower fields unchanged. */
  lemma FieldAddHigh(acc: nat, y: nat, f: nat, i: nat)
    requires f < i
    ensures AccField(acc + y * Pow2(12 * i), f) == AccField(acc, f)
  {
    var m := Pow2(12 * f);
    var k := Pow2(12);
    var rest := Pow2(12 * (i - f - 1));
    assert Pow2(12 * i) == m * (k * rest) by {
      Pow2Add(12 * f, 12 * (i - f));
      Pow2Add(12, 12 * (i - f - 1));
      assert 12 * f + 12 * (i - f) == 12 * i;
    }
    assert y * Pow2(12 * i) == m * (k * (y * rest)) by {
      MulRearrange(y, m, k, rest);
    }
    assert k == L2_RANK_BOUND by {
      Pow2At12();
    }
    DivModAddHigh(acc, y * rest, m, k);
  }

  lemma MulRearrange(y: nat, m: nat, k: nat, rest: nat)
    ensures y * (m * (k * rest)) == m * (k * (y * rest))
  {
    var p := k * rest;
    assert y * (m * p) == m * (y * p);
    assert y * p == k * (y * rest);
  }

  /** Adding a 12-bit value at field `i` above an accumulator of `i` fields sets field `i`. */
  lemma FieldAddTop(acc: nat, y: nat, i: nat)
    requires acc < Pow2(12 * i) && y < L2_RANK_BOUND
    ensures AccField(acc + y * Pow2(12 * i), i) == y
  {
    DivModUnique(acc + y * Pow2(12 * i), Pow2(12 * i), y, acc);
  }

  lemma AccBound(acc: nat, y: nat, i: nat)
    requires acc < Pow2(12 * i) && y < L2_RANK_BOUND
    ensures acc + y * Pow2(12 * i) < Pow2(12 * (i + 1))
  {
    var p := Pow2(12 * i);
    Pow2Add(12 * i, 12);
    Pow2At12();
    assert 12 * (i + 1) == 12 * i + 12;
    MulMonotone(y + 1, L2_RANK_BOUND, p);
    assert (y + 1) * p == y * p + p;
    assert L2_RANK_BOUND * p == p * L2_RANK_BOUND;
  }

  lemma AccZeroAbove(acc: nat, c: nat, f: nat)
    requires acc < Pow2(12 * c) && c <= f
    ensures AccField(acc, f) == 0
  {
    Pow2Monotone(12 * c, 12 * f);
    DivModUnique(acc, Pow2(12 * f), 0, acc);
  }

  /**
    The counter word `((acc << 44) as u128) | l1`: its low 44 bits are those
    of `l1`, and when `l1` fits in 44 bits its L2 fields are the accumulator's.
  */
  lemma CounterWordFacts(acc: nat, l1: nat, w: nat)
    requires w == Or(Trunc(Shl(acc, 44), 128), l1, 128)
    ensures w < U128_BOUND
    ensures w % L1_RANK_BOUND == l1 % L1_RANK_BOUND
    ensures l1 < L1_RANK_BOUND ==> forall f :: 0 <= f < 7 ==> L2Field(w, f) == AccField(acc, f)
  {
    Pow2At128();
    Pow2At44();
    Pow2At12();
    var t := Trunc(Shl(acc, 44), 128);
    forall i | 0 <= i < 44
      ensures Bit(w % Pow2(44), i) == Bit(l1 % Pow2(44), i)
    {
      BitMod(w, 44, i);
      BitMod(l1, 44, i);
      BitOr(t, l1, 128, i);
      BitTrunc(Shl(acc, 44), 128, i);
      BitShl(acc, 44, i);
    }
    BitsEqual(w % Pow2(44), l1 % Pow2(44), 44);
    if l1 < Pow2(44) {
      forall f | 0 <= f < 7
        ensures L2Field(w, f) == AccField(acc, f)
      {
        forall i | 0 <= i < 12
          ensures Bit(L2Field(w, f), i) == Bit(AccField(acc, f), i)
        {
          var p := 44 + 12 * f + i;
          FieldBit(w, 44 + 12 * f, 12, i);
          FieldBit(acc, 12 * f, 12, i);
          BitOr(t, l1, 128, p);
          BitTrunc(Shl(acc, 44), 128, p);
          BitShl(acc, 44, p);
          BitBound(l1, 44, p);
        }
        BitsEqual(L2Field(w, f), AccField(acc, f), 12);
      }
    }
  }

  /** `(w >> p) & 0xFFF` is the 12-bit field of `w` at bit `p`. */
  lemma FieldRead(w: nat, p: nat)
    ensures And(Shr(w, p), 0xFFF, 128) == Field12(w, p)
  {
    Pow2At12();
    AndLowMaskIsMod(Shr(w, p), 12, 128);
    ShrIsDiv(w, p);
  }

  /**
    Read at `l2_pos = 0`, the field at bit 32 lies inside the L1 count: it is 0
    exactly because that count is below 2^32.
  */
  lemma FieldBelowL1(w: nat, l1: nat)
    requires w % L1_RANK_BOUND == l1 % L1_RANK_BOUND && l1 < U32_BOUND
    ensures Field12(w, 32) == 0
  {
    Pow2At44();
    Pow2At32();
    Pow2At12();
    forall i | 0 <= i < 12
      ensures Bit(Field12(w, 32), i) == Bit(0, i)
    {
      FieldBit(w, 32, 12, i);
      BitMod(w, 44, 32 + i);
      BitMod(l1, 44, 32 + i);
      BitBound(l1, 32, 32 + i);
      BitZero(i);
    }
    BitsEqual(Field12(w, 32), 0, 12);
  }
}
