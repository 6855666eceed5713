/**
  The packed bytes of the value vectors used as examples for the
  bit-packed map's `pack_values`: each follows from the meaning of one
  compressed block (byte `k` holds bits `[8 * k, 8 * k + 8)` of the block's
  stream) rather than from running the packer.
*/
module BitPackExamples {
  import opened Bits
  import opened BitPack

  // ---------------------------------------------------------------------------
  // Bytes of a compressed block

  /** Byte `k` of a byte string spans bits `[8 * k, 8 * k + 8)` of its bit string. */
  lemma {:induction false} UnpackBitsAt(bytes: seq<U8>, k: nat)
    requires k < |bytes|
    ensures UnpackBits(bytes)[8 * k..8 * k + 8] == ToBits(bytes[k], 8)
  {
    assert UnpackBits(bytes) == ToBits(bytes[0], 8) + UnpackBits(bytes[1..]);
    if k > 0 {
      UnpackBitsAt(bytes[1..], k - 1);
    }
  }

  /** Byte `k` of a compressed block is the number of bits `[8 * k, 8 * k + 8)` of the block's stream. */
  lemma CompressByte(block: seq<U32>, w: nat, k: nat)
    requires |block| == VALUES_BLOCK_LEN && k < 4 * w
    ensures 8 * k + 8 <= |Stream(block, w)|
    ensures Compress(block, w)[k] == FromBits(Stream(block, w)[8 * k..8 * k + 8])
  {
    var bytes := Compress(block, w);
    UnpackBitsAt(bytes, k);
    assert Pow2(8) == 256;
    FromToBits(bytes[k], 8);
  }

  /** A `w`-bit value written out and read back, for values below `2^w`. */
  lemma StreamValue(block: seq<nat>, w: nat, j: nat)
    requires j < |block| && block[j] < Pow2(w)
    ensures j * w + w <= |block| * w
    ensures FromBits(Stream(block, w)[j * w..j * w + w]) == block[j]
  {
    StreamAt(block, w, j);
    FromToBits(block[j], w);
  }

  /** With 4-bit values, byte `k` holds value `2 * k` in its low half and value `2 * k + 1` in its high half. */
  lemma Width4Byte(block: seq<U32>, k: nat)
    requires |block| == VALUES_BLOCK_LEN && k < 16
    requires block[2 * k] < 16 && block[2 * k + 1] < 16
    ensures Compress(block, 4)[k] == block[2 * k] + 16 * block[2 * k + 1]
  {
    hide Compress;
    hide Stream;
    hide FromBits;
    hide Pow2;
    CompressByte(block, 4, k);
    var stream := Stream(block, 4);
    Pow2Small();
    StreamValue(block, 4, 2 * k);
    StreamValue(block, 4, 2 * k + 1);
    var lo, hi := stream[8 * k..8 * k + 4], stream[8 * k + 4..8 * k + 8];
    assert stream[8 * k..8 * k + 8] == lo + hi;
    FromBitsAppend(lo, hi);
  }

  /** The powers of two used by the examples. */
  lemma Pow2Small()
    ensures Pow2(2) == 4 && Pow2(4) == 16 && Pow2(8) == 256
  {
  }

  /** The value of a 0/1 digit. */
  function Digit(b: bool): (d: nat)
    ensures d < 2 && (d == 1 <==> b)
  {
    if b then 1 else 0
  }

  /** The number of two bits, least significant first. */
  lemma FromBits2(bs: seq<bool>)
    requires |bs| == 2
    ensures FromBits(bs) == Digit(bs[0]) + 2 * Digit(bs[1])
  {
    assert bs[1..][1..] == [];
  }

  /** The number of four bits, least significant first. */
  lemma FromBits4(bs: seq<bool>)
    requires |bs| == 4
    ensures FromBits(bs) == Digit(bs[0]) + 2 * Digit(bs[1]) + 4 * Digit(bs[2]) + 8 * Digit(bs[3])
  {
    hide FromBits;
    hide Digit;
    var lo, hi := bs[..2], bs[2..];
    assert bs == lo + hi;
    assert Pow2(2) == 4;
    FromBitsAppend(lo, hi);
    assert FromBits(bs) == FromBits(lo) + 4 * FromBits(hi);
    FromBits2(lo);
    FromBits2(hi);
    assert lo[0] == bs[0] && lo[1] == bs[1] && hi[0] == bs[2] && hi[1] == bs[3];
  }

  /** The number of eight bits, least significant first. */
  lemma FromBits8(bs: seq<bool>)
    requires |bs| == 8
    ensures FromBits(bs) == Digit(bs[0]) + 2 * Digit(bs[1]) + 4 * Digit(bs[2]) + 8 * Digit(bs[3])
      + 16 * Digit(bs[4]) + 32 * Digit(bs[5]) + 64 * Digit(bs[6]) + 128 * Digit(bs[7])
  {
    hide FromBits;
    hide Digit;
    var lo, hi := bs[..4], bs[4..];
    assert bs == lo + hi;
    assert Pow2(4) == 16;
    FromBitsAppend(lo, hi);
    assert FromBits(bs) == FromBits(lo) + 16 * FromBits(hi);
    FromBits4(lo);
    FromBits4(hi);
    assert lo[0] == bs[0] && lo[1] == bs[1] && lo[2] == bs[2] && lo[3] == bs[3];
    assert hi[0] == bs[4] && hi[1] == bs[5] && hi[2] == bs[6] && hi[3] == bs[7];
  }

  /** With 1-bit values, bit `j` of the stream is value `j`. */
  lemma Width1Bit(block: seq<U32>, j: nat)
    requires j < |block| && block[j] < 2
    ensures j < |Stream(block, 1)| && Digit(Stream(block, 1)[j]) == block[j]
  {
    hide Stream;
    StreamAt(block, 1, j);
    assert Stream(block, 1)[j] == Stream(block, 1)[j..j + 1][0];
    assert ToBits(block[j], 1)[0] == (block[j] % 2 == 1);
  }

  /** With 1-bit values, byte `k` holds values `8 * k` to `8 * k + 7`, the first in the lowest bit. */
  lemma Width1Byte(block: seq<U32>, k: nat)
    requires |block| == VALUES_BLOCK_LEN && k < 4
    requires forall j :: 0 <= j < |block| ==> block[j] < 2
    ensures Compress(block, 1)[k] == block[8 * k] + 2 * block[8 * k + 1] + 4 * block[8 * k + 2]
      + 8 * block[8 * k + 3] + 16 * block[8 * k + 4] + 32 * block[8 * k + 5]
      + 64 * block[8 * k + 6] + 128 * block[8 * k + 7]
  {
    hide Compress;
    hide Stream;
    hide FromBits;
    hide Digit;
    CompressByte(block, 1, k);
    var stream := Stream(block, 1);
    var bits := stream[8 * k..8 * k + 8];
    forall i | 0 <= i < 8
      ensures Digit(bits[i]) == block[8 * k + i]
    {
      Width1Bit(block, 8 * k + i);
    }
    FromBits8(bits);
  }

  // ---------------------------------------------------------------------------
  // Widths of concrete blocks

  /** A block whose largest value is `block[k]` has the width of that value. */
  lemma NumBitsOf(block: seq<U32>, k: nat)
    requires k < |block|
    requires forall j :: 0 <= j < |block| ==> block[j] <= block[k]
    ensures NumBits(block) == BitWidth(block[k])
  {
    var m := MaxOf(block);
    assert block[k] <= m;
  }

  /** Entry `j` of a padded block: a value, or a zero after the values. */
  lemma PadAt(values: seq<U32>, j: nat)
    requires |values| <= VALUES_BLOCK_LEN && j < VALUES_BLOCK_LEN
    ensures Pad(values)[j] == if j < |values| then values[j] else 0
  {
    if j < |values| {
      assert Pad(values)[j] == Pad(values)[..|values|][j];
    }
  }

  /** The packed bytes of a single block of at most 32 values. */
  lemma PackedOneBlock(values: seq<U32>)
    requires 0 < |values| <= VALUES_BLOCK_LEN
    ensures Packed(values) == PackBlock(values)
  {
    PackedCons(values);
    assert values[..|values|] == values;
    assert values[|values|..] == [];
  }

  // ---------------------------------------------------------------------------
  // The examples

  /** All-zero vectors need zero bits: one width byte `0` per block of 32 and nothing else. */
  lemma {:induction false} PackedZeros(n: nat)
    ensures Packed(seq(n, _ => 0)) == seq((n + 31) / 32, _ => 0)
    decreases n
  {
    hide Packed;
    hide PackBlock;
    hide Compress;
    hide NumBits;
    hide Pad;
    hide Pow2;
    var values: seq<U32> := seq(n, _ => 0);
    if n > 0 {
      var len := BlockLen(n);
      var first, others := values[..len], values[len..];
      PackedCons(values);
      PackBlockIs(first);
      var block := Pad(first);
      forall j | 0 <= j < |block|
        ensures block[j] == 0
      {
        PadAt(first, j);
      }
      NumBitsZero(block);
      assert PackedSize(len, 0) == 0;
      assert PackBlock(first) == [0];
      assert others == seq(n - len, _ => 0);
      PackedZeros(n - len);
      assert (n + 31) / 32 == 1 + (n - len + 31) / 32;
      assert [0] + seq((n - len + 31) / 32, _ => 0) == seq((n + 31) / 32, _ => 0);
    } else {
      assert values == [];
    }
  }

  /** `[] => []`, `[0] => [0]`, `[0; 10] => [0]` and `[0; 77] => [0, 0, 0]`. */
  lemma PackedZeroExamples()
    ensures Packed([]) == []
    ensures Packed([0]) == [0]
    ensures Packed(seq(10, _ => 0)) == [0]
    ensures Packed(seq(77, _ => 0)) == [0, 0, 0]
  {
    hide Packed;
    PackedZeros(0);
    PackedZeros(1);
    assert [0] == seq(1, _ => 0);
    PackedZeros(10);
    assert seq(1, _ => 0) == [0];
    PackedZeros(77);
    assert seq(3, _ => 0) == [0, 0, 0];
  }

  /** A block of `n` ones, for `0 < n <= 32`: width 1, ones for the first `n` entries. */
  lemma OnesBlock(n: nat)
    requires 0 < n <= VALUES_BLOCK_LEN
    ensures var block := Pad(seq(n, _ => 1));
      NumBits(block) == 1
      && forall j :: 0 <= j < |block| ==> block[j] == if j < n then 1 else 0
  {
    hide NumBits;
    hide Pad;
    var values: seq<U32> := seq(n, _ => 1);
    var block := Pad(values);
    forall j | 0 <= j < |block|
      ensures block[j] == if j < n then 1 else 0
    {
      PadAt(values, j);
    }
    NumBitsOf(block, 0);
    assert BitWidth(1) == 1;
  }

  /** A byte of a 1-bit block whose eight values are all ones. */
  lemma OnesByte(block: seq<U32>, k: nat, n: nat)
    requires |block| == VALUES_BLOCK_LEN && k < 4 && 8 * k + 8 <= n <= VALUES_BLOCK_LEN
    requires forall j :: 0 <= j < |block| ==> block[j] == if j < n then 1 else 0
    ensures Compress(block, 1)[k] == 0xFF
  {
    hide Compress;
    Width1Byte(block, k);
  }

  /** `[1] => [1, 1]`: width 1, then one byte whose lowest bit is set. */
  lemma PackedOneExample()
    ensures Packed([1]) == [1, 1]
  {
    hide Packed;
    hide PackBlock;
    hide Compress;
    hide NumBits;
    hide Pad;
    hide Pow2;
    var values: seq<U32> := [1];
    assert values == seq(1, _ => 1);
    OnesBlock(1);
    var block := Pad(values);
    PackedOneBlock(values);
    PackBlockIs(values);
    Width1Byte(block, 0);
    assert PackedSize(1, 1) == 1;
    assert Compress(block, 1)[..1] == [1];
  }

  /** `[1; 10] => [1, 0b11111111, 0b00000011]`. */
  lemma PackedTenOnesExample()
    ensures Packed(seq(10, _ => 1)) == [1, 0xFF, 0x03]
  {
    hide Packed;
    hide PackBlock;
    hide Compress;
    hide NumBits;
    hide Pad;
    hide Pow2;
    var values: seq<U32> := seq(10, _ => 1);
    OnesBlock(10);
    var block := Pad(values);
    PackedOneBlock(values);
    PackBlockIs(values);
    Width1Byte(block, 0);
    Width1Byte(block, 1);
    assert PackedSize(10, 1) == 2;
    assert Compress(block, 1)[..2] == [0xFF, 0x03];
  }

  /** The 32 ones of a full block: width 1, then four bytes `0b11111111`. */
  lemma FullOnesBlock()
    ensures PackBlock(seq(32, _ => 1)) == [1, 0xFF, 0xFF, 0xFF, 0xFF]
  {
    hide PackBlock;
    hide Compress;
    hide NumBits;
    hide Pad;
    hide Pow2;
    var values: seq<U32> := seq(32, _ => 1);
    OnesBlock(32);
    var block := Pad(values);
    PackBlockIs(values);
    OnesByte(block, 0, 32);
    OnesByte(block, 1, 32);
    OnesByte(block, 2, 32);
    OnesByte(block, 3, 32);
    assert PackedSize(32, 1) == 4;
    assert Compress(block, 1)[..4] == [0xFF, 0xFF, 0xFF, 0xFF];
  }

  /** `[1; 32] => [1, 0b11111111 x 4]`. */
  lemma PackedThirtyTwoOnesExample()
    ensures Packed(seq(32, _ => 1)) == [1, 0xFF, 0xFF, 0xFF, 0xFF]
  {
    hide Packed;
    hide PackBlock;
    PackedOneBlock(seq(32, _ => 1));
    FullOnesBlock();
  }

  /** `[1; 33] => [1, 0b11111111 x 4, 1, 0b00000001]`: a full block, then a block of one value. */
  lemma PackedThirtyThreeOnesExample()
    ensures Packed(seq(33, _ => 1)) == [1, 0xFF, 0xFF, 0xFF, 0xFF, 1, 1]
  {
    hide Packed;
    hide PackBlock;
    var values: seq<U32> := seq(33, _ => 1);
    PackedCons(values);
    assert values[..32] == seq(32, _ => 1);
    FullOnesBlock();
    assert values[32..] == [1];
    PackedOneExample();
  }

  /** The values `1, 2, ..., 10` of the counting test vector. */
  const CountingValues: seq<U32> := [1, 2, 3, 4, 5, 6, 7, 8, 9, 10]

  /** `[1, 2, ..., 10] => [4, 0x21, 0x43, 0x65, 0x87, 0xA9]`: width 4, two values per byte, the first in the low half. */
  lemma PackedCountingExample()
    ensures Packed(CountingValues) == [4, 0x21, 0x43, 0x65, 0x87, 0xA9]
  {
    hide Packed;
    hide PackBlock;
    hide Compress;
    hide NumBits;
    hide Pad;
    hide Pow2;
    PackedOneBlock(CountingValues);
    CountingRecord();
  }

  /** The record of `1 .. 10`: width byte 4, then five bytes. */
  lemma CountingRecord()
    ensures PackBlock(CountingValues) == [4, 0x21, 0x43, 0x65, 0x87, 0xA9]
  {
    hide PackBlock;
    hide Compress;
    hide NumBits;
    hide Pad;
    hide Pow2;
    CountingEntries();
    PackBlockIs(CountingValues);
    CountingBytes();
    assert PackedSize(10, 4) == 5;
  }

  /** The padded block of `1 .. 10`: the values, then zeros, and so width 4. */
  lemma CountingEntries()
    ensures var block := Pad(CountingValues);
      NumBits(block) == 4
  {
    hide NumBits;
    hide Pad;
    hide Pow2;
    var values := CountingValues;
    var block := Pad(values);
    forall j | 0 <= j < |block|
      ensures block[j] == if j < 10 then j + 1 else 0
    {
      PadAt(values, j);
    }
    NumBitsOf(block, 9);
    assert BitWidth(10) == 4;
  }

  /** The first five bytes of the 4-bit block of `1 .. 10`. */
  lemma CountingBytes()
    ensures |Pad(CountingValues)| == VALUES_BLOCK_LEN
    ensures Compress(Pad(CountingValues), 4)[..5] == [0x21, 0x43, 0x65, 0x87, 0xA9]
  {
    hide Compress;
    hide Pad;
    var values := CountingValues;
    var block := Pad(values);
    forall j | 0 <= j < |block|
      ensures block[j] == if j < 10 then j + 1 else 0
    {
      PadAt(values, j);
    }
    Width4Byte(block, 0);
    Width4Byte(block, 1);
    Width4Byte(block, 2);
    Width4Byte(block, 3);
    Width4Byte(block, 4);
  }
}
