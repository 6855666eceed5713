/**
  Bit-packing of `u32` value vectors into a byte dictionary, as done by the
  bitpacked map. Values go in blocks of `VALUES_BLOCK_LEN = 32`; a block is
  stored as one width byte `w` followed by the first `ceil(len * w / 8)`
  bytes of the block compressed to `w` bits per value.

  The compressor is `BitPacker1x` of the `bitpacking` crate, whose code is
  not part of this model. It is modelled by its scalar meaning: a block of
  32 values is one stream of `32 * w` bits, value `j` in bits
  `[j * w, (j + 1) * w)`, least significant bit first, cut into bytes least
  significant bit first; decompressing reads `4 * w` bytes.
*/
module BitPack {
  import opened Bits

  /** Number of values bit-packed in one batch. */
  const VALUES_BLOCK_LEN: nat := 32
  /** The zero bytes appended after the whole dictionary, so that the last block's decompression reads inside it. */
  const PADDING_LEN: nat := 4 * VALUES_BLOCK_LEN

  /** An unsigned byte. */
  type U8 = x: nat | x < 256

  // ---------------------------------------------------------------------------
  // Widths

  /** The number of binary digits of `x`: the least `w` with `x < 2^w`. */
  function BitWidth(x: nat): (w: nat)
    ensures x < Pow2(w)
    ensures w == 0 || Pow2(w - 1) <= x
  {
    if x == 0 then 0 else 1 + BitWidth(x / 2)
  }

  /** A value below `2^n` needs at most `n` digits. */
  lemma WidthAtMost(x: nat, n: nat)
    requires x < Pow2(n)
    ensures BitWidth(x) <= n
  {
  }

  /** The largest entry of `s`, `0` when `s` is empty. */
  function MaxOf(s: seq<nat>): (r: nat)
    ensures forall i :: 0 <= i < |s| ==> s[i] <= r
    ensures r == 0 || exists i :: 0 <= i < |s| && s[i] == r
  {
    if s == [] then 0
    else
      var m := MaxOf(s[1..]);
      if s[0] >= m then s[0] else m
  }

  /**
    `BitPacker1x::num_bits`: the bit width of the largest value of the
    block, which holds every value of the block and is at most 32.
  */
  function NumBits(block: seq<U32>): (w: nat)
    ensures w <= 32
    ensures forall i :: 0 <= i < |block| ==> block[i] < Pow2(w)
  {
    var m := MaxOf(block);
    Pow2At32();
    WidthAtMost(m, 32);
    BitWidth(m)
  }

  /** `NumBits` is the least width: some value of the block needs its top digit. */
  lemma NumBitsMinimal(block: seq<U32>)
    ensures var w := NumBits(block);
      w == 0 || exists i :: 0 <= i < |block| && Pow2(w - 1) <= block[i]
  {
    var m := MaxOf(block);
    if m != 0 {
      var i :| 0 <= i < |block| && block[i] == m;
      assert Pow2(NumBits(block) - 1) <= block[i];
    }
  }

  /** The width is 0 exactly for an all-zero block. */
  lemma NumBitsZero(block: seq<U32>)
    ensures NumBits(block) == 0 <==> forall i :: 0 <= i < |block| ==> block[i] == 0
  {
    var m := MaxOf(block);
    if NumBits(block) == 0 {
      assert m < Pow2(0);
    } else {
      assert m != 0;
      var i :| 0 <= i < |block| && block[i] == m;
    }
  }

  // ---------------------------------------------------------------------------
  // Bit strings, least significant bit first

  /** The low `n` digits of `x`, least significant first. */
  function ToBits(x: nat, n: nat): (bs: seq<bool>)
    ensures |bs| == n
  {
    if n == 0 then [] else [x % 2 == 1] + ToBits(x / 2, n - 1)
  }

  /** The number whose digits, least significant first, are `bs`. */
  function FromBits(bs: seq<bool>): (x: nat)
    ensures x < Pow2(|bs|)
  {
    if bs == [] then 0 else (if bs[0] then 1 else 0) + 2 * FromBits(bs[1..])
  }

  /** Digit `i` of the bit string of `x` is the digit of weight `2^i`. */
  lemma {:induction false} ToBitsAt(x: nat, n: nat, i: nat)
    requires i < n
    ensures ToBits(x, n)[i] == Bit(x, i)
  {
    if i > 0 {
      ToBitsAt(x / 2, n - 1, i - 1);
    }
  }

  /** Reading back the low `n` digits of a value below `2^n` gives the value. */
  lemma {:induction false} FromToBits(x: nat, n: nat)
    requires x < Pow2(n)
    ensures FromBits(ToBits(x, n)) == x
  {
    if n > 0 {
      FromToBits(x / 2, n - 1);
      assert ToBits(x, n)[1..] == ToBits(x / 2, n - 1);
    }
  }

  /** Writing out a bit string's number in as many digits gives the bit string. */
  lemma {:induction false} ToFromBits(bs: seq<bool>)
    ensures ToBits(FromBits(bs), |bs|) == bs
  {
    if bs != [] {
      ToFromBits(bs[1..]);
      var b := if bs[0] then 1 else 0;
      var x := FromBits(bs);
      DivAddMultiple(b, FromBits(bs[1..]), 2);
      assert ToBits(x, |bs|) == [bs[0]] + bs[1..];
    }
  }

  lemma MulDouble(p: nat, f: nat)
    ensures 2 * (p * f) == (2 * p) * f
  {
  }

  lemma Pow2Zero()
    ensures Pow2(0) == 1
  {
  }

  lemma Pow2Succ(n: nat)
    ensures Pow2(n + 1) == 2 * Pow2(n)
  {
  }

  /** One step of `FromBits`. */
  lemma FromBitsCons(bs: seq<bool>)
    requires bs != []
    ensures FromBits(bs) == (if bs[0] then 1 else 0) + 2 * FromBits(bs[1..])
  {
  }

  /** The number of a concatenation: the second part's digits weigh `2^|a|` more. */
  lemma {:induction false} FromBitsAppend(a: seq<bool>, b: seq<bool>)
    ensures FromBits(a + b) == FromBits(a) + Pow2(|a|) * FromBits(b)
  {
    hide FromBits;
    hide Pow2;
    if a != [] {
      FromBitsAppend(a[1..], b);
      assert (a + b)[0] == a[0] && (a + b)[1..] == a[1..] + b;
      var p, fb := Pow2(|a| - 1), FromBits(b);
      FromBitsCons(a + b);
      FromBitsCons(a);
      Pow2Succ(|a| - 1);
      MulDouble(p, fb);
    } else {
      assert a + b == b;
      Pow2Zero();
    }
  }

  // ---------------------------------------------------------------------------
  // Bytes

  /** Cutting a bit string into bytes, eight bits per byte, least significant first. */
  function PackBytes(bits: seq<bool>): (bytes: seq<U8>)
    requires |bits| % 8 == 0
    ensures |bytes| == |bits| / 8
    decreases |bits|
  {
    if bits == [] then []
    else
      assert Pow2(8) == 256;
      [FromBits(bits[..8])] + PackBytes(bits[8..])
  }

  /** The bits of a byte string, eight per byte, least significant first. */
  function UnpackBits(bytes: seq<U8>): (bits: seq<bool>)
    ensures |bits| == 8 * |bytes|
  {
    if bytes == [] then [] else ToBits(bytes[0], 8) + UnpackBits(bytes[1..])
  }

  /** Reading back the bits of packed bytes gives the bit string. */
  lemma {:induction false} UnpackPackBytes(bits: seq<bool>)
    requires |bits| % 8 == 0
    ensures UnpackBits(PackBytes(bits)) == bits
    decreases |bits|
  {
    if bits != [] {
      UnpackPackBytes(bits[8..]);
      ToFromBits(bits[..8]);
      assert PackBytes(bits)[1..] == PackBytes(bits[8..]);
      assert bits == bits[..8] + bits[8..];
    }
  }

  /** The bits of a concatenation of byte strings. */
  lemma {:induction false} UnpackBitsAppend(a: seq<U8>, b: seq<U8>)
    ensures UnpackBits(a + b) == UnpackBits(a) + UnpackBits(b)
  {
    if a != [] {
      UnpackBitsAppend(a[1..], b);
      assert (a + b)[0] == a[0] && (a + b)[1..] == a[1..] + b;
      assert UnpackBits(a + b) == ToBits(a[0], 8) + (UnpackBits(a[1..]) + UnpackBits(b));
    } else {
      assert a + b == b;
    }
  }

  /** The first `8 * c` bits of a byte string are the bits of its first `c` bytes. */
  lemma UnpackBitsPrefix(bytes: seq<U8>, c: nat)
    requires c <= |bytes|
    ensures UnpackBits(bytes)[..8 * c] == UnpackBits(bytes[..c])
  {
    assert bytes == bytes[..c] + bytes[c..];
    UnpackBitsAppend(bytes[..c], bytes[c..]);
  }

  // ---------------------------------------------------------------------------
  // One block

  /** The bits of the values of `block`, `w` bits each, in order. */
  function Stream(block: seq<nat>, w: nat): (bs: seq<bool>)
    ensures |bs| == |block| * w
  {
    if block == [] then [] else ToBits(block[0], w) + Stream(block[1..], w)
  }

  /** `j * w + w` fits in `n * w` when `j < n`. */
  lemma SliceFits(j: nat, w: nat, n: nat)
    requires j < n
    ensures j * w + w <= n * w
  {
    MulMonotone(j + 1, n, w);
  }

  /** Value `j` of a block occupies bits `[j * w, (j + 1) * w)` of its stream. */
  lemma {:induction false} StreamAt(block: seq<nat>, w: nat, j: nat)
    requires j < |block|
    ensures j * w + w <= |block| * w
    ensures Stream(block, w)[j * w..j * w + w] == ToBits(block[j], w)
  {
    SliceFits(j, w, |block|);
    if j > 0 {
      StreamAt(block[1..], w, j - 1);
      var rest := Stream(block[1..], w);
      assert Stream(block, w) == ToBits(block[0], w) + rest;
      assert j * w == w + (j - 1) * w;
      assert Stream(block, w)[j * w..j * w + w] == rest[(j - 1) * w..(j - 1) * w + w];
    }
  }

  /** `BitPacker1x::compress`: the block's stream of `w`-bit values as `4 * w` bytes. */
  function Compress(block: seq<U32>, w: nat): (bytes: seq<U8>)
    requires |block| == VALUES_BLOCK_LEN
    ensures |bytes| == 4 * w
    ensures UnpackBits(bytes) == Stream(block, w)
  {
    UnpackPackBytes(Stream(block, w));
    PackBytes(Stream(block, w))
  }

  /**
    `BitPacker1x::decompress`: reads `4 * w` bytes and gives 32 values,
    value `j` from bits `[j * w, (j + 1) * w)`.
  */
  function Decompress(bytes: seq<U8>, w: nat): (block: seq<U32>)
    requires |bytes| >= 4 * w && w <= 32
    ensures |block| == VALUES_BLOCK_LEN
  {
    var bits := UnpackBits(bytes[..4 * w]);
    seq(VALUES_BLOCK_LEN, j requires 0 <= j < VALUES_BLOCK_LEN => Field(bits, j, w))
  }

  /** Value `j` of a block of `w`-bit values: bits `[j * w, (j + 1) * w)`. */
  function Field(bits: seq<bool>, j: nat, w: nat): (x: U32)
    requires |bits| == VALUES_BLOCK_LEN * w && w <= 32 && j < VALUES_BLOCK_LEN
    ensures j * w + w <= |bits| && x == FromBits(bits[j * w..j * w + w])
  {
    SliceFits(j, w, VALUES_BLOCK_LEN);
    var x := FromBits(bits[j * w..j * w + w]);
    assert x < U32_BOUND by {
      Pow2At32();
      Pow2Monotone(w, 32);
    }
    x
  }

  /** `div_ceil(len * w, 8)`: the bytes that hold `len` values of `w` bits. */
  function PackedSize(len: nat, w: nat): (size: nat)
    ensures len <= VALUES_BLOCK_LEN ==> size <= 4 * w
    ensures len * w <= 8 * size
  {
    if len <= VALUES_BLOCK_LEN then MulMonotone(len, VALUES_BLOCK_LEN, w); (len * w + 7) / 8
    else (len * w + 7) / 8
  }

  /** Value `j` of a decompressed block is read from bits `[j * w, (j + 1) * w)` of the first `4 * w` bytes. */
  lemma DecompressAt(bytes: seq<U8>, w: nat, j: nat)
    requires |bytes| >= 4 * w && w <= 32 && j < VALUES_BLOCK_LEN
    ensures j * w + w <= 32 * w
    ensures Decompress(bytes, w)[j] == FromBits(UnpackBits(bytes[..4 * w])[j * w..j * w + w])
  {
    SliceFits(j, w, VALUES_BLOCK_LEN);
  }

  /**
    The bits a decompression reads from `c` compressed bytes followed by
    anything agree with the compressed stream on its first `8 * c` bits.
  */
  lemma PrefixBits(packed: seq<U8>, c: nat, rest: seq<U8>, w: nat)
    requires c <= |packed| && c <= 4 * w <= c + |rest|
    ensures 8 * c <= |UnpackBits((packed[..c] + rest)[..4 * w])|
    ensures UnpackBits((packed[..c] + rest)[..4 * w])[..8 * c] == UnpackBits(packed)[..8 * c]
  {
    var input := (packed[..c] + rest)[..4 * w];
    assert input[..c] == packed[..c];
    UnpackBitsPrefix(input, c);
    UnpackBitsPrefix(packed, c);
  }

  /**
    Decompressing the first `ceil(len * w / 8)` compressed bytes followed by
    any bytes at all gives back the first `len` values of the block, as long
    as `4 * w` bytes can be read.
  */
  lemma BlockRoundTrip(block: seq<U32>, len: nat, w: nat, rest: seq<U8>)
    requires |block| == VALUES_BLOCK_LEN && len <= VALUES_BLOCK_LEN && w <= 32
    requires forall j :: 0 <= j < |block| ==> block[j] < Pow2(w)
    requires PackedSize(len, w) + |rest| >= 4 * w
    ensures var c := PackedSize(len, w);
      forall j :: 0 <= j < len ==> Decompress(Compress(block, w)[..c] + rest, w)[j] == block[j]
  {
    hide Compress;
    hide Decompress;
    hide PackedSize;
    var c := PackedSize(len, w);
    forall j | 0 <= j < len ensures Decompress(Compress(block, w)[..c] + rest, w)[j] == block[j] {
      ValueRoundTrip(block, len, w, rest, j);
    }
  }

  /** Value `j` of a block read back from its first `len` compressed values' bytes. */
  lemma ValueRoundTrip(block: seq<U32>, len: nat, w: nat, rest: seq<U8>, j: nat)
    requires |block| == VALUES_BLOCK_LEN && len <= VALUES_BLOCK_LEN && w <= 32
    requires j < len && block[j] < Pow2(w)
    requires PackedSize(len, w) + |rest| >= 4 * w
    ensures Decompress(Compress(block, w)[..PackedSize(len, w)] + rest, w)[j] == block[j]
  {
    hide Compress;
    hide Decompress;
    hide UnpackBits;
    hide Stream;
    hide FromBits;
    hide ToBits;
    hide Pow2;
    hide PackedSize;
    var c := PackedSize(len, w);
    var packed := Compress(block, w);
    var input := packed[..c] + rest;
    var bits := UnpackBits(input[..4 * w]);
    var stream := Stream(block, w);
    PrefixBits(packed, c, rest, w);
    assert bits[..8 * c] == stream[..8 * c];
    SliceFits(j, w, len);
    StreamAt(block, w, j);
    DecompressAt(input, w, j);
    SamePrefixSlice(bits, stream, 8 * c, j * w, j * w + w);
    FromToBits(block[j], w);
  }

  /** Two bit strings with the same first `n` bits agree on every slice inside them. */
  lemma SamePrefixSlice(x: seq<bool>, y: seq<bool>, n: nat, a: nat, b: nat)
    requires n <= |x| && n <= |y| && x[..n] == y[..n] && a <= b <= n
    ensures x[a..b] == y[a..b]
  {
    forall k | a <= k < b
      ensures x[k] == y[k]
    {
      assert x[k] == x[..n][k];
    }
    assert x[a..b] == y[a..b];
  }

  // ---------------------------------------------------------------------------
  // Vectors of values

  /** The length of the next block when `n` values are left: `chunks(32)`. */
  function BlockLen(n: nat): (len: nat)
    ensures len <= VALUES_BLOCK_LEN && len <= n && (n > 0 ==> len > 0)
    ensures n >= VALUES_BLOCK_LEN ==> len == VALUES_BLOCK_LEN
    ensures n < VALUES_BLOCK_LEN ==> len == n
  {
    if n < VALUES_BLOCK_LEN then n else VALUES_BLOCK_LEN
  }

  /** A block of at most 32 values, padded with zeros to 32. */
  function Pad(values: seq<U32>): (block: seq<U32>)
    requires |values| <= VALUES_BLOCK_LEN
    ensures |block| == VALUES_BLOCK_LEN && block[..|values|] == values
    ensures forall j :: |values| <= j < VALUES_BLOCK_LEN ==> block[j] == 0
  {
    values + seq(VALUES_BLOCK_LEN - |values|, _ => 0)
  }

  /** One packed block: its width byte, then the compressed bytes its values need. */
  function PackBlock(values: seq<U32>): (bytes: seq<U8>)
    requires |values| <= VALUES_BLOCK_LEN
    ensures |bytes| > 0 && bytes[0] == NumBits(Pad(values)) && bytes[0] <= 32
    ensures |bytes| == 1 + PackedSize(|values|, bytes[0])
  {
    var block := Pad(values);
    var w := NumBits(block);
    [w] + Compress(block, w)[..PackedSize(|values|, w)]
  }

  /** The bytes `pack_values` appends for `values`: one packed block per 32 values; none for no values. */
  function Packed(values: seq<U32>): (bytes: seq<U8>)
    ensures bytes == [] <==> values == []
    decreases |values|
  {
    if values == [] then []
    else
      var len := BlockLen(|values|);
      PackBlock(values[..len]) + Packed(values[len..])
  }

  /**
    `dict` starts with width bytes and blocks for `n` values, each width
    at most 32 and followed by the `4 * w` bytes its decompression reads.
  */
  predicate UnpackFits(dict: seq<U8>, n: nat)
    decreases n
  {
    n == 0
    || (|dict| > 0 && dict[0] <= 32 && |dict| >= 1 + 4 * dict[0]
        && UnpackFits(dict[1 + PackedSize(BlockLen(n), dict[0])..], n - BlockLen(n)))
  }

  /** The `n` values `unpack_values` reads from the start of `dict`. */
  function Unpacked(dict: seq<U8>, n: nat): (values: seq<U32>)
    requires UnpackFits(dict, n)
    ensures |values| == n
    decreases n
  {
    if n == 0 then []
    else
      var len, w := BlockLen(n), dict[0];
      Decompress(dict[1..], w)[..len] + Unpacked(dict[1 + PackedSize(len, w)..], n - len)
  }

  /** One step of `Packed`: the first block, then the rest. */
  lemma PackedCons(values: seq<U32>)
    requires values != []
    ensures var len := BlockLen(|values|);
      Packed(values) == PackBlock(values[..len]) + Packed(values[len..])
  {
  }

  /** One step of `PackBlock`. */
  lemma PackBlockIs(values: seq<U32>)
    requires |values| <= VALUES_BLOCK_LEN
    ensures var w := NumBits(Pad(values));
      PackBlock(values) == [w] + Compress(Pad(values), w)[..PackedSize(|values|, w)]
  {
  }

  /** No values fit anywhere and unpack to nothing. */
  lemma UnpackedNil(dict: seq<U8>)
    ensures UnpackFits(dict, 0) && Unpacked(dict, 0) == []
  {
  }

  /** One step of `UnpackFits` and `Unpacked`: the first block, then the rest. */
  lemma UnpackedCons(dict: seq<U8>, n: nat)
    requires n > 0
    ensures UnpackFits(dict, n) <==>
      |dict| > 0 && dict[0] <= 32 && |dict| >= 1 + 4 * dict[0]
      && UnpackFits(dict[1 + PackedSize(BlockLen(n), dict[0])..], n - BlockLen(n))
    ensures UnpackFits(dict, n) ==>
      var len, w := BlockLen(n), dict[0];
      Unpacked(dict, n) == Decompress(dict[1..], w)[..len] + Unpacked(dict[1 + PackedSize(len, w)..], n - len)
  {
  }

  /**
    The first block of packed values followed by at least
    `4 * VALUES_BLOCK_LEN` more bytes: its width byte, then its compressed
    bytes, then the remaining records.
  */
  lemma PackedHeadBytes(values: seq<U32>, rest: seq<U8>)
    requires values != [] && |rest| >= PADDING_LEN
    ensures var dict, len := Packed(values) + rest, BlockLen(|values|);
      var block := Pad(values[..len]);
      var w := NumBits(block);
      |dict| > 0 && dict[0] == w
      && dict[1..] == Compress(block, w)[..PackedSize(len, w)] + (Packed(values[len..]) + rest)
  {
    hide Packed;
    hide PackBlock;
    hide Compress;
    hide NumBits;
    hide Pad;
    hide Pow2;
    hide UnpackBits;
    hide Stream;
    hide PackedSize;
    var len := BlockLen(|values|);
    PackedCons(values);
    PackBlockIs(values[..len]);
    var block := Pad(values[..len]);
    var w := NumBits(block);
    HeadTail(Packed(values), w, Compress(block, w)[..PackedSize(len, w)], Packed(values[len..]), rest);
  }

  /** A width byte, a block and what follows it, seen from the byte after the width. */
  lemma HeadTail(a: seq<U8>, w: U8, cb: seq<U8>, more: seq<U8>, rest: seq<U8>)
    requires a == [w] + cb + more
    ensures |a + rest| > 0 && (a + rest)[0] == w && (a + rest)[1..] == cb + (more + rest)
  {
    assert a + rest == [w] + (cb + (more + rest));
  }

  /**
    The first block of packed values followed by at least
    `4 * VALUES_BLOCK_LEN` more bytes: a width of at most 32 with `4 * w`
    readable bytes after it, and the rest of the records right after its
    bytes.
  */
  lemma PackedHead(values: seq<U32>, rest: seq<U8>)
    requires values != [] && |rest| >= PADDING_LEN
    ensures var dict, len := Packed(values) + rest, BlockLen(|values|);
      |dict| > 0 && dict[0] <= 32 && |dict| >= 1 + 4 * dict[0]
      && dict[1 + PackedSize(len, dict[0])..] == Packed(values[len..]) + rest
  {
    hide Packed;
    hide Compress;
    hide NumBits;
    hide Pad;
    var len := BlockLen(|values|);
    var block := Pad(values[..len]);
    var w := NumBits(block);
    var c := PackedSize(len, w);
    var tail := Packed(values[len..]) + rest;
    var dict := Packed(values) + rest;
    PackedHeadBytes(values, rest);
    assert dict[1 + c..] == tail by {
      assert dict[1..][c..] == tail;
    }
  }

  /** The first block of packed values, followed by enough bytes, decompresses to the first 32 values. */
  lemma PackedHeadValues(values: seq<U32>, rest: seq<U8>)
    requires values != [] && |rest| >= PADDING_LEN
    ensures var dict, len := Packed(values) + rest, BlockLen(|values|);
      |dict| > 0 && dict[0] <= 32 && |dict| >= 1 + 4 * dict[0]
      && Decompress(dict[1..], dict[0])[..len] == values[..len]
  {
    hide Packed;
    hide Compress;
    hide Decompress;
    hide NumBits;
    hide Pad;
    var len := BlockLen(|values|);
    var block := Pad(values[..len]);
    var w := NumBits(block);
    var tail := Packed(values[len..]) + rest;
    var dict := Packed(values) + rest;
    PackedHeadBytes(values, rest);
    BlockRoundTrip(block, len, w, tail);
    var out := Decompress(dict[1..], w);
    forall j | 0 <= j < len ensures out[j] == values[j] {
      assert block[..len][j] == values[..len][j];
    }
    assert out[..len] == values[..len];
  }

  /**
    The round trip: packed values followed by at least `4 * VALUES_BLOCK_LEN`
    more bytes (the padding, or further records) unpack to the values.
  */
  lemma {:induction false} PackedRoundTrip(values: seq<U32>, rest: seq<U8>)
    requires |rest| >= PADDING_LEN
    ensures UnpackFits(Packed(values) + rest, |values|)
    ensures Unpacked(Packed(values) + rest, |values|) == values
    decreases |values|
  {
    hide Packed;
    hide UnpackFits;
    hide Unpacked;
    hide Decompress;
    if values != [] {
      var len := BlockLen(|values|);
      PackedHead(values, rest);
      PackedHeadValues(values, rest);
      PackedRoundTrip(values[len..], rest);
      UnpackedCons(Packed(values) + rest, |values|);
      assert values == values[..len] + values[len..];
    } else {
      UnpackedNil(Packed(values) + rest);
    }
  }

  /**
    `pack_values(values, dict)`: append one packed block per 32 values to
    the dictionary.
  */
  method PackValues(values: seq<U32>, dict: seq<U8>) returns (out: seq<U8>)
    ensures out == dict + Packed(values)
  {
    hide Packed;
    hide PackBlock;
    hide Compress;
    hide NumBits;
    hide Pad;
    hide Pow2;
    hide PackedSize;
    out := dict;
    var start := 0;
    while start < |values|
      invariant start <= |values|
      invariant out + Packed(values[start..]) == dict + Packed(values)
      decreases |values| - start
    {
      var len := BlockLen(|values| - start);
      var valuesBlock := Pad(values[start..start + len]);
      var numBits := NumBits(valuesBlock);
      var packedBlock := Compress(valuesBlock, numBits);
      var size := PackedSize(len, numBits);
      var bytes := [numBits] + packedBlock[..size];
      PackedFrom(values, start);
      assert out + bytes + Packed(values[start + len..]) == out + Packed(values[start..]);
      out := out + bytes;
      start := start + len;
    }
  }

  /** The records of `values` from `start` on: the block at `start`, then the records after it. */
  lemma PackedFrom(values: seq<U32>, start: nat)
    requires start < |values|
    ensures var len := BlockLen(|values| - start);
      var block := Pad(values[start..start + len]);
      var w := NumBits(block);
      Packed(values[start..]) == [w] + Compress(block, w)[..PackedSize(len, w)] + Packed(values[start + len..])
  {
    hide Packed;
    hide PackBlock;
    hide Compress;
    hide NumBits;
    hide Pad;
    hide Pow2;
    hide PackedSize;
    var len := BlockLen(|values| - start);
    assert values[start..][..len] == values[start..start + len];
    assert values[start..][len..] == values[start + len..];
    PackedCons(values[start..]);
    PackBlockIs(values[start..start + len]);
  }

  /**
    `unpack_values(dict, res)`: fill `res` block by block, reading a width
    byte and then decompressing, and moving the cursor past the bytes the
    block's values take.
  */
  method UnpackValues(dict: seq<U8>, res: array<U32>)
    requires UnpackFits(dict, res.Length)
    modifies res
    ensures res[..] == Unpacked(dict, res.Length)
  {
    hide UnpackFits;
    hide Unpacked;
    hide Decompress;
    var n := res.Length;
    var cursor := dict;
    var start := 0;
    while start < n
      invariant start <= n
      invariant UnpackFits(cursor, n - start)
      invariant res[..start] + Unpacked(cursor, n - start) == Unpacked(dict, n)
      decreases n - start
    {
      var len := BlockLen(n - start);
      UnpackedCons(cursor, n - start);
      var numBits := cursor[0];
      ghost var block := cursor;
      cursor := cursor[1..];
      var size := PackedSize(len, numBits);
      var valuesBlock := Decompress(cursor, numBits);
      cursor := cursor[size..];
      assert cursor == block[1 + size..];
      forall k | 0 <= k < len {
        res[start + k] := valuesBlock[k];
      }
      assert res[..start + len] == res[..start] + valuesBlock[..len];
      start := start + len;
    }
    assert res[..] == res[..n];
  }
}
