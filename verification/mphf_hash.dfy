/**
  The integer helpers of the fingerprinting MPHF: the per-level rehash of a
  key hash, the multiply-shift range reduction, the slot of a hash inside its
  group for a given seed, and the sizing of a level.
*/
module MphfHash {
  import opened Bits

  /** Seeds are stored as `u16`. */
  const U16_BOUND: nat := 0x1_0000
  type U16 = x: nat | x < 0x1_0000
  /** The odd multiplier of `hash_with_seed`. */
  const SEED_MULTIPLIER: nat := 0x5851f42d4c957f2d

  /**
    `fastmod32(x, n)`: `((x as u64) * (n as u64)) >> 32`, Lemire's
    multiply-shift replacement for `x % n`. The product of two 32-bit values
    never overflows 64 bits.
  */
  function FastMod32(x: U32, n: U32): (r: nat)
    ensures n > 0 ==> r < n
    ensures n == 0 ==> r == 0
    ensures r < U32_BOUND
  {
    FastModBound(x, n);
    x * n / U32_BOUND
  }

  lemma FastModBound(x: U32, n: U32)
    ensures x * n / U32_BOUND <= n
    ensures n > 0 ==> x * n / U32_BOUND < n
  {
    MulMonotone(x, U32_BOUND, n);
    if n > 0 {
      MulMonotone(x + 1, U32_BOUND, n);
    }
  }

  /**
    `hash_with_seed(hash, seed)`: the hash xor-ed with the seed, multiplied by
    `0x5851f42d4c957f2d` modulo 2^128, and folded to 64 bits by xor-ing the
    low and high halves.
  */
  function HashWithSeed(hash: U64, seed: U32): U64
  {
    Pow2At128();
    Pow2At64();
    var x := Xor(hash, seed, 128) * SEED_MULTIPLIER % U128_BOUND;
    assert x / U64_BOUND < U64_BOUND;
    Xor(x % U64_BOUND, x / U64_BOUND, 64)
  }

  /** `x ^ (x >> k)` on `u32`. */
  function XorShift32(x: U32, k: nat): U32
  {
    Pow2At32();
    Xor(x, Shr(x, k), 32)
  }

  /** The finalizer of MurmurHash3 on 32 bits, with wrapping multiplications. */
  function Mix32(x: U32): U32
  {
    var x1 := XorShift32(x, 16) * 0x85ebca6b % U32_BOUND;
    var x2 := XorShift32(x1, 13) * 0xc2b2ae35 % U32_BOUND;
    XorShift32(x2, 16)
  }

  /**
    `bit_index_for_seed(hash, seed, groups_before)`: the low 32 bits of the
    hash xor-ed with the seed, mixed, and reduced to an offset inside the
    `B`-bit group `groups_before`.
  */
  function BitIndexForSeed(b: nat, hash: U64, groupSeed: U16, groupsBefore: nat): (r: nat)
    requires 1 <= b <= 64
    ensures groupsBefore * b <= r < groupsBefore * b + b
  {
    var x := Xor(hash % U32_BOUND, groupSeed, 32);
    assert x < U32_BOUND by {
      Pow2At32();
    }
    var offset := FastMod32(Mix32(x), b);
    MulMonotone(0, groupsBefore, b);
    groupsBefore * b + offset
  }

  /** `s` segments of 64 bits split evenly into groups of `b` bits. */
  predicate SegmentsFit(b: nat, s: nat)
    requires b >= 1
  {
    (64 * s) % b == 0
  }

  /**
    The smallest number of segments, from `k` up, whose `64 * s` bits split
    evenly into groups of `b` bits.
  */
  function FitFrom(b: nat, k: nat): (s: nat)
    requires b >= 1
    ensures k <= s && SegmentsFit(b, s)
    ensures forall t :: k <= t < s ==> !SegmentsFit(b, t)
    decreases if k % b == 0 then 0 else b - k % b
  {
    if SegmentsFit(b, k) then k
    else
      ModSucc(k, b);
      FitFrom(b, k + 1)
  }

  /** A multiple of `b` always fits; otherwise the next remainder is one more, or zero. */
  lemma ModSucc(k: nat, b: nat)
    requires b >= 1
    ensures k % b == 0 ==> SegmentsFit(b, k)
    ensures k % b != 0 ==> (k + 1) % b == 0 || (k + 1) % b == k % b + 1
  {
    if k % b == 0 {
      assert 64 * k == b * (64 * (k / b));
      DivModUnique(64 * k, b, 64 * (k / b), 0);
    } else if k % b + 1 < b {
      DivModUnique(k + 1, b, k / b, k % b + 1);
    } else {
      DivModUnique(k + 1, b, k / b + 1, 0);
    }
  }

  /**
    The segments of a level of `size` bits: the least `s` with `64 * s >= size`
    whose bits split evenly into groups of `b` bits.
  */
  function SegmentsFor(b: nat, size: nat): (s: nat)
    requires b >= 1
    ensures 64 * s >= size && SegmentsFit(b, s)
  {
    FitFrom(b, (size + 63) / 64)
  }

  /** No fewer segments cover `size` bits and split evenly into groups of `b` bits. */
  lemma SegmentsForLeast(b: nat, size: nat, t: nat)
    requires b >= 1 && 64 * t >= size && SegmentsFit(b, t)
    ensures SegmentsFor(b, size) <= t
  {
    var k0 := (size + 63) / 64;
    assert t >= k0;
  }

  /**
    `level_size_groups_segments(size)`: rounds `size` up to a multiple of 64,
    then adds 64 until the total is also a multiple of `B`, and splits the
    total into groups of `B` bits and segments of 64 bits.
  */
  method LevelSizeGroupsSegments(b: nat, size: nat) returns (groups: nat, segments: nat)
    requires 1 <= b <= 64
    ensures segments == SegmentsFor(b, size)
    ensures groups * b == segments * 64
  {
    var k0 := (size + 63) / 64;
    var adjustedSize := k0 * 64;
    ghost var k := k0;
    ghost var target := FitFrom(b, k0);
    while adjustedSize % b != 0
      invariant adjustedSize == 64 * k && k0 <= k <= target
      decreases target - k
    {
      assert !SegmentsFit(b, k);
      adjustedSize := adjustedSize + 64;
      k := k + 1;
    }
    assert SegmentsFit(b, k);
    groups, segments := adjustedSize / b, adjustedSize / 64;
    assert groups * b == adjustedSize by {
      DivModUnique(adjustedSize, b, adjustedSize / b, 0);
    }
  }

  /** `ceil(len * gamma)` for a rational `gamma = num / den`: the least `r` with `r * den >= len * num`. */
  function LevelSize(len: nat, num: nat, den: nat): (r: nat)
    requires den > 0
    ensures r * den >= len * num
    ensures r > 0 ==> (r - 1) * den < len * num
  {
    var r := (len * num + den - 1) / den;
    DivModUnique(len * num + den - 1, den, r, (len * num + den - 1) % den);
    r
  }
}
