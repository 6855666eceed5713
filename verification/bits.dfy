/**
  Machine words and the bitwise operators of the source language, modelled on
  unbounded naturals. A `u64` is a natural below 2^64; an operator on `n`-bit
  words is a function over the binary digits of its operands, least
  significant digit first. `Bit(x, i)` is the digit of weight 2^i.
*/
module Bits {

  const U32_BOUND: nat := 0x1_0000_0000
  const U64_BOUND: nat := 0x1_0000_0000_0000_0000
  const U128_BOUND: nat := 0x1_0000_0000_0000_0000_0000_0000_0000_0000

  /** An unsigned 32-bit integer. */
  type U32 = x: nat | x < 0x1_0000_0000
  /** An unsigned 64-bit integer. */
  type U64 = x: nat | x < 0x1_0000_0000_0000_0000

  function Pow2(n: nat): (r: nat)
    ensures r >= 1
  {
    if n == 0 then 1 else 2 * Pow2(n - 1)
  }

  /** Digit `i` of `x` in base 2: `(x >> i) & 1 == 1`. */
  predicate Bit(x: nat, i: nat)
  {
    if i == 0 then x % 2 == 1 else Bit(x / 2, i - 1)
  }

  /** `x & y` on the low `n` bits. */
  function And(x: nat, y: nat, n: nat): (r: nat)
    ensures r < Pow2(n)
  {
    if n == 0 then 0 else (x % 2) * (y % 2) + 2 * And(x / 2, y / 2, n - 1)
  }

  /** `x | y` on the low `n` bits. */
  function Or(x: nat, y: nat, n: nat): (r: nat)
    ensures r < Pow2(n)
  {
    if n == 0 then 0
    else (if x % 2 == 1 || y % 2 == 1 then 1 else 0) + 2 * Or(x / 2, y / 2, n - 1)
  }

  /** `x ^ y` on the low `n` bits. */
  function Xor(x: nat, y: nat, n: nat): (r: nat)
    ensures r < Pow2(n)
  {
    if n == 0 then 0
    else (if x % 2 != y % 2 then 1 else 0) + 2 * Xor(x / 2, y / 2, n - 1)
  }

  /** `!x` on the low `n` bits. */
  function Not(x: nat, n: nat): (r: nat)
    ensures r < Pow2(n)
  {
    if n == 0 then 0 else (1 - x % 2) + 2 * Not(x / 2, n - 1)
  }

  /** `x << k` without truncation. */
  function Shl(x: nat, k: nat): nat
  {
    if k == 0 then x else 2 * Shl(x, k - 1)
  }

  /** `x >> k`. */
  function Shr(x: nat, k: nat): nat
  {
    if k == 0 then x else Shr(x / 2, k - 1)
  }

  /** The low `n` bits of `x` (truncating cast). */
  function Trunc(x: nat, n: nat): (r: nat)
    ensures r < Pow2(n)
  {
    if n == 0 then 0 else x % 2 + 2 * Trunc(x / 2, n - 1)
  }

  /** Number of set bits among the low `n` bits of `x`. */
  function CountOnes(x: nat, n: nat): (r: nat)
    ensures r <= n
  {
    if n == 0 then 0 else CountOnes(x, n - 1) + (if Bit(x, n - 1) then 1 else 0)
  }

  // ---------------------------------------------------------------------------
  // 64-bit operators, as the source writes them on `u64`

  function And64(x: U64, y: U64): U64 { Pow2At64(); And(x, y, 64) }
  function Or64(x: U64, y: U64): U64 { Pow2At64(); Or(x, y, 64) }
  function Not64(x: U64): U64 { Pow2At64(); Not(x, 64) }
  /** `x << k` on `u64` (bits shifted past position 63 are lost). */
  function Shl64(x: U64, k: nat): U64 { Pow2At64(); Trunc(Shl(x, k), 64) }
  function Shr64(x: U64, k: nat): U64 { ShrBound(x, k); Shr(x, k) }
  /** `x.count_ones()` on `u64`. */
  function PopCount(x: U64): nat { CountOnes(x, 64) }

  // ---------------------------------------------------------------------------
  // Arithmetic facts

  lemma Pow2At64()
    ensures Pow2(64) == U64_BOUND
  {
    Pow2At32();
    Pow2Add(32, 32);
  }

  lemma Pow2At128()
    ensures Pow2(128) == U128_BOUND
  {
    Pow2At64();
    Pow2Add(64, 64);
  }

  lemma Pow2At32()
    ensures Pow2(32) == U32_BOUND
  {
    assert Pow2(2) == 4;
    Pow2Add(2, 2);
    Pow2Add(4, 4);
    Pow2Add(8, 8);
    Pow2Add(16, 16);
  }

  lemma Pow2At12()
    ensures Pow2(12) == 0x1000
  {
    assert Pow2(2) == 4;
    Pow2Add(2, 2);
    Pow2Add(4, 4);
    Pow2Add(4, 8);
  }

  lemma Pow2At15()
    ensures Pow2(15) == 0x8000
  {
    Pow2At12();
    assert Pow2(3) == 8;
    Pow2Add(12, 3);
  }

  lemma Pow2At44()
    ensures Pow2(44) == 0x1000_0000_0000
  {
    Pow2At12();
    Pow2At32();
    Pow2Add(32, 12);
  }

  lemma {:induction false} Pow2Add(a: nat, b: nat)
    ensures Pow2(a + b) == Pow2(a) * Pow2(b)
  {
    if a > 0 {
      Pow2Add(a - 1, b);
    }
  }

  lemma {:induction false} Pow2Monotone(a: nat, b: nat)
    requires a <= b
    ensures Pow2(a) <= Pow2(b)
  {
    if a < b {
      Pow2Monotone(a, b - 1);
    }
  }

  /** Euclidean division is unique: the quotient and remainder are determined. */
  lemma DivModUnique(a: int, m: int, q: int, r: int)
    requires m > 0 && 0 <= r < m && a == m * q + r
    ensures a / m == q && a % m == r
  {
    var q', r' := a / m, a % m;
    assert m * q' + r' == m * q + r;
    if q' < q {
      MulGap(m, q, q');
    } else if q' > q {
      MulGap(m, q', q);
    }
  }

  lemma MulGap(m: int, a: int, b: int)
    requires m > 0 && a > b
    ensures m * a - m * b >= m
  {
    var d := a - b - 1;
    assert m * d >= 0;
    assert m * a == m * b + m * d + m;
  }

  lemma MulMonotone(a: nat, b: nat, p: nat)
    requires a <= b
    ensures a * p <= b * p
  {
    assert b * p == a * p + (b - a) * p;
  }

  /** Adding a multiple of `m * k` does not change digit `(a / m) % k`. */
  lemma DivModAddHigh(a: nat, z: nat, m: nat, k: nat)
    requires m > 0 && k > 0
    ensures (a + m * (k * z)) / m % k == a / m % k
  {
    DivAddMultiple(a, k * z, m);
    DivAddMultiple(a / m, z, k);
  }

  lemma DivAddMultiple(a: nat, b: nat, m: nat)
    requires m > 0
    ensures (a + m * b) / m == a / m + b
    ensures (a + m * b) % m == a % m
  {
    DivModUnique(a + m * b, m, a / m + b, a % m);
  }

  lemma DivDiv(a: nat, m: nat, k: nat)
    requires m > 0 && k > 0
    ensures a / m / k == a / (m * k)
  {
    var d, t := a / m, a % m;
    var q, s := d / k, d % k;
    assert d == k * q + s && a == m * d + t;
    assert a == (m * k) * q + (s * m + t) by {
      assert m * d == m * (k * q) + m * s;
      assert m * (k * q) == (m * k) * q;
    }
    assert s * m + t < m * k by {
      MulMonotone(s, k - 1, m);
      assert (k - 1) * m == k * m - m;
    }
    DivModUnique(a, m * k, q, s * m + t);
  }

  // ---------------------------------------------------------------------------
  // Pointwise meaning of the operators

  lemma BitOfDouble(x: nat, b: nat, i: nat)
    requires b < 2
    ensures Bit(b + 2 * x, i) == if i == 0 then b == 1 else Bit(x, i - 1)
  {
    DivAddMultiple(b, x, 2);
  }

  lemma {:induction false} BitAnd(x: nat, y: nat, n: nat, i: nat)
    ensures Bit(And(x, y, n), i) == (i < n && Bit(x, i) && Bit(y, i))
  {
    if n > 0 {
      BitOfDouble(And(x / 2, y / 2, n - 1), (x % 2) * (y % 2), i);
      if i > 0 {
        BitAnd(x / 2, y / 2, n - 1, i - 1);
      }
    } else {
      assert And(x, y, n) == 0;
      BitZero(i);
    }
  }

  lemma {:induction false} BitOr(x: nat, y: nat, n: nat, i: nat)
    ensures Bit(Or(x, y, n), i) == (i < n && (Bit(x, i) || Bit(y, i)))
  {
    if n > 0 {
      BitOfDouble(Or(x / 2, y / 2, n - 1), if x % 2 == 1 || y % 2 == 1 then 1 else 0, i);
      if i > 0 {
        BitOr(x / 2, y / 2, n - 1, i - 1);
      }
    } else {
      BitZero(i);
    }
  }

  lemma {:induction false} BitNot(x: nat, n: nat, i: nat)
    ensures Bit(Not(x, n), i) == (i < n && !Bit(x, i))
  {
    if n > 0 {
      BitOfDouble(Not(x / 2, n - 1), 1 - x % 2, i);
      if i > 0 {
        BitNot(x / 2, n - 1, i - 1);
      }
    } else {
      BitZero(i);
    }
  }

  lemma {:induction false} BitTrunc(x: nat, n: nat, i: nat)
    ensures Bit(Trunc(x, n), i) == (i < n && Bit(x, i))
  {
    if n > 0 {
      BitOfDouble(Trunc(x / 2, n - 1), x % 2, i);
      if i > 0 {
        BitTrunc(x / 2, n - 1, i - 1);
      }
    } else {
      BitZero(i);
    }
  }

  lemma {:induction false} BitShl(x: nat, k: nat, i: nat)
    ensures Bit(Shl(x, k), i) == (k <= i && Bit(x, i - k))
  {
    if k > 0 {
      BitOfDouble(Shl(x, k - 1), 0, i);
      if i > 0 {
        BitShl(x, k - 1, i - 1);
      }
    }
  }

  lemma {:induction false} BitShr(x: nat, k: nat, i: nat)
    ensures Bit(Shr(x, k), i) == Bit(x, i + k)
  {
    if k > 0 {
      BitShr(x / 2, k - 1, i);
    }
  }

  lemma {:induction false} ShrBound(x: nat, k: nat)
    ensures Shr(x, k) <= x
  {
    if k > 0 {
      ShrBound(x / 2, k - 1);
    }
  }

  lemma {:induction false} BitZero(i: nat)
    ensures !Bit(0, i)
  {
    if i > 0 {
      BitZero(i - 1);
    }
  }

  lemma {:induction false} BitPow2(k: nat, i: nat)
    ensures Bit(Pow2(k), i) == (i == k)
  {
    if k == 0 {
      BitOfDouble(0, 1, i);
      if i > 0 {
        BitZero(i - 1);
      }
    } else {
      BitOfDouble(Pow2(k - 1), 0, i);
      if i > 0 {
        BitPow2(k - 1, i - 1);
      }
    }
  }

  /** `(1 << k) - 1` has exactly the low `k` bits set. */
  lemma {:induction false} BitLowMask(k: nat, i: nat)
    ensures Bit(Pow2(k) - 1, i) == (i < k)
  {
    if k == 0 {
      BitZero(i);
    } else {
      BitOfDouble(Pow2(k - 1) - 1, 1, i);
      if i > 0 {
        BitLowMask(k - 1, i - 1);
      }
    }
  }

  lemma {:induction false} BitBound(x: nat, n: nat, i: nat)
    requires x < Pow2(n) && n <= i
    ensures !Bit(x, i)
  {
    if n == 0 {
      BitZero(i);
    } else {
      BitBound(x / 2, n - 1, i - 1);
    }
  }

  /** Two numbers below 2^n with the same low `n` bits are equal. */
  lemma {:induction false} BitsEqual(x: nat, y: nat, n: nat)
    requires x < Pow2(n) && y < Pow2(n)
    requires forall i :: 0 <= i < n ==> Bit(x, i) == Bit(y, i)
    ensures x == y
  {
    if n > 0 {
      assert Bit(x, 0) == Bit(y, 0);
      forall i | 0 <= i < n - 1
        ensures Bit(x / 2, i) == Bit(y / 2, i)
      {
        assert Bit(x, i + 1) == Bit(y, i + 1);
      }
      BitsEqual(x / 2, y / 2, n - 1);
    }
  }

  lemma {:induction false} ShlIsMul(x: nat, k: nat)
    ensures Shl(x, k) == x * Pow2(k)
  {
    if k > 0 {
      ShlIsMul(x, k - 1);
    }
  }

  lemma {:induction false} ShrIsDiv(x: nat, k: nat)
    ensures Shr(x, k) == x / Pow2(k)
  {
    if k > 0 {
      ShrIsDiv(x / 2, k - 1);
      DivDiv(x, 2, Pow2(k - 1));
    }
  }

  /** `x & ((1 << k) - 1)` keeps the low `k` bits: it is `x % 2^k`. */
  lemma {:induction false} AndLowMaskIsMod(x: nat, k: nat, n: nat)
    requires k <= n
    ensures And(x, Pow2(k) - 1, n) == x % Pow2(k)
  {
    Pow2Monotone(k, n);
    forall i | 0 <= i < n
      ensures Bit(And(x, Pow2(k) - 1, n), i) == Bit(x % Pow2(k), i)
    {
      BitAnd(x, Pow2(k) - 1, n, i);
      BitLowMask(k, i);
      BitMod(x, k, i);
    }
    BitsEqual(And(x, Pow2(k) - 1, n), x % Pow2(k), n);
  }

  lemma {:induction false} BitMod(x: nat, k: nat, i: nat)
    ensures Bit(x % Pow2(k), i) == (i < k && Bit(x, i))
  {
    if k == 0 {
      BitZero(i);
    } else {
      var m := Pow2(k - 1);
      // x % 2m == x % 2 + 2 * ((x / 2) % m)
      DivModUnique(x, 2 * m, (x / 2) / m, x % 2 + 2 * ((x / 2) % m));
      BitOfDouble((x / 2) % m, x % 2, i);
      if i > 0 {
        BitMod(x / 2, k - 1, i - 1);
      }
    }
  }

  /** OR with a number whose low `k` bits are clear is addition. */
  lemma {:induction false} OrDisjointIsAdd(a: nat, b: nat, k: nat, n: nat)
    requires b < Pow2(k) && a * Pow2(k) + b < Pow2(n)
    ensures Or(a * Pow2(k), b, n) == a * Pow2(k) + b
  {
    forall i | 0 <= i < n
      ensures Bit(Or(a * Pow2(k), b, n), i) == Bit(a * Pow2(k) + b, i)
    {
      BitOr(a * Pow2(k), b, n, i);
      BitOfMulAdd(a, b, k, i);
      ShlIsMul(a, k);
      BitShl(a, k, i);
      if i >= k {
        BitBound(b, k, i);
      } else {
        BitMod(b, k, i);
        DivAddMultiple(b, a, Pow2(k));
        BitMod(a * Pow2(k), k, i);
        BitZero(i);
      }
    }
    BitsEqual(Or(a * Pow2(k), b, n), a * Pow2(k) + b, n);
  }

  /** The digits of `a * 2^k + b` with `b < 2^k`: those of `b` below `k`, of `a` above. */
  lemma {:induction false} BitOfMulAdd(a: nat, b: nat, k: nat, i: nat)
    requires b < Pow2(k)
    ensures Bit(a * Pow2(k) + b, i) == if i < k then Bit(b, i) else Bit(a, i - k)
  {
    if k > 0 {
      var m := Pow2(k - 1);
      assert a * Pow2(k) + b == b % 2 + 2 * (a * m + b / 2);
      BitOfDouble(a * m + b / 2, b % 2, i);
      BitOfDouble(b / 2, b % 2, i);
      assert b == b % 2 + 2 * (b / 2);
      if i > 0 {
        BitOfMulAdd(a, b / 2, k - 1, i - 1);
      }
    }
  }

  // ---------------------------------------------------------------------------
  // Counting set bits

  lemma {:induction false} CountOnesSame(x: nat, y: nat, n: nat)
    requires forall i :: 0 <= i < n ==> Bit(x, i) == Bit(y, i)
    ensures CountOnes(x, n) == CountOnes(y, n)
  {
    if n > 0 {
      CountOnesSame(x, y, n - 1);
    }
  }

  lemma {:induction false} CountOnesMonotone(x: nat, a: nat, b: nat)
    requires a <= b
    ensures CountOnes(x, a) <= CountOnes(x, b)
  {
    if a < b {
      CountOnesMonotone(x, a, b - 1);
    }
  }

  /** Bits at positions `n` and above do not add to the count. */
  lemma {:induction false} CountOnesHigh(x: nat, m: nat, n: nat)
    requires m <= n
    requires forall i :: m <= i < n ==> !Bit(x, i)
    ensures CountOnes(x, n) == CountOnes(x, m)
  {
    if m < n {
      CountOnesHigh(x, m, n - 1);
    }
  }

  /**
    If the low bits of `x` are the `k` bits of `w` starting at `pos` (and the
    rest are clear), `x` has as many ones as `w` has in `[pos, pos + k)`.
  */
  lemma {:induction false} CountOnesWindow(x: nat, w: nat, pos: nat, k: nat, n: nat)
    requires k <= n
    requires forall i :: 0 <= i < n ==> Bit(x, i) == (i < k && Bit(w, pos + i))
    ensures CountOnes(x, n) + CountOnes(w, pos) == CountOnes(w, pos + k)
  {
    CountOnesHigh(x, k, n);
    CountOnesPrefixWindow(x, w, pos, k);
  }

  lemma {:induction false} CountOnesPrefixWindow(x: nat, w: nat, pos: nat, k: nat)
    requires forall i :: 0 <= i < k ==> Bit(x, i) == Bit(w, pos + i)
    ensures CountOnes(x, k) + CountOnes(w, pos) == CountOnes(w, pos + k)
  {
    if k > 0 {
      CountOnesPrefixWindow(x, w, pos, k - 1);
    }
  }

  // ---------------------------------------------------------------------------
  // Word-level facts used by the bit-vector code

  /** A value that already fits in `n` bits is unchanged by truncation. */
  lemma TruncSmall(x: nat, n: nat)
    requires x < Pow2(n)
    ensures Trunc(x, n) == x
  {
    forall i | 0 <= i < n
      ensures Bit(Trunc(x, n), i) == Bit(x, i)
    {
      BitTrunc(x, n, i);
    }
    BitsEqual(Trunc(x, n), x, n);
  }

  /** The digits of the bit field `(x >> p) & ((1 << k) - 1)`. */
  lemma FieldBit(x: nat, p: nat, k: nat, i: nat)
    ensures Bit(x / Pow2(p) % Pow2(k), i) == (i < k && Bit(x, p + i))
  {
    ShrIsDiv(x, p);
    BitMod(x / Pow2(p), k, i);
    BitShr(x, p, i);
  }

  /** `1 << b` on `u64`, for `b < 64`, is `2^b`. */
  lemma OneShl64(b: nat)
    requires b < 64
    ensures Shl64(1, b) == Pow2(b)
  {
    TruncPow2(b, 64);
  }

  lemma TruncPow2(b: nat, n: nat)
    requires b < n
    ensures Trunc(Shl(1, b), n) == Pow2(b)
  {
    ShlIsMul(1, b);
    Pow2Monotone(b + 1, n);
    TruncSmall(Pow2(b), n);
  }

  /** `x & (1 << b) == 0` tests exactly that bit `b` of `x` is clear. */
  lemma SingleBitTest(x: U64, b: nat)
    requires b < 64
    ensures (And64(x, Shl64(1, b)) == 0) == !Bit(x, b)
  {
    Pow2At64();
    OneShl64(b);
    var r := And64(x, Shl64(1, b));
    BitAnd(x, Pow2(b), 64, b);
    BitPow2(b, b);
    if Bit(x, b) {
      BitZero(b);
    } else {
      forall i | 0 <= i < 64
        ensures Bit(r, i) == Bit(0, i)
      {
        BitAnd(x, Pow2(b), 64, i);
        BitPow2(b, i);
        BitZero(i);
      }
      BitsEqual(r, 0, 64);
    }
  }

  /** `(x & ((1 << k) - 1)).count_ones()` counts the set bits of `x` below `k`. */
  lemma LowMaskCount(x: U64, k: nat)
    requires k < 64
    ensures Shl64(1, k) >= 1
    ensures PopCount(And64(x, Shl64(1, k) - 1)) == CountOnes(x, k)
  {
    Pow2At64();
    OneShl64(k);
    var r := And(x, Pow2(k) - 1, 64);
    forall i | 0 <= i < 64
      ensures Bit(r, i) == (i < k && Bit(x, i))
    {
      BitAnd(x, Pow2(k) - 1, 64, i);
      BitLowMask(k, i);
    }
    CountOnesHigh(r, k, 64);
    CountOnesSame(r, x, k);
  }
}
