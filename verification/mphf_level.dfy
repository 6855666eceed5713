/**
  One level of the fingerprinting MPHF. A level of `groups` groups of `B`
  bits (`segments` words of 64 bits) is built over the hashes that are still
  unplaced. For every seed, each hash marks the slot `bit_index_for_seed`
  gives it; the slots hit by exactly one hash are its collision-free bits.
  Per group the seed with the most collision-free bits is kept, together
  with those bits, and the hashes that landed on a kept bit are placed.

  The working buffer `group_bits` holds three words per segment: word
  `3*q` marks the slots hit under the current seed, word `3*q + 1` the slots
  hit at least twice, and word `3*q + 2` the best bits kept so far. Each of
  the three is called a plane here.
*/
module MphfLevel {
  import opened Bits
  import opened Rank
  import opened MphfHash

  /** The geometry of a level: group width `B`, level number, groups and 64-bit segments. */
  datatype Shape = Shape(b: nat, level: nat, groups: nat, segments: nat)

  predicate ShapeOk(sh: Shape)
  {
    1 <= sh.b <= 64 && sh.level < U32_BOUND && sh.groups >= 1 && sh.groups * sh.b == 64 * sh.segments
  }

  // ---------------------------------------------------------------------------
  // Where a hash lands

  /** The group of a hash on this level: `fastmod32(level_hash as u32, groups as u32)`. */
  function GroupIndex(sh: Shape, h: U64): (g: nat)
    requires ShapeOk(sh)
    ensures g < sh.groups
  {
    hide HashWithSeed;
    var levelHash := HashWithSeed(h, sh.level);
    FastMod32(levelHash % U32_BOUND, sh.groups % U32_BOUND)
  }

  /** The slot of a hash under `seed`: a bit of its own group's `B`-bit window. */
  function SlotFor(sh: Shape, seed: U16, h: U64): (p: nat)
    requires ShapeOk(sh)
    ensures GroupIndex(sh, h) * sh.b <= p < GroupIndex(sh, h) * sh.b + sh.b
    ensures p < 64 * sh.segments
  {
    var g := GroupIndex(sh, h);
    GroupWindow(sh, g);
    BitIndexForSeed(sh.b, HashWithSeed(h, sh.level), seed, g)
  }

  /** The window of every group lies inside the level. */
  lemma GroupWindow(sh: Shape, g: nat)
    requires ShapeOk(sh) && g < sh.groups
    ensures 0 <= g * sh.b && g * sh.b + sh.b <= 64 * sh.segments
  {
    MulMonotone(0, g, sh.b);
    MulMonotone(g + 1, sh.groups, sh.b);
  }

  /** The slots of all hashes when every group uses `seed`. */
  function SeedSlots(sh: Shape, seed: U16, hs: seq<U64>): (s: seq<nat>)
    requires ShapeOk(sh)
    ensures |s| == |hs|
    ensures forall i {:trigger s[i]} :: 0 <= i < |hs| ==> s[i] == SlotFor(sh, seed, hs[i])
  {
    if hs == [] then [] else SeedSlots(sh, seed, hs[..|hs| - 1]) + [SlotFor(sh, seed, hs[|hs| - 1])]
  }

  /** Number of entries of `s` equal to `p`. */
  function Occ(s: seq<nat>, p: nat): nat
  {
    if s == [] then 0 else Occ(s[..|s| - 1], p) + (if s[|s| - 1] == p then 1 else 0)
  }

  lemma OccAppend(s: seq<nat>, x: nat, p: nat)
    ensures Occ(s + [x], p) == Occ(s, p) + (if x == p then 1 else 0)
  {
    assert (s + [x])[..|s|] == s;
  }

  lemma SeedSlotsPrefix(sh: Shape, seed: U16, hs: seq<U64>, i: nat)
    requires ShapeOk(sh) && i < |hs|
    ensures SeedSlots(sh, seed, hs[..i + 1]) == SeedSlots(sh, seed, hs[..i]) + [SlotFor(sh, seed, hs[i])]
  {
    assert hs[..i + 1][..i] == hs[..i];
  }

  // ---------------------------------------------------------------------------
  // Reference words: a bit per slot, set when its hit count is of a kind

  datatype Hit = AtLeastOnce | AtLeastTwice | ExactlyOnce

  predicate HitIs(kind: Hit, c: nat)
  {
    match kind
    case AtLeastOnce => c >= 1
    case AtLeastTwice => c >= 2
    case ExactlyOnce => c == 1
  }

  /** The low `n` bits of segment `q`: bit `i` set when slot `64*q + i` is hit as `kind` says. */
  function HitBits(s: seq<nat>, q: nat, kind: Hit, n: nat): (w: nat)
    ensures w < Pow2(n)
  {
    if n == 0 then 0
    else (if HitIs(kind, Occ(s, 64 * q + n - 1)) then 1 else 0) * Pow2(n - 1) + HitBits(s, q, kind, n - 1)
  }

  function HitWord(s: seq<nat>, q: nat, kind: Hit): U64
  {
    Pow2At64();
    HitBits(s, q, kind, 64)
  }

  lemma {:induction false} BitHitBits(s: seq<nat>, q: nat, kind: Hit, n: nat, i: nat)
    ensures Bit(HitBits(s, q, kind, n), i) == (i < n && HitIs(kind, Occ(s, 64 * q + i)))
  {
    if n == 0 {
      BitZero(i);
    } else {
      var c := if HitIs(kind, Occ(s, 64 * q + n - 1)) then 1 else 0;
      BitOfMulAdd(c, HitBits(s, q, kind, n - 1), n - 1, i);
      BitHitBits(s, q, kind, n - 1, i);
      if i >= n - 1 {
        if c == 0 {
          BitZero(i - (n - 1));
        } else {
          BitPow2(0, i - (n - 1));
        }
      }
    }
  }

  lemma BitHitWord(s: seq<nat>, q: nat, kind: Hit, i: nat)
    requires i < 64
    ensures Bit(HitWord(s, q, kind), i) == HitIs(kind, Occ(s, 64 * q + i))
  {
    BitHitBits(s, q, kind, 64, i);
  }

  /** With no hashes marked, every hit word is zero. */
  lemma HitWordEmpty(q: nat, kind: Hit)
    ensures HitWord([], q, kind) == 0
  {
    Pow2At64();
    forall i | 0 <= i < 64
      ensures Bit(HitWord([], q, kind), i) == Bit(0, i)
    {
      BitHitWord([], q, kind, i);
      BitZero(i);
    }
    BitsEqual(HitWord([], q, kind), 0, 64);
  }

  // ---------------------------------------------------------------------------
  // The working buffer: three words per segment

  /** Word `k` of every segment: the current, collision or best plane. */
  function Plane(w: seq<U64>, n: nat, k: nat): (p: seq<U64>)
    requires k < 3 && |w| == 3 * n
    ensures |p| == n && forall q :: 0 <= q < n ==> p[q] == w[3 * q + k]
  {
    seq(n, q requires 0 <= q < n => w[3 * q + k])
  }

  /** Word `k` of every segment is the same in `w` and `w0`. */
  predicate SameWords(w: seq<U64>, w0: seq<U64>, n: nat, k: nat)
    requires k < 3 && |w| == 3 * n && |w0| == 3 * n
  {
    forall q :: 0 <= q < n ==> w[3 * q + k] == w0[3 * q + k]
  }

  /** The current and collision words are all zero. */
  predicate Zeroed(w: seq<U64>, n: nat)
    requires |w| == 3 * n
  {
    forall q :: 0 <= q < n ==> w[3 * q] == 0 && w[3 * q + 1] == 0
  }

  /** The current and collision words mark the slots of `s` hit at least once and at least twice. */
  predicate Marked(w: seq<U64>, s: seq<nat>, n: nat)
    requires |w| == 3 * n
  {
    forall q :: 0 <= q < n ==> w[3 * q] == HitWord(s, q, AtLeastOnce) && w[3 * q + 1] == HitWord(s, q, AtLeastTwice)
  }

  /** The current words mark the slots of `s` hit exactly once. */
  predicate CurrentExact(w: seq<U64>, s: seq<nat>, n: nat)
    requires |w| == 3 * n
  {
    forall q :: 0 <= q < n ==> w[3 * q] == HitWord(s, q, ExactlyOnce)
  }

  // ---------------------------------------------------------------------------
  // update_group_bits_with_seed, phase by phase

  /** Clears the current and collision words of every segment; the best words stay. */
  method ResetCurrent(n: nat, a: array<U64>)
    requires a.Length == 3 * n
    modifies a
    ensures Zeroed(a[..], n)
    ensures SameWords(a[..], old(a[..]), n, 2)
  {
    var j := 0;
    while j < n
      invariant j <= n
      invariant forall q :: 0 <= q < j ==> a[3 * q] == 0 && a[3 * q + 1] == 0
      invariant forall q :: 0 <= q < n ==> a[3 * q + 2] == old(a[3 * q + 2])
    {
      a[3 * j] := 0;
      a[3 * j + 1] := 0;
      j := j + 1;
    }
  }

  /**
    Marks every hash's slot under `seed`: the collision word gains the slot
    when the current word already has it, then the current word gains it.
  */
  method MarkHashes(sh: Shape, seed: U16, hs: seq<U64>, a: array<U64>)
    requires ShapeOk(sh) && a.Length == 3 * sh.segments
    requires Zeroed(a[..], sh.segments)
    modifies a
    ensures Marked(a[..], SeedSlots(sh, seed, hs), sh.segments)
    ensures SameWords(a[..], old(a[..]), sh.segments, 2)
  {
    var n := sh.segments;
    MarkedStart(a[..], n);
    assert hs[..0] == [];
    var i := 0;
    while i < |hs|
      invariant i <= |hs|
      invariant Marked(a[..], SeedSlots(sh, seed, hs[..i]), n)
      invariant SameWords(a[..], old(a[..]), n, 2)
    {
      var bitIdx := SlotFor(sh, seed, hs[i]);
      SegmentWords(bitIdx, n);
      ghost var before := a[..];
      MarkOne(a, bitIdx);
      SeedSlotsPrefix(sh, seed, hs, i);
      MarkStep(SeedSlots(sh, seed, hs[..i]), bitIdx, n, before, a[..]);
      i := i + 1;
    }
    assert hs[..|hs|] == hs;
  }

  /** Marks slot `x` in the current word of its segment, and in the collision word when it was already marked. */
  method MarkOne(a: array<U64>, x: nat)
    requires (x / 64) * 3 + 1 < a.Length
    modifies a
    ensures a[..] == MarkSlot(old(a[..]), x)
  {
    var mask := Shl64(1, x % 64);
    var idx := (x / 64) * 3;
    a[idx + 1] := Or64(a[idx + 1], And64(a[idx], mask));
    a[idx] := Or64(a[idx], mask);
  }

  lemma MarkedStart(w: seq<U64>, n: nat)
    requires |w| == 3 * n && Zeroed(w, n)
    ensures Marked(w, [], n)
  {
    forall q | 0 <= q < n
      ensures w[3 * q] == HitWord([], q, AtLeastOnce) && w[3 * q + 1] == HitWord([], q, AtLeastTwice)
    {
      HitWordEmpty(q, AtLeastOnce);
      HitWordEmpty(q, AtLeastTwice);
    }
  }

  /** The buffer after marking slot `x`, as one step of the marking loop writes it. */
  function MarkSlot(w: seq<U64>, x: nat): (r: seq<U64>)
    requires (x / 64) * 3 + 1 < |w|
    ensures |r| == |w|
  {
    var idx := (x / 64) * 3;
    var mask := Shl64(1, x % 64);
    w[idx + 1 := Or64(w[idx + 1], And64(w[idx], mask))][idx := Or64(w[idx], mask)]
  }

  /** One slot marked in the buffer: the marks follow the reference words, and the best words stay. */
  lemma MarkStep(s: seq<nat>, x: nat, n: nat, before: seq<U64>, after: seq<U64>)
    requires x < 64 * n && |before| == 3 * n
    requires after == MarkSlot(before, x)
    requires Marked(before, s, n)
    ensures Marked(after, s + [x], n)
    ensures SameWords(after, before, n, 2)
  {
    SegmentWords(x, n);
    MarkWords(s, x, n);
    var q0 := x / 64;
    forall q | 0 <= q < n
      ensures after[3 * q] == HitWord(s + [x], q, AtLeastOnce) && after[3 * q + 1] == HitWord(s + [x], q, AtLeastTwice)
      ensures after[3 * q + 2] == before[3 * q + 2]
    {
      if q == q0 {
        assert before[3 * q] == HitWord(s, q, AtLeastOnce) && before[3 * q + 1] == HitWord(s, q, AtLeastTwice);
      } else {
        assert after[3 * q] == before[3 * q] && after[3 * q + 1] == before[3 * q + 1];
      }
    }
  }

  /** The three words of the segment holding slot `x` are inside the buffer. */
  lemma SegmentWords(x: nat, segments: nat)
    requires x < 64 * segments
    ensures x / 64 < segments && (x / 64) * 3 + 2 < 3 * segments
  {
  }

  /** The reference words after one more slot `x`: only the words of segment `x / 64` change. */
  lemma MarkWords(s: seq<nat>, x: nat, segments: nat)
    ensures var mask := Shl64(1, x % 64);
      HitWord(s + [x], x / 64, AtLeastOnce) == Or64(HitWord(s, x / 64, AtLeastOnce), mask) &&
      HitWord(s + [x], x / 64, AtLeastTwice) == Or64(HitWord(s, x / 64, AtLeastTwice), And64(HitWord(s, x / 64, AtLeastOnce), mask))
    ensures forall q :: 0 <= q < segments && q != x / 64 ==>
      HitWord(s + [x], q, AtLeastOnce) == HitWord(s, q, AtLeastOnce) &&
      HitWord(s + [x], q, AtLeastTwice) == HitWord(s, q, AtLeastTwice)
  {
    forall q | 0 <= q < segments && q != x / 64
      ensures HitWord(s + [x], q, AtLeastOnce) == HitWord(s, q, AtLeastOnce)
      ensures HitWord(s + [x], q, AtLeastTwice) == HitWord(s, q, AtLeastTwice)
    {
      MarkOtherWord(s, x, q, AtLeastOnce);
      MarkOtherWord(s, x, q, AtLeastTwice);
    }
    MarkOwnWord(s, x);
  }

  lemma MarkOtherWord(s: seq<nat>, x: nat, q: nat, kind: Hit)
    requires x / 64 != q
    ensures HitWord(s + [x], q, kind) == HitWord(s, q, kind)
  {
    Pow2At64();
    forall i | 0 <= i < 64
      ensures Bit(HitWord(s + [x], q, kind), i) == Bit(HitWord(s, q, kind), i)
    {
      BitHitWord(s + [x], q, kind, i);
      BitHitWord(s, q, kind, i);
      OccAppend(s, x, 64 * q + i);
      assert x != 64 * q + i;
    }
    BitsEqual(HitWord(s + [x], q, kind), HitWord(s, q, kind), 64);
  }

  lemma MarkOwnWord(s: seq<nat>, x: nat)
    ensures var q := x / 64;
      var mask := Shl64(1, x % 64);
      HitWord(s + [x], q, AtLeastOnce) == Or64(HitWord(s, q, AtLeastOnce), mask) &&
      HitWord(s + [x], q, AtLeastTwice) == Or64(HitWord(s, q, AtLeastTwice), And64(HitWord(s, q, AtLeastOnce), mask))
  {
    var q := x / 64;
    var r := x % 64;
    var mask := Shl64(1, r);
    var once := HitWord(s, q, AtLeastOnce);
    var twice := HitWord(s, q, AtLeastTwice);
    Pow2At64();
    OneShl64(r);
    forall i | 0 <= i < 64
      ensures Bit(HitWord(s + [x], q, AtLeastOnce), i) == Bit(Or64(once, mask), i)
      ensures Bit(HitWord(s + [x], q, AtLeastTwice), i) == Bit(Or64(twice, And64(once, mask)), i)
    {
      BitHitWord(s + [x], q, AtLeastOnce, i);
      BitHitWord(s + [x], q, AtLeastTwice, i);
      BitHitWord(s, q, AtLeastOnce, i);
      BitHitWord(s, q, AtLeastTwice, i);
      OccAppend(s, x, 64 * q + i);
      BitOr(once, mask, 64, i);
      BitAnd(once, mask, 64, i);
      BitOr(twice, And64(once, mask), 64, i);
      BitPow2(r, i);
      assert (x == 64 * q + i) == (i == r);
    }
    BitsEqual(HitWord(s + [x], q, AtLeastOnce), Or64(once, mask), 64);
    BitsEqual(HitWord(s + [x], q, AtLeastTwice), Or64(twice, And64(once, mask)), 64);
  }

  /**
    Keeps in each current word only the slots that are not in its collision
    word: afterwards the current words mark the slots hit exactly once.
  */
  method FilterCollisions(ghost s: seq<nat>, n: nat, a: array<U64>)
    requires a.Length == 3 * n && Marked(a[..], s, n)
    modifies a
    ensures CurrentExact(a[..], s, n)
    ensures SameWords(a[..], old(a[..]), n, 1) && SameWords(a[..], old(a[..]), n, 2)
  {
    hide HitWord;
    hide And64;
    hide Not64;
    var j := 0;
    while j < n
      invariant j <= n
      invariant forall q :: 0 <= q < j ==> a[3 * q] == HitWord(s, q, ExactlyOnce)
      invariant forall q :: j <= q < n ==> a[3 * q] == old(a[3 * q])
      invariant forall q :: 0 <= q < n ==> a[3 * q + 1] == old(a[3 * q + 1]) && a[3 * q + 2] == old(a[3 * q + 2])
    {
      assert a[3 * j] == HitWord(s, j, AtLeastOnce) && a[3 * j + 1] == HitWord(s, j, AtLeastTwice) by {
        assert old(a[..])[3 * j] == old(a[3 * j]);
      }
      FilterWord(s, j);
      a[3 * j] := And64(a[3 * j], Not64(a[3 * j + 1]));
      j := j + 1;
    }
  }

  /** A slot hit at least once and not twice is hit exactly once. */
  lemma FilterWord(s: seq<nat>, q: nat)
    ensures And64(HitWord(s, q, AtLeastOnce), Not64(HitWord(s, q, AtLeastTwice))) == HitWord(s, q, ExactlyOnce)
  {
    var once := HitWord(s, q, AtLeastOnce);
    var twice := HitWord(s, q, AtLeastTwice);
    Pow2At64();
    forall i | 0 <= i < 64
      ensures Bit(And64(once, Not64(twice)), i) == Bit(HitWord(s, q, ExactlyOnce), i)
    {
      BitAnd(once, Not64(twice), 64, i);
      BitNot(twice, 64, i);
      BitHitWord(s, q, AtLeastOnce, i);
      BitHitWord(s, q, AtLeastTwice, i);
      BitHitWord(s, q, ExactlyOnce, i);
    }
    BitsEqual(And64(once, Not64(twice)), HitWord(s, q, ExactlyOnce), 64);
  }

  // ---------------------------------------------------------------------------
  // Bits of a plane, and how many are set in a range

  /** Bit `p` of plane `k`: bit `p % 64` of word `k` of segment `p / 64`. */
  function PBit(w: seq<U64>, n: nat, k: nat, p: nat): bool
    requires k < 3 && |w| == 3 * n && p < 64 * n
  {
    SegmentWords(p, n);
    Bit(w[(p / 64) * 3 + k], p % 64)
  }

  /** Number of set bits of plane `k` at positions `lo .. hi`. */
  function PCount(w: seq<U64>, n: nat, k: nat, lo: nat, hi: nat): nat
    requires k < 3 && |w| == 3 * n && lo <= hi <= 64 * n
    decreases hi
  {
    if lo == hi then 0 else PCount(w, n, k, lo, hi - 1) + (if PBit(w, n, k, hi - 1) then 1 else 0)
  }

  lemma {:induction false} PCountSplit(w: seq<U64>, n: nat, k: nat, lo: nat, mid: nat, hi: nat)
    requires k < 3 && |w| == 3 * n && lo <= mid <= hi <= 64 * n
    ensures PCount(w, n, k, lo, hi) == PCount(w, n, k, lo, mid) + PCount(w, n, k, mid, hi)
    decreases hi
  {
    if mid < hi {
      PCountSplit(w, n, k, lo, mid, hi - 1);
    }
  }

  /** Counts agree on ranges where the bits agree. */
  lemma {:induction false} PCountSame(w: seq<U64>, w': seq<U64>, n: nat, k: nat, k': nat, lo: nat, hi: nat)
    requires k < 3 && k' < 3 && |w| == 3 * n && |w'| == 3 * n && lo <= hi <= 64 * n
    requires forall p :: lo <= p < hi ==> PBit(w, n, k, p) == PBit(w', n, k', p)
    ensures PCount(w, n, k, lo, hi) == PCount(w', n, k', lo, hi)
    decreases hi
  {
    if lo < hi {
      PCountSame(w, w', n, k, k', lo, hi - 1);
    }
  }

  /** Within one segment, the count is a difference of prefix popcounts of its word. */
  lemma {:induction false} PCountWord(w: seq<U64>, n: nat, k: nat, q: nat, lo: nat, hi: nat)
    requires k < 3 && |w| == 3 * n && q < n && lo <= hi <= 64
    ensures PCount(w, n, k, 64 * q + lo, 64 * q + hi) + CountOnes(w[3 * q + k], lo) == CountOnes(w[3 * q + k], hi)
    decreases hi
  {
    if lo < hi {
      PCountWord(w, n, k, q, lo, hi - 1);
      DivModUnique(64 * q + hi - 1, 64, q, hi - 1);
    }
  }

  // ---------------------------------------------------------------------------
  // The window of a group inside the buffer

  /**
    Where the `B` bits of a group sit: `bits1` bits from position `pos` of
    the segment whose current word is `idx`, then `bits2` low bits of the
    next segment.
  */
  datatype Window = Window(idx: nat, pos: nat, bits1: nat, bits2: nat)

  const U64_MAX: U64 := 0xFFFF_FFFF_FFFF_FFFF

  /** The window of the group starting at bit `bitIdx`. */
  function WindowAt(bitIdx: nat, b: nat): (wn: Window)
    requires 1 <= b <= 64
    ensures wn.idx == (bitIdx / 64) * 3 && wn.pos == bitIdx % 64 && bitIdx == 64 * (bitIdx / 64) + wn.pos
    ensures 1 <= wn.bits1 && wn.pos + wn.bits1 <= 64 && wn.bits1 + wn.bits2 == b && wn.bits2 < 64
    ensures wn.bits2 > 0 ==> wn.pos + wn.bits1 == 64
  {
    var bitPos := bitIdx % 64;
    var bits1 := Min(b, 64 - bitPos);
    Window((bitIdx / 64) * 3, bitPos, bits1, b - bits1)
  }

  /** `u64::MAX >> (64 - bits1)`: the low `bits1` bits. */
  function Mask1(bits1: nat): U64
    requires 1 <= bits1 <= 64
  {
    Shr64(U64_MAX, 64 - bits1)
  }

  /** `(1 << bits2) - 1`: the low `bits2` bits. */
  function Mask2(bits2: nat): U64
    requires bits2 < 64
  {
    OneShl64(bits2);
    Pow2At64();
    Shl64(1, bits2) - 1
  }

  /** A window that ends inside the level only touches words of the buffer. */
  lemma WindowInBuffer(bitIdx: nat, b: nat, n: nat)
    requires 1 <= b <= 64 && bitIdx + b <= 64 * n
    ensures var wn := WindowAt(bitIdx, b);
      wn.idx + 2 < 3 * n && (wn.bits2 > 0 ==> wn.idx + 5 < 3 * n)
  {
  }

  /** The bits of word `u` in the first part of the window, moved down to bit 0. */
  function Part1(u: U64, wn: Window): U64
    requires 1 <= wn.bits1 <= 64
  {
    And64(Shr64(u, wn.pos), Mask1(wn.bits1))
  }

  /** The bits of word `u` in the second part of the window; nothing when the window ends in its first segment. */
  function Part2(u: U64, wn: Window): U64
    requires wn.bits2 < 64
  {
    if wn.bits2 > 0 then And64(u, Mask2(wn.bits2)) else 0
  }

  lemma Mask1Bits(bits1: nat, i: nat)
    requires 1 <= bits1 <= 64
    ensures Bit(Mask1(bits1), i) == (i < bits1)
  {
    Pow2At64();
    BitShr(U64_MAX, 64 - bits1, i);
    BitLowMask(64, i + (64 - bits1));
  }

  lemma Mask2Bits(bits2: nat, i: nat)
    requires bits2 < 64
    ensures Bit(Mask2(bits2), i) == (i < bits2)
  {
    OneShl64(bits2);
    BitLowMask(bits2, i);
  }

  lemma Part1Bits(u: U64, wn: Window, i: nat)
    requires 1 <= wn.bits1 && wn.pos + wn.bits1 <= 64
    ensures Bit(Part1(u, wn), i) == (i < wn.bits1 && Bit(u, wn.pos + i))
  {
    BitAnd(Shr64(u, wn.pos), Mask1(wn.bits1), 64, i);
    BitShr(u, wn.pos, i);
    Mask1Bits(wn.bits1, i);
  }

  lemma PopCountZero()
    ensures PopCount(0) == 0
  {
    forall i | 0 <= i < 64
      ensures !Bit(0, i)
    {
      BitZero(i);
    }
    CountOnesHigh(0, 0, 64);
  }

  /** The first part of a window counts the window's bits in its first segment. */
  lemma Part1Count(w: seq<U64>, n: nat, k: nat, q: nat, wn: Window)
    requires k < 3 && |w| == 3 * n && q < n
    requires 1 <= wn.bits1 && wn.pos + wn.bits1 <= 64
    ensures PopCount(Part1(w[3 * q + k], wn)) == PCount(w, n, k, 64 * q + wn.pos, 64 * q + wn.pos + wn.bits1)
  {
    var u := w[3 * q + k];
    forall i | 0 <= i < 64
      ensures Bit(Part1(u, wn), i) == (i < wn.bits1 && Bit(u, wn.pos + i))
    {
      Part1Bits(u, wn, i);
    }
    CountOnesWindow(Part1(u, wn), u, wn.pos, wn.bits1, 64);
    PCountWord(w, n, k, q, wn.pos, wn.pos + wn.bits1);
  }

  /** The second part of a window counts the window's bits in the next segment. */
  lemma Part2Count(w: seq<U64>, n: nat, k: nat, q: nat, wn: Window)
    requires k < 3 && |w| == 3 * n && q < n
    requires 0 < wn.bits2 < 64
    ensures PopCount(Part2(w[3 * q + k], wn)) == PCount(w, n, k, 64 * q, 64 * q + wn.bits2)
  {
    LowMaskCount(w[3 * q + k], wn.bits2);
    PCountWord(w, n, k, q, 0, wn.bits2);
  }

  lemma WindowPart1(w: seq<U64>, n: nat, k: nat, bitIdx: nat, b: nat, wn: Window)
    requires k < 3 && |w| == 3 * n && 1 <= b <= 64 && bitIdx + b <= 64 * n && wn == WindowAt(bitIdx, b)
    ensures wn.idx + k < |w|
    ensures PopCount(Part1(w[wn.idx + k], wn)) == PCount(w, n, k, bitIdx, bitIdx + wn.bits1)
  {
    WindowInBuffer(bitIdx, b, n);
    var q := bitIdx / 64;
    assert wn.idx + k == 3 * q + k && 64 * q + wn.pos == bitIdx;
    Part1Count(w, n, k, q, wn);
  }

  lemma WindowPart2(w: seq<U64>, n: nat, k: nat, bitIdx: nat, b: nat, wn: Window)
    requires k < 3 && |w| == 3 * n && 1 <= b <= 64 && bitIdx + b <= 64 * n && wn == WindowAt(bitIdx, b)
    ensures wn.bits2 > 0 ==> wn.idx + 3 + k < |w|
    ensures PopCount(Part2(if wn.bits2 > 0 then w[wn.idx + 3 + k] else 0, wn)) == PCount(w, n, k, bitIdx + wn.bits1, bitIdx + b)
  {
    WindowInBuffer(bitIdx, b, n);
    if wn.bits2 > 0 {
      var q := bitIdx / 64 + 1;
      assert wn.idx + 3 + k == 3 * q + k && 64 * q == bitIdx + wn.bits1;
      Part2Count(w, n, k, q, wn);
    } else {
      PopCountZero();
    }
  }

  /** The two masked parts of a window hold exactly the window's set bits of plane `k`. */
  lemma WindowOnes(w: seq<U64>, n: nat, k: nat, bitIdx: nat, b: nat, wn: Window)
    requires k < 3 && |w| == 3 * n && 1 <= b <= 64 && bitIdx + b <= 64 * n && wn == WindowAt(bitIdx, b)
    ensures wn.idx + k < |w| && (wn.bits2 > 0 ==> wn.idx + 3 + k < |w|)
    ensures PopCount(Part1(w[wn.idx + k], wn)) + PopCount(Part2(if wn.bits2 > 0 then w[wn.idx + 3 + k] else 0, wn)) ==
      PCount(w, n, k, bitIdx, bitIdx + b)
  {
    hide PCount;
    hide PopCount;
    hide Part1;
    hide Part2;
    WindowPart1(w, n, k, bitIdx, b, wn);
    WindowPart2(w, n, k, bitIdx, b, wn);
    PCountSplit(w, n, k, bitIdx, bitIdx + wn.bits1, bitIdx + b);
  }

  // ---------------------------------------------------------------------------
  // Taking the current seed's bits as a group's best bits

  /** The first best word with the window's first part replaced by the current word's bits. */
  function Head(best: U64, cur: U64, wn: Window): U64
    requires 1 <= wn.bits1 <= 64
  {
    Or64(And64(best, Not64(Shl64(Mask1(wn.bits1), wn.pos))), Shl64(Part1(cur, wn), wn.pos))
  }

  /** The next best word with the window's second part replaced by the next current word's bits. */
  function Tail(best: U64, cur: U64, wn: Window): U64
    requires 0 < wn.bits2 < 64
  {
    Or64(And64(best, Not64(Mask2(wn.bits2))), Part2(cur, wn))
  }

  lemma HeadBits(best: U64, cur: U64, wn: Window, i: nat)
    requires 1 <= wn.bits1 && wn.pos + wn.bits1 <= 64 && i < 64
    ensures Bit(Head(best, cur, wn), i) == if wn.pos <= i < wn.pos + wn.bits1 then Bit(cur, i) else Bit(best, i)
  {
    var m := Shl64(Mask1(wn.bits1), wn.pos);
    var c := Shl64(Part1(cur, wn), wn.pos);
    var inside := wn.pos <= i < wn.pos + wn.bits1;
    assert Bit(m, i) == inside by {
      BitTrunc(Shl(Mask1(wn.bits1), wn.pos), 64, i);
      BitShl(Mask1(wn.bits1), wn.pos, i);
      if wn.pos <= i {
        Mask1Bits(wn.bits1, i - wn.pos);
      }
    }
    assert Bit(c, i) == (inside && Bit(cur, i)) by {
      BitTrunc(Shl(Part1(cur, wn), wn.pos), 64, i);
      BitShl(Part1(cur, wn), wn.pos, i);
      if wn.pos <= i {
        Part1Bits(cur, wn, i - wn.pos);
      }
    }
    assert Bit(And64(best, Not64(m)), i) == (Bit(best, i) && !inside) by {
      BitAnd(best, Not64(m), 64, i);
      BitNot(m, 64, i);
    }
    BitOr(And64(best, Not64(m)), c, 64, i);
  }

  lemma TailBits(best: U64, cur: U64, wn: Window, i: nat)
    requires 0 < wn.bits2 < 64 && i < 64
    ensures Bit(Tail(best, cur, wn), i) == if i < wn.bits2 then Bit(cur, i) else Bit(best, i)
  {
    var m := Mask2(wn.bits2);
    BitOr(And64(best, Not64(m)), Part2(cur, wn), 64, i);
    BitAnd(best, Not64(m), 64, i);
    BitNot(m, 64, i);
    BitAnd(cur, m, 64, i);
    Mask2Bits(wn.bits2, i);
  }

  /** The buffer after a group takes the current seed's bits of its window as its best bits. */
  function TakeCurrent(w: seq<U64>, wn: Window): (r: seq<U64>)
    requires 1 <= wn.bits1 <= 64 && wn.bits2 < 64
    requires wn.idx + 2 < |w| && (wn.bits2 > 0 ==> wn.idx + 5 < |w|)
    ensures |r| == |w|
  {
    var w1 := w[wn.idx + 2 := Head(w[wn.idx + 2], w[wn.idx], wn)];
    if wn.bits2 > 0 then w1[wn.idx + 5 := Tail(w[wn.idx + 5], w[wn.idx + 3], wn)] else w1
  }

  /** Taking the current bits writes best words only. */
  lemma TakeCurrentSame(w: seq<U64>, n: nat, q: nat, wn: Window)
    requires |w| == 3 * n && 1 <= wn.bits1 <= 64 && wn.bits2 < 64 && wn.idx == q * 3
    requires wn.idx + 2 < |w| && (wn.bits2 > 0 ==> wn.idx + 5 < |w|)
    ensures SameWords(TakeCurrent(w, wn), w, n, 0) && SameWords(TakeCurrent(w, wn), w, n, 1)
  {
    hide Head;
    hide Tail;
    var r := TakeCurrent(w, wn);
    forall q' | 0 <= q' < n
      ensures r[3 * q'] == w[3 * q'] && r[3 * q' + 1] == w[3 * q' + 1]
    {
      assert 3 * q' != wn.idx + 2 && 3 * q' + 1 != wn.idx + 2;
      assert 3 * q' != wn.idx + 5 && 3 * q' + 1 != wn.idx + 5;
    }
  }

  /** Taking the current bits changes the best plane inside the window only, to the current plane's bits. */
  lemma TakeCurrentBits(w: seq<U64>, n: nat, bitIdx: nat, b: nat, wn: Window)
    requires |w| == 3 * n && 1 <= b <= 64 && bitIdx + b <= 64 * n && wn == WindowAt(bitIdx, b)
    ensures wn.idx + 2 < |w| && (wn.bits2 > 0 ==> wn.idx + 5 < |w|)
    ensures SameWords(TakeCurrent(w, wn), w, n, 0) && SameWords(TakeCurrent(w, wn), w, n, 1)
    ensures forall p {:trigger PBit(TakeCurrent(w, wn), n, 2, p)} :: 0 <= p < 64 * n ==>
      PBit(TakeCurrent(w, wn), n, 2, p) == if bitIdx <= p < bitIdx + b then PBit(w, n, 0, p) else PBit(w, n, 2, p)
  {
    hide Head;
    hide Tail;
    WindowInBuffer(bitIdx, b, n);
    var r := TakeCurrent(w, wn);
    var q := bitIdx / 64;
    TakeCurrentSame(w, n, q, wn);
    forall p | 0 <= p < 64 * n
      ensures PBit(r, n, 2, p) == if bitIdx <= p < bitIdx + b then PBit(w, n, 0, p) else PBit(w, n, 2, p)
    {
      var q', i := p / 64, p % 64;
      assert p == 64 * q' + i;
      SegmentWords(p, n);
      if q' == q {
        assert (p / 64) * 3 + 2 == wn.idx + 2 && (p / 64) * 3 == wn.idx;
        HeadBits(w[wn.idx + 2], w[wn.idx], wn, i);
      } else if q' == q + 1 && wn.bits2 > 0 {
        assert (p / 64) * 3 + 2 == wn.idx + 5 && (p / 64) * 3 == wn.idx + 3;
        TailBits(w[wn.idx + 5], w[wn.idx + 3], wn, i);
      } else {
        assert (p / 64) * 3 + 2 != wn.idx + 2 && (wn.bits2 > 0 ==> (p / 64) * 3 + 2 != wn.idx + 5);
      }
    }
  }

  // ---------------------------------------------------------------------------
  // Keeping, per group, the seed with the most collision-free bits

  /** Slot `p` below `groups * b` lies in window `p / b`, one of the `groups` windows. */
  lemma GroupOfBounds(b: nat, groups: nat, p: nat)
    requires b >= 1 && p < groups * b
    ensures 0 <= p / b < groups && (p / b) * b <= p < (p / b) * b + b
  {
    var g := p / b;
    assert b * g + p % b == p;
    if g >= groups {
      MulMonotone(groups, g, b);
    }
  }

  /** The group whose window holds slot `p`. */
  function GroupOf(sh: Shape, p: nat): (g: nat)
    requires ShapeOk(sh) && p < 64 * sh.segments
    ensures g < sh.groups && 0 <= g * sh.b <= p < g * sh.b + sh.b
  {
    GroupOfBounds(sh.b, sh.groups, p);
    p / sh.b
  }

  lemma GroupOfWindow(sh: Shape, g: nat, p: nat)
    requires ShapeOk(sh) && g < sh.groups && g * sh.b <= p < g * sh.b + sh.b
    ensures 0 <= g * sh.b && g * sh.b + sh.b <= 64 * sh.segments
    ensures p < 64 * sh.segments && GroupOf(sh, p) == g
  {
    GroupWindow(sh, g);
    DivModUnique(p, sh.b, g, p - g * sh.b);
  }

  /** The current seed left more collision-free bits in group `g`'s window than its best seed so far. */
  predicate Improves(w: seq<U64>, sh: Shape, g: nat)
    requires ShapeOk(sh) && g < sh.groups && |w| == 3 * sh.segments
  {
    GroupWindow(sh, g);
    PCount(w, sh.segments, 0, g * sh.b, g * sh.b + sh.b) > PCount(w, sh.segments, 2, g * sh.b, g * sh.b + sh.b)
  }

  lemma SameWordsBits(w: seq<U64>, w0: seq<U64>, n: nat, k: nat)
    requires k < 3 && |w| == 3 * n && |w0| == 3 * n && SameWords(w, w0, n, k)
    ensures forall p {:trigger PBit(w, n, k, p)} :: 0 <= p < 64 * n ==> PBit(w, n, k, p) == PBit(w0, n, k, p)
  {
    forall p | 0 <= p < 64 * n
      ensures PBit(w, n, k, p) == PBit(w0, n, k, p)
    {
      SegmentWords(p, n);
      assert w[(p / 64) * 3 + k] == w0[3 * (p / 64) + k];
    }
  }

  /**
    `w` is `w0` after group `g`'s window of best bits took the current bits
    (when `taken`) or was left alone; nothing else of the buffer differs.
  */
  predicate BestAfter(w: seq<U64>, w0: seq<U64>, sh: Shape, g: nat, taken: bool)
    requires ShapeOk(sh) && g < sh.groups && |w| == 3 * sh.segments && |w0| == 3 * sh.segments
  {
    var n := sh.segments;
    SameWords(w, w0, n, 0) && SameWords(w, w0, n, 1) &&
    forall p {:trigger PBit(w, n, 2, p)} :: 0 <= p < 64 * n ==>
      PBit(w, n, 2, p) == if taken && g * sh.b <= p < g * sh.b + sh.b then PBit(w0, n, 0, p) else PBit(w0, n, 2, p)
  }

  lemma BestAfterTaken(w: seq<U64>, sh: Shape, g: nat, wn: Window)
    requires ShapeOk(sh) && g < sh.groups && |w| == 3 * sh.segments
    requires g * sh.b + sh.b <= 64 * sh.segments && wn == WindowAt(g * sh.b, sh.b)
    ensures wn.idx + 2 < |w| && (wn.bits2 > 0 ==> wn.idx + 5 < |w|)
    ensures BestAfter(TakeCurrent(w, wn), w, sh, g, true)
  {
    TakeCurrentBits(w, sh.segments, g * sh.b, sh.b, wn);
  }

  lemma BestAfterKept(w: seq<U64>, sh: Shape, g: nat)
    requires ShapeOk(sh) && g < sh.groups && |w| == 3 * sh.segments
    ensures BestAfter(w, w, sh, g, false)
  {
  }

  /** Writes the current bits of a window into the best words: the words `TakeCurrent` describes. */
  method TakeCurrentWords(a: array<U64>, wn: Window)
    requires 1 <= wn.bits1 <= 64 && wn.bits2 < 64
    requires wn.idx + 2 < a.Length && (wn.bits2 > 0 ==> wn.idx + 5 < a.Length)
    modifies a
    ensures a[..] == TakeCurrent(old(a[..]), wn)
  {
    a[wn.idx + 2] := Head(a[wn.idx + 2], a[wn.idx], wn);
    if wn.bits2 > 0 {
      a[wn.idx + 5] := Tail(a[wn.idx + 5], a[wn.idx + 3], wn);
    }
  }

  /**
    One group of the per-group phase: when the current seed leaves strictly
    more collision-free bits in the group's window than its best seed, the
    window's best bits become the current bits and the group's seed becomes
    the current seed. The next segment's words are touched only when the
    window reaches into it.
  */
  method UpdateGroup(sh: Shape, g: nat, seed: U16, a: array<U64>, seeds: array<U16>)
    requires ShapeOk(sh) && g < sh.groups && a.Length == 3 * sh.segments && seeds.Length == sh.groups
    modifies a, seeds
    ensures BestAfter(a[..], old(a[..]), sh, g, Improves(old(a[..]), sh, g))
    ensures seeds[..] == if Improves(old(a[..]), sh, g) then old(seeds[..])[g := seed] else old(seeds[..])
  {
    hide PopCount;
    hide Part1;
    hide Part2;
    hide PBit;
    var n := sh.segments;
    var bitIdx := g * sh.b;
    GroupWindow(sh, g);
    var wn := WindowAt(bitIdx, sh.b);
    WindowInBuffer(bitIdx, sh.b, n);
    var newBits1 := Part1(a[wn.idx], wn);
    var newBits2 := Part2(if wn.bits2 > 0 then a[wn.idx + 3] else 0, wn);
    var newOnes := PopCount(newBits1) + PopCount(newBits2);
    var bestBits1 := Part1(a[wn.idx + 2], wn);
    var bestBits2 := Part2(if wn.bits2 > 0 then a[wn.idx + 5] else 0, wn);
    var bestOnes := PopCount(bestBits1) + PopCount(bestBits2);
    assert (newOnes > bestOnes) == Improves(a[..], sh, g) by {
      WindowOnes(a[..], n, 0, bitIdx, sh.b, wn);
      WindowOnes(a[..], n, 2, bitIdx, sh.b, wn);
    }
    if newOnes > bestOnes {
      BestAfterTaken(a[..], sh, g, wn);
      TakeCurrentWords(a, wn);
      seeds[g] := seed;
    } else {
      BestAfterKept(a[..], sh, g);
    }
  }

  /**
    `w` is `w0` after groups `0 .. g` each took the current bits of their
    window as best bits exactly when the current seed improves on them;
    the current and collision words are unchanged.
  */
  predicate BestUpTo(w: seq<U64>, w0: seq<U64>, sh: Shape, g: nat)
    requires ShapeOk(sh) && |w| == 3 * sh.segments && |w0| == 3 * sh.segments
  {
    var n := sh.segments;
    SameWords(w, w0, n, 0) && SameWords(w, w0, n, 1) &&
    forall p {:trigger PBit(w, n, 2, p)} :: 0 <= p < 64 * n ==>
      PBit(w, n, 2, p) ==
        if GroupOf(sh, p) < g && Improves(w0, sh, GroupOf(sh, p)) then PBit(w0, n, 0, p) else PBit(w0, n, 2, p)
  }

  /** Group `g`'s decision sees the bits it would see before any group was processed. */
  lemma ImprovesUnchanged(sh: Shape, g: nat, w0: seq<U64>, cur: seq<U64>)
    requires ShapeOk(sh) && g < sh.groups
    requires |w0| == 3 * sh.segments && |cur| == 3 * sh.segments
    requires BestUpTo(cur, w0, sh, g)
    ensures Improves(cur, sh, g) == Improves(w0, sh, g)
  {
    var n := sh.segments;
    var lo, hi := g * sh.b, g * sh.b + sh.b;
    GroupWindow(sh, g);
    assert PCount(cur, n, 0, lo, hi) == PCount(w0, n, 0, lo, hi) by {
      SameWordsBits(cur, w0, n, 0);
      PCountSame(cur, w0, n, 0, 0, lo, hi);
    }
    assert PCount(cur, n, 2, lo, hi) == PCount(w0, n, 2, lo, hi) by {
      forall p | lo <= p < hi
        ensures PBit(cur, n, 2, p) == PBit(w0, n, 2, p)
      {
        GroupOfWindow(sh, g, p);
      }
      PCountSame(cur, w0, n, 2, 2, lo, hi);
    }
  }

  /** One more group processed: the invariant extends to it. */
  lemma BestStep(sh: Shape, g: nat, w0: seq<U64>, cur: seq<U64>, next: seq<U64>)
    requires ShapeOk(sh) && g < sh.groups
    requires |w0| == 3 * sh.segments && |cur| == 3 * sh.segments && |next| == 3 * sh.segments
    requires BestUpTo(cur, w0, sh, g)
    requires BestAfter(next, cur, sh, g, Improves(w0, sh, g))
    ensures BestUpTo(next, w0, sh, g + 1)
  {
    var n := sh.segments;
    var lo, hi := g * sh.b, g * sh.b + sh.b;
    SameWordsBits(cur, w0, n, 0);
    forall p | 0 <= p < 64 * n
      ensures PBit(next, n, 2, p) ==
        if GroupOf(sh, p) < g + 1 && Improves(w0, sh, GroupOf(sh, p)) then PBit(w0, n, 0, p) else PBit(w0, n, 2, p)
    {
      var gp := GroupOf(sh, p);
      if lo <= p < hi {
        GroupOfWindow(sh, g, p);
        assert PBit(next, n, 2, p) == if Improves(w0, sh, g) then PBit(cur, n, 0, p) else PBit(cur, n, 2, p);
      } else {
        assert gp != g;
        assert PBit(next, n, 2, p) == PBit(cur, n, 2, p);
      }
    }
  }

  /** The per-group phase of `update_group_bits_with_seed`: every group, in order. */
  method UpdateBest(sh: Shape, seed: U16, a: array<U64>, seeds: array<U16>)
    requires ShapeOk(sh) && a.Length == 3 * sh.segments && seeds.Length == sh.groups
    modifies a, seeds
    ensures BestUpTo(a[..], old(a[..]), sh, sh.groups)
    ensures forall j :: 0 <= j < sh.groups ==> seeds[j] == if Improves(old(a[..]), sh, j) then seed else old(seeds[j])
  {
    var g := 0;
    while g < sh.groups
      invariant g <= sh.groups
      invariant BestUpTo(a[..], old(a[..]), sh, g)
      invariant forall j :: 0 <= j < sh.groups ==>
        seeds[j] == if j < g && Improves(old(a[..]), sh, j) then seed else old(seeds[j])
    {
      ghost var cur := a[..];
      ImprovesUnchanged(sh, g, old(a[..]), cur);
      UpdateGroup(sh, g, seed, a, seeds);
      BestStep(sh, g, old(a[..]), cur, a[..]);
      g := g + 1;
    }
  }

  // ---------------------------------------------------------------------------
  // The four phases together

  /** Number of slots in `lo .. hi` that `s` hits exactly once. */
  function UniqueCount(s: seq<nat>, lo: nat, hi: nat): nat
    requires lo <= hi
    decreases hi
  {
    if lo == hi then 0 else UniqueCount(s, lo, hi - 1) + (if Occ(s, hi - 1) == 1 then 1 else 0)
  }

  /** Once the current words hold the once-hit slots, so does every bit of the current plane. */
  lemma CurrentExactBits(w: seq<U64>, s: seq<nat>, n: nat)
    requires |w| == 3 * n && CurrentExact(w, s, n)
    ensures forall p {:trigger PBit(w, n, 0, p)} :: 0 <= p < 64 * n ==> PBit(w, n, 0, p) == (Occ(s, p) == 1)
  {
    forall p | 0 <= p < 64 * n
      ensures PBit(w, n, 0, p) == (Occ(s, p) == 1)
    {
      SegmentWords(p, n);
      var q, i := p / 64, p % 64;
      assert 64 * q + i == p;
      BitHitWord(s, q, ExactlyOnce, i);
      assert w[q * 3] == HitWord(s, q, ExactlyOnce);
    }
  }

  /** A plane whose bits in `lo .. hi` are the once-hit slots of `s` counts them. */
  lemma {:induction false} PCountUnique(w: seq<U64>, n: nat, k: nat, s: seq<nat>, lo: nat, hi: nat)
    requires k < 3 && |w| == 3 * n && lo <= hi <= 64 * n
    requires forall p :: lo <= p < hi ==> PBit(w, n, k, p) == (Occ(s, p) == 1)
    ensures PCount(w, n, k, lo, hi) == UniqueCount(s, lo, hi)
    decreases hi
  {
    if lo < hi {
      PCountUnique(w, n, k, s, lo, hi - 1);
    }
  }

  /** A word of plane `k` whose bits all say "hit as `kind`" by `s` is the hit word of `s`. */
  lemma WordIsHitWord(w: seq<U64>, n: nat, k: nat, s: seq<nat>, kind: Hit, q: nat)
    requires k < 3 && |w| == 3 * n && q < n
    requires forall p {:trigger PBit(w, n, k, p)} :: 64 * q <= p < 64 * q + 64 ==>
      PBit(w, n, k, p) == HitIs(kind, Occ(s, p))
    ensures w[3 * q + k] == HitWord(s, q, kind)
  {
    forall i | 0 <= i < 64
      ensures Bit(w[3 * q + k], i) == Bit(HitWord(s, q, kind), i)
    {
      var p := 64 * q + i;
      DivModUnique(p, 64, q, i);
      assert PBit(w, n, k, p) == Bit(w[3 * q + k], i);
      BitHitWord(s, q, kind, i);
    }
    Pow2At64();
    BitsEqual(w[3 * q + k], HitWord(s, q, kind), 64);
  }

  /**
    Slots `s` leave more once-hit slots in group `g`'s window than the best
    bits of `w` hold there.
  */
  predicate Gains(w: seq<U64>, sh: Shape, s: seq<nat>, g: nat)
    requires ShapeOk(sh) && g < sh.groups && |w| == 3 * sh.segments
  {
    GroupWindow(sh, g);
    UniqueCount(s, g * sh.b, g * sh.b + sh.b) > PCount(w, sh.segments, 2, g * sh.b, g * sh.b + sh.b)
  }

  lemma SameWordsChain(w3: seq<U64>, w2: seq<U64>, w1: seq<U64>, w0: seq<U64>, n: nat, k: nat)
    requires k < 3 && |w3| == 3 * n && |w2| == 3 * n && |w1| == 3 * n && |w0| == 3 * n
    requires SameWords(w3, w2, n, k) && SameWords(w2, w1, n, k) && SameWords(w1, w0, n, k)
    ensures SameWords(w3, w0, n, k)
  {
  }

  /** After the filter phase, a group improves exactly when the seed's once-hit slots gain on the best bits. */
  lemma FilteredGains(w0: seq<U64>, w1: seq<U64>, sh: Shape, s: seq<nat>)
    requires ShapeOk(sh) && |w0| == 3 * sh.segments && |w1| == 3 * sh.segments
    requires SameWords(w1, w0, sh.segments, 2) && CurrentExact(w1, s, sh.segments)
    ensures forall g :: 0 <= g < sh.groups ==> Improves(w1, sh, g) == Gains(w0, sh, s, g)
  {
    var n := sh.segments;
    CurrentExactBits(w1, s, n);
    SameWordsBits(w1, w0, n, 2);
    forall g | 0 <= g < sh.groups
      ensures Improves(w1, sh, g) == Gains(w0, sh, s, g)
    {
      GroupWindow(sh, g);
      PCountUnique(w1, n, 0, s, g * sh.b, g * sh.b + sh.b);
      PCountSame(w1, w0, n, 2, 2, g * sh.b, g * sh.b + sh.b);
    }
  }

  /**
    `update_group_bits_with_seed`: the four phases for one seed. Every group
    whose window the seed's once-hit slots fill more than its best bits
    takes those slots as best bits and the seed as its seed; every other
    group keeps both.
  */
  method UpdateGroupBitsWithSeed(sh: Shape, seed: U16, hs: seq<U64>, a: array<U64>, seeds: array<U16>)
    requires ShapeOk(sh) && a.Length == 3 * sh.segments && seeds.Length == sh.groups
    modifies a, seeds
    ensures forall p {:trigger PBit(a[..], sh.segments, 2, p)} :: 0 <= p < 64 * sh.segments ==>
      PBit(a[..], sh.segments, 2, p) ==
        if Gains(old(a[..]), sh, SeedSlots(sh, seed, hs), GroupOf(sh, p)) then Occ(SeedSlots(sh, seed, hs), p) == 1
        else PBit(old(a[..]), sh.segments, 2, p)
    ensures forall j :: 0 <= j < sh.groups ==>
      seeds[j] == if Gains(old(a[..]), sh, SeedSlots(sh, seed, hs), j) then seed else old(seeds[j])
  {
    var n := sh.segments;
    ghost var s := SeedSlots(sh, seed, hs);
    ghost var w0 := a[..];
    ResetCurrent(n, a);
    ghost var wr := a[..];
    MarkHashes(sh, seed, hs, a);
    ghost var wm := a[..];
    FilterCollisions(s, n, a);
    ghost var w1 := a[..];
    SameWordsChain(w1, wm, wr, w0, n, 2);
    FilteredGains(w0, w1, sh, s);
    UpdateBest(sh, seed, a, seeds);
    CurrentExactBits(w1, s, n);
    SameWordsBits(w1, w0, n, 2);
  }
}
