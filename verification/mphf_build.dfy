/**
  Building one level of the fingerprinting MPHF (`build_level`). The level
  is sized from the number of unplaced hashes; every seed `0 .. 2^S` is
  tried in turn, and each group keeps the first seed that leaves the most
  once-hit slots in its window, together with those slots. A hash is
  placed when its slot under its group's kept seed is set; the others are
  handed on to the next level, in their order.
*/
module MphfBuild {
  import opened Bits
  import opened Rank
  import opened MphfHash
  import opened MphfLevel

  /** The construction parameters: group width `B`, seed bits `S` and `gamma = gammaNum / gammaDen`. */
  datatype Params = Params(b: nat, s: nat, gammaNum: nat, gammaDen: nat)

  predicate ParamsOk(p: Params)
  {
    1 <= p.b <= 64 && p.s <= 15 && p.gammaDen > 0 && p.gammaNum >= p.gammaDen
  }

  /** `1 << S`: the number of seeds tried on every level. */
  function MaxGroupSeed(s: nat): (m: nat)
    requires s <= 15
    ensures m == Pow2(s) && 1 <= m <= U16_BOUND
  {
    ShlIsMul(1, s);
    Pow2Monotone(s, 15);
    Pow2At15();
    Shl(1, s)
  }

  /** The shape of level `level` built over `len` unplaced hashes. */
  function LevelShape(p: Params, level: nat, len: nat): (sh: Shape)
    requires ParamsOk(p) && level < U32_BOUND && len > 0
    ensures ShapeOk(sh) && sh.b == p.b && sh.level == level
    ensures sh.segments == SegmentsFor(p.b, LevelSize(len, p.gammaNum, p.gammaDen))
    ensures 64 * sh.segments >= LevelSize(len, p.gammaNum, p.gammaDen) >= len
  {
    var size := LevelSize(len, p.gammaNum, p.gammaDen);
    LevelSizeCovers(len, p.gammaNum, p.gammaDen);
    var segments := SegmentsFor(p.b, size);
    var groups := GroupsFor(p.b, segments);
    Shape(p.b, level, groups, segments)
  }

  /** With `gamma >= 1` a level has at least one slot per hash. */
  lemma LevelSizeCovers(len: nat, num: nat, den: nat)
    requires 0 < den <= num
    ensures LevelSize(len, num, den) >= len
  {
    var size := LevelSize(len, num, den);
    if size < len {
      MulMonotone(size + 1, len, den);
      MulMonotone(den, num, len);
    }
  }

  /** The number of `b`-bit groups in `segments` 64-bit words, when they divide evenly. */
  function GroupsFor(b: nat, segments: nat): (groups: nat)
    requires 1 <= b <= 64 && segments > 0 && SegmentsFit(b, segments)
    ensures groups >= 1 && groups * b == 64 * segments
  {
    var groups := 64 * segments / b;
    assert 64 * segments == b * groups + (64 * segments) % b;
    MulMonotone(1, segments, 64);
    assert b * groups >= b;
    groups
  }

  // ---------------------------------------------------------------------------
  // The seed each group keeps

  /**
    The slots of all hashes under each of the seeds `0 .. m`: entry `seed`
    is what marking the hashes with `seed` hits.
  */
  function SeedTable(sh: Shape, hs: seq<U64>, m: nat): (tbl: seq<seq<nat>>)
    requires ShapeOk(sh) && m <= U16_BOUND
    ensures |tbl| == m
  {
    if m == 0 then [] else SeedTable(sh, hs, m - 1) + [SeedSlots(sh, m - 1, hs)]
  }

  lemma {:induction false} SeedTableAt(sh: Shape, hs: seq<U64>, m: nat, seed: nat)
    requires ShapeOk(sh) && seed < m <= U16_BOUND
    ensures SeedTable(sh, hs, m)[seed] == SeedSlots(sh, seed, hs)
  {
    if seed < m - 1 {
      SeedTableAt(sh, hs, m - 1, seed);
    }
  }

  /** Once-hit slots in group `g`'s window under entry `seed` of the table. */
  function WindowUnique(sh: Shape, tbl: seq<seq<nat>>, seed: nat, g: nat): nat
    requires ShapeOk(sh) && g < sh.groups && seed < |tbl|
  {
    UniqueCount(tbl[seed], g * sh.b, g * sh.b + sh.b)
  }

  /** Once-hit slots of the held seed's window after seeds `0 .. t` (none before the first seed). */
  function Held(sh: Shape, tbl: seq<seq<nat>>, g: nat, t: nat, seed: nat): nat
    requires ShapeOk(sh) && g < sh.groups && (t > 0 ==> seed < |tbl|)
  {
    if t == 0 then 0 else WindowUnique(sh, tbl, seed, g)
  }

  /**
    The seed group `g` holds after seeds `0 .. t` were tried: a seed replaces
    the held one only when it leaves strictly more once-hit slots in the
    window than the held one (than none, before the first seed).
  */
  function ChosenSeed(sh: Shape, tbl: seq<seq<nat>>, g: nat, t: nat): (seed: nat)
    requires ShapeOk(sh) && g < sh.groups && t <= |tbl|
    ensures seed == 0 || seed < t
  {
    if t == 0 then 0
    else
      var held := ChosenSeed(sh, tbl, g, t - 1);
      if WindowUnique(sh, tbl, t - 1, g) > Held(sh, tbl, g, t - 1, held) then t - 1 else held
  }

  /**
    `seed` is the smallest of the seeds `0 .. t` that leaves the most
    once-hit slots in group `g`'s window (seed 0 before any seed was tried).
  */
  predicate FirstBest(sh: Shape, tbl: seq<seq<nat>>, g: nat, t: nat, seed: nat)
    requires ShapeOk(sh) && g < sh.groups && t <= |tbl|
  {
    if t == 0 then seed == 0
    else
      seed < t
      && (forall other :: 0 <= other < t ==> WindowUnique(sh, tbl, other, g) <= WindowUnique(sh, tbl, seed, g))
      && (forall other :: 0 <= other < seed ==> WindowUnique(sh, tbl, other, g) < WindowUnique(sh, tbl, seed, g))
  }

  /** Trying seed `t` with the strict-improvement rule keeps the held seed the first best one. */
  lemma FirstBestStep(sh: Shape, tbl: seq<seq<nat>>, g: nat, t: nat, seed: nat, next: nat)
    requires ShapeOk(sh) && g < sh.groups && t < |tbl|
    requires FirstBest(sh, tbl, g, t, seed)
    requires next == if WindowUnique(sh, tbl, t, g) > Held(sh, tbl, g, t, seed) then t else seed
    ensures FirstBest(sh, tbl, g, t + 1, next)
  {
    if t > 0 && next == t {
      forall other | 0 <= other < t
        ensures WindowUnique(sh, tbl, other, g) < WindowUnique(sh, tbl, t, g)
      {
      }
    }
  }

  /** There is only one first best seed. */
  lemma FirstBestUnique(sh: Shape, tbl: seq<seq<nat>>, g: nat, t: nat, a: nat, b: nat)
    requires ShapeOk(sh) && g < sh.groups && t <= |tbl|
    requires FirstBest(sh, tbl, g, t, a) && FirstBest(sh, tbl, g, t, b)
    ensures a == b
  {
    if t > 0 {
      assert WindowUnique(sh, tbl, a, g) == WindowUnique(sh, tbl, b, g);
    }
  }

  /** The held seed is the first best of the seeds tried so far. */
  lemma {:induction false} ChosenSeedIsFirstBest(sh: Shape, tbl: seq<seq<nat>>, g: nat, t: nat)
    requires ShapeOk(sh) && g < sh.groups && t <= |tbl|
    ensures FirstBest(sh, tbl, g, t, ChosenSeed(sh, tbl, g, t))
  {
    if t > 0 {
      ChosenSeedIsFirstBest(sh, tbl, g, t - 1);
      FirstBestStep(sh, tbl, g, t - 1, ChosenSeed(sh, tbl, g, t - 1), ChosenSeed(sh, tbl, g, t));
    }
  }

  /** The seeds of all groups after seeds `0 .. t`. */
  function Seeds(sh: Shape, tbl: seq<seq<nat>>, t: nat): (seeds: seq<U16>)
    requires ShapeOk(sh) && t <= |tbl| && t <= U16_BOUND
    ensures |seeds| == sh.groups
    ensures forall g :: 0 <= g < sh.groups ==> seeds[g] == ChosenSeed(sh, tbl, g, t)
  {
    seq(sh.groups, g requires 0 <= g < sh.groups => ChosenSeed(sh, tbl, g, t))
  }

  // ---------------------------------------------------------------------------
  // The level's bits and the hashes it places

  /** The slot of `h` under the seed its group keeps. */
  function ChosenSlot(sh: Shape, seeds: seq<U16>, h: U64): (p: nat)
    requires ShapeOk(sh) && |seeds| == sh.groups
    ensures GroupIndex(sh, h) * sh.b <= p < GroupIndex(sh, h) * sh.b + sh.b
    ensures p < 64 * sh.segments
  {
    SlotFor(sh, seeds[GroupIndex(sh, h)], h)
  }

  function ChosenSlots(sh: Shape, seeds: seq<U16>, hs: seq<U64>): (s: seq<nat>)
    requires ShapeOk(sh) && |seeds| == sh.groups
    ensures |s| == |hs|
    ensures forall i {:trigger s[i]} :: 0 <= i < |hs| ==> s[i] == ChosenSlot(sh, seeds, hs[i])
  {
    if hs == [] then [] else ChosenSlots(sh, seeds, hs[..|hs| - 1]) + [ChosenSlot(sh, seeds, hs[|hs| - 1])]
  }

  /** The level's bit vector: a slot is set when exactly one hash chose it. */
  function LevelBits(sh: Shape, seeds: seq<U16>, hs: seq<U64>): (bits: seq<U64>)
    requires ShapeOk(sh) && |seeds| == sh.groups
    ensures |bits| == sh.segments
  {
    var c := ChosenSlots(sh, seeds, hs);
    seq(sh.segments, q requires 0 <= q < sh.segments => HitWord(c, q, ExactlyOnce))
  }

  /** `hs` without the hashes whose chosen slot is set in `bits`, in their order. */
  function Unplaced(sh: Shape, bits: seq<U64>, seeds: seq<U16>, hs: seq<U64>): (rest: seq<U64>)
    requires ShapeOk(sh) && |bits| == sh.segments && |seeds| == sh.groups
  {
    if hs == [] then []
    else
      var h := hs[|hs| - 1];
      Unplaced(sh, bits, seeds, hs[..|hs| - 1]) + (if BitAt(bits, ChosenSlot(sh, seeds, h)) then [] else [h])
  }

  /** What building a level returns: its bits, its group seeds, and the hashes left for the next level. */
  datatype Level = Level(bits: seq<U64>, seeds: seq<U16>, rest: seq<U64>)

  /** `build_level(level, hashes, gamma)`, as a value. */
  function LevelSpec(p: Params, level: nat, hs: seq<U64>): (lv: Level)
    requires ParamsOk(p) && level < U32_BOUND && hs != []
    ensures |lv.bits| == LevelShape(p, level, |hs|).segments && |lv.seeds| == LevelShape(p, level, |hs|).groups
  {
    var sh := LevelShape(p, level, |hs|);
    var m := MaxGroupSeed(p.s);
    var seeds := Seeds(sh, SeedTable(sh, hs, m), m);
    var bits := LevelBits(sh, seeds, hs);
    Level(bits, seeds, Unplaced(sh, bits, seeds, hs))
  }

  // ---------------------------------------------------------------------------
  // build_level

  /** Every group holds the first best of the seeds `0 .. t`. */
  predicate SeedsBest(seeds: seq<U16>, sh: Shape, tbl: seq<seq<nat>>, t: nat)
    requires ShapeOk(sh) && t <= |tbl|
  {
    |seeds| == sh.groups && forall g :: 0 <= g < sh.groups ==> FirstBest(sh, tbl, g, t, seeds[g])
  }

  /**
    The best plane holds, per group, the once-hit slots of the group's seed
    (nothing before the first seed).
  */
  predicate BestChosen(w: seq<U64>, sh: Shape, tbl: seq<seq<nat>>, seeds: seq<U16>, t: nat)
    requires ShapeOk(sh) && |w| == 3 * sh.segments && |seeds| == sh.groups
  {
    var n := sh.segments;
    forall p {:trigger PBit(w, n, 2, p)} :: 0 <= p < 64 * n ==>
      PBit(w, n, 2, p) == (t > 0 && seeds[GroupOf(sh, p)] < |tbl| && Occ(tbl[seeds[GroupOf(sh, p)]], p) == 1)
  }

  /** `build_level`: tries every seed, collects the best words, and keeps the unplaced hashes. */
  method BuildLevel(p: Params, level: nat, hs: seq<U64>) returns (lv: Level)
    requires ParamsOk(p) && level < U32_BOUND && hs != []
    ensures lv == LevelSpec(p, level, hs)
  {
    hide Seeds;
    hide LevelBits;
    hide Unplaced;
    hide SeedTable;
    hide HashWithSeed;
    hide BitIndexForSeed;
    var levelSize := LevelSize(|hs|, p.gammaNum, p.gammaDen);
    var groups, segments := LevelSizeGroupsSegments(p.b, levelSize);
    var sh := Shape(p.b, level, groups, segments);
    assert sh == LevelShape(p, level, |hs|) by {
      DivModUnique(64 * segments, p.b, groups, 0);
    }
    var maxGroupSeed := MaxGroupSeed(p.s);
    ghost var tbl := SeedTable(sh, hs, maxGroupSeed);
    var a := new U64[3 * segments](_ => 0);
    var seeds := new U16[groups](_ => 0);
    BestChosenStart(a[..], sh, tbl, seeds[..]);
    var t := 0;
    while t < maxGroupSeed
      invariant t <= maxGroupSeed
      invariant SeedsBest(seeds[..], sh, tbl, t)
      invariant BestChosen(a[..], sh, tbl, seeds[..], t)
    {
      ghost var w0, s0 := a[..], seeds[..];
      UpdateGroupBitsWithSeed(sh, t, hs, a, seeds);
      SeedTableAt(sh, hs, maxGroupSeed, t);
      SeedStep(sh, tbl, t, w0, s0, a[..], seeds[..]);
      t := t + 1;
    }
    var bits := BestWords(a, segments);
    assert seeds[..] == Seeds(sh, tbl, t) && bits == LevelBits(sh, seeds[..], hs) by {
      SeedsAreChosen(seeds[..], sh, tbl, t);
      BestBitsAreChosen(sh, hs, tbl, a[..], seeds[..], t);
      BestIsLevelBits(sh, hs, a[..], seeds[..]);
    }
    var rest := RetainUnplaced(sh, bits, seeds[..], hs);
    lv := Level(bits, seeds[..], rest);
  }

  /** The words of the best plane, one per segment. */
  method BestWords(a: array<U64>, n: nat) returns (bits: seq<U64>)
    requires a.Length == 3 * n
    ensures bits == Plane(a[..], n, 2)
  {
    bits := [];
    var q := 0;
    while q < n
      invariant q <= n && bits == Plane(a[..], n, 2)[..q]
    {
      bits := bits + [a[3 * q + 2]];
      q := q + 1;
    }
  }

  /** `hashes.retain(..)`: keeps, in order, the hashes whose chosen slot is clear. */
  method RetainUnplaced(sh: Shape, bits: seq<U64>, seeds: seq<U16>, hs: seq<U64>) returns (rest: seq<U64>)
    requires ShapeOk(sh) && |bits| == sh.segments && |seeds| == sh.groups
    ensures rest == Unplaced(sh, bits, seeds, hs)
  {
    rest := [];
    var i := 0;
    while i < |hs|
      invariant i <= |hs| && rest == Unplaced(sh, bits, seeds, hs[..i])
    {
      var levelHash := HashWithSeed(hs[i], sh.level);
      var groupIdx := GroupIndex(sh, hs[i]);
      var groupSeed := seeds[groupIdx];
      var bitIdx := BitIndexForSeed(sh.b, levelHash, groupSeed, groupIdx);
      assert bitIdx == ChosenSlot(sh, seeds, hs[i]);
      if !BitAt(bits, bitIdx) {
        rest := rest + [hs[i]];
      }
      assert hs[..i + 1][..i] == hs[..i];
      i := i + 1;
    }
    assert hs[..|hs|] == hs;
  }

  // ---------------------------------------------------------------------------
  // Why the seed loop computes the level

  lemma {:induction false} UniqueCountEmpty(lo: nat, hi: nat)
    requires lo <= hi
    ensures UniqueCount([], lo, hi) == 0
    decreases hi
  {
    if lo < hi {
      UniqueCountEmpty(lo, hi - 1);
    }
  }

  /** No once-hit slot in a range: no slot of it is hit exactly once. */
  lemma {:induction false} UniqueCountZero(s: seq<nat>, lo: nat, hi: nat, p: nat)
    requires lo <= p < hi && UniqueCount(s, lo, hi) == 0
    ensures Occ(s, p) != 1
    decreases hi
  {
    if p < hi - 1 {
      UniqueCountZero(s, lo, hi - 1, p);
    }
  }

  /** A fresh buffer holds no best bits. */
  lemma BestChosenStart(w: seq<U64>, sh: Shape, tbl: seq<seq<nat>>, seeds: seq<U16>)
    requires ShapeOk(sh) && |w| == 3 * sh.segments && |seeds| == sh.groups
    requires forall i :: 0 <= i < |w| ==> w[i] == 0
    ensures BestChosen(w, sh, tbl, seeds, 0)
  {
    forall p | 0 <= p < 64 * sh.segments
      ensures !PBit(w, sh.segments, 2, p)
    {
      SegmentWords(p, sh.segments);
      BitZero(p % 64);
    }
  }

  /** The best bits of group `g`'s window count the once-hit slots of the held seed. */
  lemma HeldCount(sh: Shape, tbl: seq<seq<nat>>, t: nat, w: seq<U64>, seeds: seq<U16>, g: nat)
    requires ShapeOk(sh) && g < sh.groups && |w| == 3 * sh.segments && |seeds| == sh.groups
    requires t > 0 ==> seeds[g] < |tbl|
    requires BestChosen(w, sh, tbl, seeds, t)
    ensures 0 <= g * sh.b && g * sh.b + sh.b <= 64 * sh.segments
    ensures PCount(w, sh.segments, 2, g * sh.b, g * sh.b + sh.b) == Held(sh, tbl, g, t, seeds[g])
  {
    hide PCount;
    hide UniqueCount;
    hide GroupOf;
    GroupWindow(sh, g);
    var lo, hi := g * sh.b, g * sh.b + sh.b;
    if t == 0 {
      assert PCount(w, sh.segments, 2, lo, hi) == 0 by {
        forall p | lo <= p < hi
          ensures PBit(w, sh.segments, 2, p) == (Occ([], p) == 1)
        {
          GroupOfWindow(sh, g, p);
        }
        WindowCount(sh, w, [], g);
        UniqueCountEmpty(lo, hi);
      }
    } else {
      var s := tbl[seeds[g]];
      assert PCount(w, sh.segments, 2, lo, hi) == UniqueCount(s, lo, hi) by {
        forall p | lo <= p < hi
          ensures PBit(w, sh.segments, 2, p) == (Occ(s, p) == 1)
        {
          GroupOfWindow(sh, g, p);
        }
        WindowCount(sh, w, s, g);
      }
    }
  }

  /** A window whose best bits are the once-hit slots of `s` holds their count. */
  lemma WindowCount(sh: Shape, w: seq<U64>, s: seq<nat>, g: nat)
    requires ShapeOk(sh) && g < sh.groups && |w| == 3 * sh.segments
    requires 0 <= g * sh.b && g * sh.b + sh.b <= 64 * sh.segments
    requires forall p {:trigger PBit(w, sh.segments, 2, p)} :: g * sh.b <= p < g * sh.b + sh.b ==>
      PBit(w, sh.segments, 2, p) == (Occ(s, p) == 1)
    ensures PCount(w, sh.segments, 2, g * sh.b, g * sh.b + sh.b) == UniqueCount(s, g * sh.b, g * sh.b + sh.b)
  {
    PCountUnique(w, sh.segments, 2, s, g * sh.b, g * sh.b + sh.b);
  }

  /** A group gains from a slot assignment exactly when its window count beats the best plane's. */
  lemma GainsAt(sh: Shape, s: seq<nat>, w0: seq<U64>, g: nat, held: nat)
    requires ShapeOk(sh) && |w0| == 3 * sh.segments && g < sh.groups
    requires 0 <= g * sh.b && g * sh.b + sh.b <= 64 * sh.segments
    requires PCount(w0, sh.segments, 2, g * sh.b, g * sh.b + sh.b) == held
    ensures Gains(w0, sh, s, g) <==> UniqueCount(s, g * sh.b, g * sh.b + sh.b) > held
  {
  }

  /** Before seed `t`, a group gains from it exactly when the held seed is beaten. */
  lemma GainsIsHeld(sh: Shape, tbl: seq<seq<nat>>, t: nat, w0: seq<U64>, s0: seq<U16>)
    requires ShapeOk(sh) && t < |tbl| && |w0| == 3 * sh.segments
    requires SeedsBest(s0, sh, tbl, t) && BestChosen(w0, sh, tbl, s0, t)
    ensures forall g :: 0 <= g < sh.groups ==>
      (Gains(w0, sh, tbl[t], g) <==> WindowUnique(sh, tbl, t, g) > Held(sh, tbl, g, t, s0[g]))
  {
    forall g | 0 <= g < sh.groups
      ensures Gains(w0, sh, tbl[t], g) <==> WindowUnique(sh, tbl, t, g) > Held(sh, tbl, g, t, s0[g])
    {
      assert FirstBest(sh, tbl, g, t, s0[g]);
      HeldCount(sh, tbl, t, w0, s0, g);
      GainsAt(sh, tbl[t], w0, g, Held(sh, tbl, g, t, s0[g]));
    }
  }

  /** The seeds after one more seed are again the first best ones. */
  lemma SeedStepSeeds(sh: Shape, tbl: seq<seq<nat>>, t: nat, w0: seq<U64>, s0: seq<U16>, s1: seq<U16>)
    requires ShapeOk(sh) && t < |tbl| && t < U16_BOUND && |w0| == 3 * sh.segments && |s1| == sh.groups
    requires SeedsBest(s0, sh, tbl, t)
    requires forall g :: 0 <= g < sh.groups ==>
      (Gains(w0, sh, tbl[t], g) <==> WindowUnique(sh, tbl, t, g) > Held(sh, tbl, g, t, s0[g]))
    requires forall j :: 0 <= j < sh.groups ==> s1[j] == if Gains(w0, sh, tbl[t], j) then t else s0[j]
    ensures SeedsBest(s1, sh, tbl, t + 1)
  {
    forall g | 0 <= g < sh.groups
      ensures FirstBest(sh, tbl, g, t + 1, s1[g])
    {
      FirstBestStep(sh, tbl, g, t, s0[g], s1[g]);
    }
  }

  /** The best bits after one more seed are the once-hit slots of the new seeds. */
  lemma SeedStepBits(sh: Shape, tbl: seq<seq<nat>>, t: nat, w0: seq<U64>, s0: seq<U16>, w1: seq<U64>, s1: seq<U16>)
    requires ShapeOk(sh) && t < |tbl| && |w0| == 3 * sh.segments && |w1| == 3 * sh.segments
    requires SeedsBest(s0, sh, tbl, t) && SeedsBest(s1, sh, tbl, t + 1) && BestChosen(w0, sh, tbl, s0, t)
    requires forall g :: 0 <= g < sh.groups ==>
      (Gains(w0, sh, tbl[t], g) <==> WindowUnique(sh, tbl, t, g) > Held(sh, tbl, g, t, s0[g]))
    requires forall p {:trigger PBit(w1, sh.segments, 2, p)} :: 0 <= p < 64 * sh.segments ==>
      PBit(w1, sh.segments, 2, p) ==
        if Gains(w0, sh, tbl[t], GroupOf(sh, p)) then Occ(tbl[t], p) == 1 else PBit(w0, sh.segments, 2, p)
    requires forall j :: 0 <= j < sh.groups ==> s1[j] == if Gains(w0, sh, tbl[t], j) then t else s0[j]
    ensures BestChosen(w1, sh, tbl, s1, t + 1)
  {
    var n := sh.segments;
    forall p | 0 <= p < 64 * n
      ensures PBit(w1, n, 2, p) == (s1[GroupOf(sh, p)] < |tbl| && Occ(tbl[s1[GroupOf(sh, p)]], p) == 1)
    {
      var g := GroupOf(sh, p);
      assert FirstBest(sh, tbl, g, t, s0[g]) && FirstBest(sh, tbl, g, t + 1, s1[g]);
      BestBitStep(sh, tbl, t, w0, s0[g], w1, s1[g], p);
    }
  }

  /** One bit of `SeedStepBits`: its group either switched to seed `t` or kept its seed. */
  lemma BestBitStep(sh: Shape, tbl: seq<seq<nat>>, t: nat, w0: seq<U64>, seed0: nat, w1: seq<U64>, seed1: nat, p: nat)
    requires ShapeOk(sh) && t < |tbl| && |w0| == 3 * sh.segments && |w1| == 3 * sh.segments
    requires p < 64 * sh.segments && seed1 < |tbl| && (t > 0 ==> seed0 < |tbl|) && (t == 0 ==> seed0 == 0)
    requires PBit(w0, sh.segments, 2, p) == (t > 0 && Occ(tbl[seed0], p) == 1)
    requires Gains(w0, sh, tbl[t], GroupOf(sh, p)) <==> WindowUnique(sh, tbl, t, GroupOf(sh, p)) > Held(sh, tbl, GroupOf(sh, p), t, seed0)
    requires PBit(w1, sh.segments, 2, p) ==
      if Gains(w0, sh, tbl[t], GroupOf(sh, p)) then Occ(tbl[t], p) == 1 else PBit(w0, sh.segments, 2, p)
    requires seed1 == if Gains(w0, sh, tbl[t], GroupOf(sh, p)) then t else seed0
    ensures PBit(w1, sh.segments, 2, p) == (Occ(tbl[seed1], p) == 1)
  {
    hide Gains;
    hide PBit;
    hide GroupOf;
    hide Occ;
    hide UniqueCount;
    var g := GroupOf(sh, p);
    if t == 0 && !Gains(w0, sh, tbl[t], g) {
      UniqueCountZero(tbl[0], g * sh.b, g * sh.b + sh.b, p);
    }
  }

  /** One more seed tried: both halves of the loop invariant carry over. */
  lemma SeedStep(sh: Shape, tbl: seq<seq<nat>>, t: nat, w0: seq<U64>, s0: seq<U16>, w1: seq<U64>, s1: seq<U16>)
    requires ShapeOk(sh) && t < |tbl| && t < U16_BOUND && |w0| == 3 * sh.segments && |w1| == 3 * sh.segments
    requires |s1| == sh.groups
    requires SeedsBest(s0, sh, tbl, t) && BestChosen(w0, sh, tbl, s0, t)
    requires forall p {:trigger PBit(w1, sh.segments, 2, p)} :: 0 <= p < 64 * sh.segments ==>
      PBit(w1, sh.segments, 2, p) ==
        if Gains(w0, sh, tbl[t], GroupOf(sh, p)) then Occ(tbl[t], p) == 1 else PBit(w0, sh.segments, 2, p)
    requires forall j :: 0 <= j < sh.groups ==> s1[j] == if Gains(w0, sh, tbl[t], j) then t else s0[j]
    ensures SeedsBest(s1, sh, tbl, t + 1) && BestChosen(w1, sh, tbl, s1, t + 1)
  {
    GainsIsHeld(sh, tbl, t, w0, s0);
    SeedStepSeeds(sh, tbl, t, w0, s0, s1);
    SeedStepBits(sh, tbl, t, w0, s0, w1, s1);
  }

  /** After the loop, the held seeds are those `ChosenSeed` gives. */
  lemma SeedsAreChosen(seeds: seq<U16>, sh: Shape, tbl: seq<seq<nat>>, t: nat)
    requires ShapeOk(sh) && t <= |tbl| && t <= U16_BOUND && SeedsBest(seeds, sh, tbl, t)
    ensures seeds == Seeds(sh, tbl, t)
  {
    forall g | 0 <= g < sh.groups
      ensures seeds[g] == ChosenSeed(sh, tbl, g, t)
    {
      ChosenSeedIsFirstBest(sh, tbl, g, t);
      FirstBestUnique(sh, tbl, g, t, seeds[g], ChosenSeed(sh, tbl, g, t));
    }
  }

  /** A slot hit by the kept seeds is hit by the seed of its own group. */
  lemma {:induction false} OccChosen(sh: Shape, seeds: seq<U16>, hs: seq<U64>, p: nat)
    requires ShapeOk(sh) && |seeds| == sh.groups && p < 64 * sh.segments
    ensures Occ(ChosenSlots(sh, seeds, hs), p) == Occ(SeedSlots(sh, seeds[GroupOf(sh, p)], hs), p)
  {
    if hs != [] {
      var h := hs[|hs| - 1];
      var init := hs[..|hs| - 1];
      OccChosen(sh, seeds, init, p);
      OccAppend(ChosenSlots(sh, seeds, init), ChosenSlot(sh, seeds, h), p);
      OccAppend(SeedSlots(sh, seeds[GroupOf(sh, p)], init), SlotFor(sh, seeds[GroupOf(sh, p)], h), p);
      var g := GroupIndex(sh, h);
      if g * sh.b <= p < g * sh.b + sh.b {
        GroupOfWindow(sh, g, p);
      }
    }
  }

  /** After the seed loop, the best words are the level's bits. */
  lemma BestIsLevelBits(sh: Shape, hs: seq<U64>, w: seq<U64>, seeds: seq<U16>)
    requires ShapeOk(sh) && |w| == 3 * sh.segments && |seeds| == sh.groups
    requires forall p {:trigger PBit(w, sh.segments, 2, p)} :: 0 <= p < 64 * sh.segments ==>
      PBit(w, sh.segments, 2, p) == (Occ(ChosenSlots(sh, seeds, hs), p) == 1)
    ensures Plane(w, sh.segments, 2) == LevelBits(sh, seeds, hs)
  {
    var c := ChosenSlots(sh, seeds, hs);
    forall q | 0 <= q < sh.segments
      ensures w[3 * q + 2] == HitWord(c, q, ExactlyOnce)
    {
      WordIsHitWord(w, sh.segments, 2, c, ExactlyOnce, q);
    }
  }

  /** After the last seed, a best bit is set exactly when one hash chose its slot under the kept seeds. */
  lemma BestBitsAreChosen(sh: Shape, hs: seq<U64>, tbl: seq<seq<nat>>, w: seq<U64>, seeds: seq<U16>, t: nat)
    requires ShapeOk(sh) && |w| == 3 * sh.segments && 0 < t <= |tbl| <= U16_BOUND
    requires tbl == SeedTable(sh, hs, |tbl|)
    requires SeedsBest(seeds, sh, tbl, t) && BestChosen(w, sh, tbl, seeds, t)
    ensures forall p {:trigger PBit(w, sh.segments, 2, p)} :: 0 <= p < 64 * sh.segments ==>
      PBit(w, sh.segments, 2, p) == (Occ(ChosenSlots(sh, seeds, hs), p) == 1)
  {
    forall p | 0 <= p < 64 * sh.segments
      ensures PBit(w, sh.segments, 2, p) == (Occ(ChosenSlots(sh, seeds, hs), p) == 1)
    {
      BestBitIsChosen(sh, hs, tbl, w, seeds, t, p);
    }
  }

  /** One best bit is set exactly when one hash chose its slot under the kept seeds. */
  lemma BestBitIsChosen(sh: Shape, hs: seq<U64>, tbl: seq<seq<nat>>, w: seq<U64>, seeds: seq<U16>, t: nat, p: nat)
    requires ShapeOk(sh) && |w| == 3 * sh.segments && 0 < t <= |tbl| <= U16_BOUND && p < 64 * sh.segments
    requires tbl == SeedTable(sh, hs, |tbl|)
    requires SeedsBest(seeds, sh, tbl, t) && BestChosen(w, sh, tbl, seeds, t)
    ensures PBit(w, sh.segments, 2, p) == (Occ(ChosenSlots(sh, seeds, hs), p) == 1)
  {
    var g := GroupOf(sh, p);
    assert FirstBest(sh, tbl, g, t, seeds[g]);
    SeedTableAt(sh, hs, |tbl|, seeds[g]);
    OccChosen(sh, seeds, hs, p);
  }
}
