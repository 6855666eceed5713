/**
  What one level of the MPHF places. The level's bits are set exactly at
  the slots one hash chose; a hash is placed when its chosen slot is set,
  no two placed hashes share a slot, and the hashes handed on to the next
  level are the unplaced ones, in their order, as many as the input minus
  the level's set bits.
*/
module MphfPlacement {
  import opened Bits
  import opened Rank
  import opened MphfHash
  import opened MphfLevel
  import opened MphfBuild

  /** No entry occurs twice. */
  predicate Distinct<T(==)>(s: seq<T>)
  {
    forall i, j :: 0 <= i < j < |s| ==> s[i] != s[j]
  }

  /** `h` is placed on the level: the slot it chose under its group's kept seed is set. */
  predicate Placed(sh: Shape, bits: seq<U64>, seeds: seq<U16>, h: U64)
    requires ShapeOk(sh) && |bits| == sh.segments && |seeds| == sh.groups
  {
    BitAt(bits, ChosenSlot(sh, seeds, h))
  }

  // ---------------------------------------------------------------------------
  // The level's bits

  /** Slot `p` of the level is set exactly when one hash chose it. */
  lemma LevelBitAt(sh: Shape, seeds: seq<U16>, hs: seq<U64>, p: nat)
    requires ShapeOk(sh) && |seeds| == sh.groups && p < 64 * sh.segments
    ensures BitAt(LevelBits(sh, seeds, hs), p) == (Occ(ChosenSlots(sh, seeds, hs), p) == 1)
  {
    var c := ChosenSlots(sh, seeds, hs);
    var q, i := p / 64, p % 64;
    assert 64 * q + i == p;
    assert LevelBits(sh, seeds, hs)[q] == HitWord(c, q, ExactlyOnce);
    BitHitWord(c, q, ExactlyOnce, i);
  }

  /** Two different hashes that chose the same slot make it hit at least twice. */
  lemma {:induction false} OccTwo(c: seq<nat>, i: nat, j: nat)
    requires i < j < |c| && c[i] == c[j]
    ensures Occ(c, c[j]) >= 2
  {
    var last := c[..|c| - 1];
    assert c == last + [c[|c| - 1]];
    OccAppend(last, c[|c| - 1], c[j]);
    if j < |c| - 1 {
      OccTwo(last, i, j);
    } else {
      OccIn(last, i);
    }
  }

  /** A slot some entry chose is hit at least once. */
  lemma {:induction false} OccIn(c: seq<nat>, i: nat)
    requires i < |c|
    ensures Occ(c, c[i]) >= 1
  {
    var last := c[..|c| - 1];
    assert c == last + [c[|c| - 1]];
    OccAppend(last, c[|c| - 1], c[i]);
    if i < |c| - 1 {
      OccIn(last, i);
    }
  }

  /** A slot hit at least once was chosen by some entry. */
  lemma {:induction false} OccWitness(c: seq<nat>, p: nat) returns (i: nat)
    requires Occ(c, p) >= 1
    ensures i < |c| && c[i] == p
  {
    var last := c[..|c| - 1];
    assert c == last + [c[|c| - 1]];
    OccAppend(last, c[|c| - 1], p);
    if c[|c| - 1] == p {
      i := |c| - 1;
    } else {
      i := OccWitness(last, p);
    }
  }

  /** No two hashes of a level are placed on the same slot. */
  lemma PlacedApart(sh: Shape, seeds: seq<U16>, hs: seq<U64>, i: nat, j: nat)
    requires ShapeOk(sh) && |seeds| == sh.groups && i < |hs| && j < |hs| && i != j
    requires Placed(sh, LevelBits(sh, seeds, hs), seeds, hs[i])
    ensures ChosenSlot(sh, seeds, hs[i]) != ChosenSlot(sh, seeds, hs[j])
  {
    var c := ChosenSlots(sh, seeds, hs);
    LevelBitAt(sh, seeds, hs, c[i]);
    if c[i] == c[j] {
      if i < j {
        OccTwo(c, i, j);
      } else {
        OccTwo(c, j, i);
      }
    }
  }

  /** Every set bit of a level belongs to a placed hash. */
  lemma SetBitPlaced(sh: Shape, seeds: seq<U16>, hs: seq<U64>, p: nat) returns (i: nat)
    requires ShapeOk(sh) && |seeds| == sh.groups && p < 64 * sh.segments
    requires BitAt(LevelBits(sh, seeds, hs), p)
    ensures i < |hs| && ChosenSlot(sh, seeds, hs[i]) == p
    ensures Placed(sh, LevelBits(sh, seeds, hs), seeds, hs[i])
  {
    var c := ChosenSlots(sh, seeds, hs);
    LevelBitAt(sh, seeds, hs, p);
    i := OccWitness(c, p);
  }

  // ---------------------------------------------------------------------------
  // The hashes handed on

  /** `retain` keeps exactly the unplaced hashes. */
  lemma {:induction false} UnplacedIn(sh: Shape, bits: seq<U64>, seeds: seq<U16>, hs: seq<U64>, x: U64)
    requires ShapeOk(sh) && |bits| == sh.segments && |seeds| == sh.groups
    ensures x in Unplaced(sh, bits, seeds, hs) <==> x in hs && !Placed(sh, bits, seeds, x)
  {
    if hs != [] {
      var init := hs[..|hs| - 1];
      assert hs == init + [hs[|hs| - 1]];
      UnplacedIn(sh, bits, seeds, init, x);
    }
  }

  /** `retain` keeps the order: filtering a concatenation filters each part. */
  lemma {:induction false} UnplacedAppend(sh: Shape, bits: seq<U64>, seeds: seq<U16>, a: seq<U64>, b: seq<U64>)
    requires ShapeOk(sh) && |bits| == sh.segments && |seeds| == sh.groups
    ensures Unplaced(sh, bits, seeds, a + b) == Unplaced(sh, bits, seeds, a) + Unplaced(sh, bits, seeds, b)
    decreases |b|
  {
    if b == [] {
      assert a + b == a;
    } else {
      var init := b[..|b| - 1];
      assert (a + b)[..|a + b| - 1] == a + init;
      UnplacedAppend(sh, bits, seeds, a, init);
    }
  }

  /** The kept hashes of distinct hashes are distinct. */
  lemma {:induction false} UnplacedDistinct(sh: Shape, bits: seq<U64>, seeds: seq<U16>, hs: seq<U64>)
    requires ShapeOk(sh) && |bits| == sh.segments && |seeds| == sh.groups && Distinct(hs)
    ensures Distinct(Unplaced(sh, bits, seeds, hs))
  {
    if hs != [] {
      var init := hs[..|hs| - 1];
      var x := hs[|hs| - 1];
      assert Distinct(init);
      UnplacedDistinct(sh, bits, seeds, init);
      UnplacedIn(sh, bits, seeds, init, x);
    }
  }

  // ---------------------------------------------------------------------------
  // Counting the placed hashes

  /** The entries of `d` that are hit exactly once in `c`. */
  function UniqueIn(c: seq<nat>, d: seq<nat>): nat
  {
    if d == [] then 0 else UniqueIn(c, d[..|d| - 1]) + (if Occ(c, d[|d| - 1]) == 1 then 1 else 0)
  }

  /** Adding an entry `x` to `c` changes the once-hit count of a range only at `x`. */
  lemma {:induction false} UniqueCountAppend(c: seq<nat>, x: nat, lo: nat, hi: nat)
    requires lo <= hi
    ensures UniqueCount(c + [x], lo, hi) + (if lo <= x < hi && Occ(c, x) == 1 then 1 else 0)
         == UniqueCount(c, lo, hi) + (if lo <= x < hi && Occ(c, x) == 0 then 1 else 0)
    decreases hi
  {
    if lo < hi {
      UniqueCountAppend(c, x, lo, hi - 1);
      OccAppend(c, x, hi - 1);
    }
  }

  /** Adding `x` to `c` makes the entries equal to `x` once-hit or not once-hit any more. */
  lemma {:induction false} UniqueInAppend(c: seq<nat>, x: nat, d: seq<nat>)
    ensures UniqueIn(c + [x], d) + (if Occ(c, x) == 1 then Occ(d, x) else 0)
         == UniqueIn(c, d) + (if Occ(c, x) == 0 then Occ(d, x) else 0)
  {
    if d != [] {
      var init := d[..|d| - 1];
      UniqueInAppend(c, x, init);
      OccAppend(c, x, d[|d| - 1]);
      assert d == init + [d[|d| - 1]];
      OccAppend(init, d[|d| - 1], x);
    }
  }

  /** The entries of `c` that are alone on their slot are as many as its once-hit slots. */
  lemma {:induction false} UniqueInSelf(c: seq<nat>, n: nat)
    requires forall i :: 0 <= i < |c| ==> c[i] < n
    ensures UniqueIn(c, c) == UniqueCount(c, 0, n)
  {
    if c == [] {
      UniqueCountEmpty(0, n);
    } else {
      var init := c[..|c| - 1];
      var x := c[|c| - 1];
      assert c == init + [x];
      UniqueInSelf(init, n);
      UniqueInAppend(init, x, init);
      OccAppend(init, x, x);
      UniqueCountAppend(init, x, 0, n);
    }
  }

  /** Counting the set bits one position at a time counts the once-hit slots. */
  lemma {:induction false} CountBeforeLevel(sh: Shape, seeds: seq<U16>, hs: seq<U64>, p: nat)
    requires ShapeOk(sh) && |seeds| == sh.groups && p <= 64 * sh.segments
    ensures CountBefore(LevelBits(sh, seeds, hs), p) == UniqueCount(ChosenSlots(sh, seeds, hs), 0, p)
  {
    if p > 0 {
      CountBeforeLevel(sh, seeds, hs, p - 1);
      LevelBitAt(sh, seeds, hs, p - 1);
    }
  }

  /** Counting every position of a bit vector sums the popcounts of its words. */
  lemma {:induction false} CountBeforeAll(bits: seq<U64>)
    ensures CountBefore(bits, 64 * |bits|) == WordsOnes(bits)
  {
    if bits != [] {
      var n := |bits|;
      CountBeforeWords(bits, 64 * n - 1);
      assert (64 * n - 1) / 64 == n - 1 && (64 * n - 1) % 64 == 63;
    }
  }

  /** The hashes kept by the filter, counted along the input. */
  lemma {:induction false} UnplacedCount(sh: Shape, seeds: seq<U16>, hs: seq<U64>, k: nat)
    requires ShapeOk(sh) && |seeds| == sh.groups && k <= |hs|
    ensures |Unplaced(sh, LevelBits(sh, seeds, hs), seeds, hs[..k])| + UniqueIn(ChosenSlots(sh, seeds, hs), ChosenSlots(sh, seeds, hs)[..k]) == k
  {
    var c := ChosenSlots(sh, seeds, hs);
    if k > 0 {
      UnplacedCount(sh, seeds, hs, k - 1);
      assert hs[..k][..k - 1] == hs[..k - 1];
      assert c[..k][..k - 1] == c[..k - 1];
      LevelBitAt(sh, seeds, hs, c[k - 1]);
    }
  }

  /** The level places as many hashes as its bits have ones; the rest go on. */
  lemma PlacedCount(sh: Shape, seeds: seq<U16>, hs: seq<U64>)
    requires ShapeOk(sh) && |seeds| == sh.groups
    ensures |hs| == |Unplaced(sh, LevelBits(sh, seeds, hs), seeds, hs)| + WordsOnes(LevelBits(sh, seeds, hs))
  {
    var c := ChosenSlots(sh, seeds, hs);
    var bits := LevelBits(sh, seeds, hs);
    UnplacedCount(sh, seeds, hs, |hs|);
    assert hs[..|hs|] == hs && c[..|hs|] == c;
    UniqueInSelf(c, 64 * sh.segments);
    CountBeforeLevel(sh, seeds, hs, 64 * sh.segments);
    CountBeforeAll(bits);
  }

  // ---------------------------------------------------------------------------
  // The level as built

  /** The slots of group `g`'s window that `s` hits exactly once. */
  function GroupUnique(sh: Shape, s: seq<nat>, g: nat): nat
    requires ShapeOk(sh) && g < sh.groups
  {
    GroupWindow(sh, g);
    UniqueCount(s, g * sh.b, g * sh.b + sh.b)
  }

  /** The kept seed of every group is the first seed leaving the most once-hit slots in its window. */
  lemma LevelSeedIsFirstBest(p: Params, level: nat, hs: seq<U64>, g: nat, other: nat)
    requires ParamsOk(p) && level < U32_BOUND && hs != []
    requires g < LevelShape(p, level, |hs|).groups && other < MaxGroupSeed(p.s)
    ensures var sh := LevelShape(p, level, |hs|);
      var seed := LevelSpec(p, level, hs).seeds[g];
      seed < MaxGroupSeed(p.s)
      && GroupUnique(sh, SeedSlots(sh, other, hs), g) <= GroupUnique(sh, SeedSlots(sh, seed, hs), g)
      && (other < seed ==> GroupUnique(sh, SeedSlots(sh, other, hs), g) < GroupUnique(sh, SeedSlots(sh, seed, hs), g))
  {
    var sh := LevelShape(p, level, |hs|);
    var m := MaxGroupSeed(p.s);
    var tbl := SeedTable(sh, hs, m);
    var seed := LevelSpec(p, level, hs).seeds[g];
    assert seed == ChosenSeed(sh, tbl, g, m);
    ChosenSeedIsFirstBest(sh, tbl, g, m);
    FirstBestBounds(sh, tbl, g, m, seed, other);
    SeedTableAt(sh, hs, m, seed);
    SeedTableAt(sh, hs, m, other);
  }

  /** The first best seed is below the number tried and beats or ties every other. */
  lemma FirstBestBounds(sh: Shape, tbl: seq<seq<nat>>, g: nat, t: nat, seed: nat, other: nat)
    requires ShapeOk(sh) && g < sh.groups && 0 < t <= |tbl| && other < t
    requires FirstBest(sh, tbl, g, t, seed)
    ensures seed < t
    ensures WindowUnique(sh, tbl, other, g) <= WindowUnique(sh, tbl, seed, g)
    ensures other < seed ==> WindowUnique(sh, tbl, other, g) < WindowUnique(sh, tbl, seed, g)
  {
  }

  /** What a level hands on: the unplaced hashes, no others, in order, one fewer for every set bit. */
  lemma LevelRest(p: Params, level: nat, hs: seq<U64>, x: U64)
    requires ParamsOk(p) && level < U32_BOUND && hs != []
    ensures var sh := LevelShape(p, level, |hs|);
      var lv := LevelSpec(p, level, hs);
      |lv.bits| == sh.segments && |lv.seeds| == sh.groups
      && (x in lv.rest <==> x in hs && !Placed(sh, lv.bits, lv.seeds, x))
      && |hs| == |lv.rest| + WordsOnes(lv.bits)
      && (Distinct(hs) ==> Distinct(lv.rest))
  {
    var sh := LevelShape(p, level, |hs|);
    var lv := LevelSpec(p, level, hs);
    UnplacedIn(sh, lv.bits, lv.seeds, hs, x);
    PlacedCount(sh, lv.seeds, hs);
    if Distinct(hs) {
      UnplacedDistinct(sh, lv.bits, lv.seeds, hs);
    }
  }
}
