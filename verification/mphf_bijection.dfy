/**
  What the built MPHF answers. A hash the construction placed on some level
  is found by the query on that same level, at the bit its group's seed chose
  there; different hashes stop at different bits; the levels' bits hold as
  many ones as there were hashes. With the rank of a set bit being the
  number of set bits before it, `get` maps `n` distinct hashes one-to-one
  onto `0 .. n`.
*/
module MphfBijection {
  import opened Wrappers
  import opened Bits
  import opened Rank
  import opened MphfHash
  import opened MphfLevel
  import opened MphfBuild
  import opened MphfPlacement
  import opened Mphf

  // ---------------------------------------------------------------------------
  // One level inside the concatenation

  /** A slot of group `before + g` is the slot of group `g` moved up by `before` groups. */
  lemma BitIndexShift(b: nat, x: U64, seed: U16, before: nat, g: nat)
    requires 1 <= b <= 64
    ensures BitIndexForSeed(b, x, seed, before + g) == before * b + BitIndexForSeed(b, x, seed, g)
  {
    assert (before + g) * b == before * b + g * b;
  }

  /** A bit of a level's words, read in the concatenation after the words of earlier levels. */
  lemma BitAtShift(a: seq<U64>, w: seq<U64>, r: seq<U64>, c: nat)
    requires c < 64 * |w|
    ensures 64 * |a| + c < 64 * |a + w + r|
    ensures BitAt(a + w + r, 64 * |a| + c) == BitAt(w, c)
  {
    DivModUnique(64 * |a| + c, 64, |a| + c / 64, c % 64);
    assert (a + w + r)[|a| + c / 64] == w[c / 64];
  }

  /**
    On a level whose groups are `seeds`, the query computes, for `h`, the
    slot the construction chose for `h` there, moved up by the bits of the
    earlier levels.
  */
  lemma LevelIndexIsSlot(m: Mphf, h: U64, level: nat, sh: Shape, seeds: seq<U16>)
    requires Wf(m) && level < |m.levelGroups| && ShapeOk(sh) && |seeds| == sh.groups
    requires sh.b == m.b && sh.level == level && m.levelGroups[level] == sh.groups
    requires Sum(m.levelGroups[..level]) + sh.groups <= |m.groupSeeds|
    requires m.groupSeeds[Sum(m.levelGroups[..level])..Sum(m.levelGroups[..level]) + sh.groups] == seeds
    ensures LevelBitIndex(m, h, level, Sum(m.levelGroups[..level]))
      == Sum(m.levelGroups[..level]) * m.b + ChosenSlot(sh, seeds, h)
  {
    hide HashWithSeed;
    hide FastMod32;
    hide Valid;
    hide BitIndexForSeed;
    hide GroupIndex;
    var before := Sum(m.levelGroups[..level]);
    DivModUnique(sh.groups * sh.b, 64, sh.segments, 0);
    assert ShapeAt(m.b, level, sh.groups) == sh;
    var g := GroupIndex(sh, h);
    assert m.groupSeeds[before + g] == seeds[g];
    BitIndexShift(m.b, HashWithSeed(h, level), seeds[g], before, g);
  }

  /**
    The bits of a level are set exactly at the slots one of its hashes
    chose, and the hashes it hands on are those whose slot is clear.
  */
  lemma LevelSpecBits(p: Params, level: nat, hs: seq<U64>)
    requires ParamsOk(p) && level < U32_BOUND && hs != []
    ensures var lv := LevelSpec(p, level, hs);
      var sh := LevelShape(p, level, |hs|);
      lv.bits == LevelBits(sh, lv.seeds, hs) && |lv.seeds| == sh.groups
      && lv.rest == Unplaced(sh, lv.bits, lv.seeds, hs)
  {
  }

  /** One step of the query: stop at the level's bit when it is set, else go on to the next level. */
  lemma FoundStep(m: Mphf, h: U64, level: nat)
    requires Wf(m) && level < |m.levelGroups|
    ensures var before := Sum(m.levelGroups[..level]);
      var idx := LevelBitIndex(m, h, level, before);
      Sum(m.levelGroups[..level + 1]) == before + m.levelGroups[level]
      && FoundAt(m, h, level, before)
        == if BitAt(m.rankedBits.bits, idx) then Some(idx) else FoundAt(m, h, level + 1, Sum(m.levelGroups[..level + 1]))
  {
    hide LevelBitIndex;
    hide BitAt;
    SumPrefix(m.levelGroups, level);
  }

  /** What the built function's level `level` and beyond look like. */
  predicate BuiltFrom(p: Params, level: nat, hs: seq<U64>, prefix: Built, m: Mphf)
  {
    ParamsOk(p) && level <= MAX_LEVELS && (level == MAX_LEVELS ==> hs == [])
    && Wf(m) && m.b == p.b && BuiltOk(p.b, prefix)
    && level <= |m.levelGroups| && m.levelGroups[..level] == prefix.levelGroups
    && Join(prefix, BuildLevels(p, level, hs)) == Ok(Built(m.rankedBits.bits, m.groupSeeds, m.levelGroups))
  }

  /** The outputs of the levels up to and including `level`, when `hs` reach it. */
  function Through(p: Params, level: nat, hs: seq<U64>, prefix: Built): Built
    requires ParamsOk(p) && level < U32_BOUND && hs != []
  {
    var lv := LevelSpec(p, level, hs);
    Extend(prefix, lv.bits, lv.seeds)
  }

  /**
    When the hashes `hs` reach level `level`, that level sits in the built
    function after the earlier ones, and its unplaced hashes reach the next.
  */
  lemma LevelFrame(p: Params, level: nat, hs: seq<U64>, prefix: Built, m: Mphf)
    requires BuiltFrom(p, level, hs, prefix, m) && hs != []
    ensures ParamsOk(p) && level < MAX_LEVELS && level < |m.levelGroups| && Wf(m) && m.b == p.b
    ensures var lv := LevelSpec(p, level, hs);
      var sh := LevelShape(p, level, |hs|);
      var before := Sum(prefix.levelGroups);
      BuiltFrom(p, level + 1, lv.rest, Through(p, level, hs, prefix), m)
      && |Through(p, level, hs, prefix).bits| == |prefix.bits| + |lv.bits|
      && m.levelGroups[level] == sh.groups
      && before == Sum(m.levelGroups[..level])
      && before + sh.groups <= |m.groupSeeds|
      && m.groupSeeds[before..before + sh.groups] == lv.seeds
      && 64 * |prefix.bits| == before * m.b
      && (exists tail :: m.rankedBits.bits == prefix.bits + lv.bits + tail)
  {
    hide LevelSpec;
    hide Valid;
    var lv := LevelSpec(p, level, hs);
    var sh := LevelShape(p, level, |hs|);
    var top := Built(lv.bits, lv.seeds, [|lv.seeds|]);
    var r := BuildLevels(p, level + 1, lv.rest);
    JoinJoin(prefix, top, r);
    var prefix' := Through(p, level, hs, prefix);
    var before := Sum(prefix.levelGroups);
    assert m.levelGroups == prefix'.levelGroups + r.value.levelGroups;
    assert m.levelGroups[level] == sh.groups && m.levelGroups[..level + 1] == prefix'.levelGroups;
    assert m.groupSeeds[before..before + sh.groups] == lv.seeds;
    assert m.rankedBits.bits == prefix.bits + lv.bits + r.value.bits;
    LevelOutputOk(p, level, hs);
    JoinOk(p.b, prefix, Ok(top));
  }

  // ---------------------------------------------------------------------------
  // The query against the construction

  /**
    The query for a hash `h` among the hashes `hs` that reach level `level`:
    a hash placed there stops at its chosen slot, moved up by the bits of the
    earlier levels; any other hash is handed on and goes on to the next level.
  */
  lemma FoundHere(p: Params, level: nat, hs: seq<U64>, prefix: Built, m: Mphf, h: U64)
    requires BuiltFrom(p, level, hs, prefix, m) && h in hs
    ensures ParamsOk(p) && level < MAX_LEVELS
    ensures var lv := LevelSpec(p, level, hs);
      var sh := LevelShape(p, level, |hs|);
      var next := Through(p, level, hs, prefix);
      |lv.bits| == sh.segments && |lv.seeds| == sh.groups
      && |next.bits| == |prefix.bits| + |lv.bits|
      && BuiltFrom(p, level + 1, lv.rest, next, m)
      && (Placed(sh, lv.bits, lv.seeds, h) ==>
            FoundAt(m, h, level, Sum(m.levelGroups[..level])) == Some(64 * |prefix.bits| + ChosenSlot(sh, lv.seeds, h))
            && ChosenSlot(sh, lv.seeds, h) < 64 * |lv.bits|)
      && (!Placed(sh, lv.bits, lv.seeds, h) ==>
            h in lv.rest
            && FoundAt(m, h, level, Sum(m.levelGroups[..level])) == FoundAt(m, h, level + 1, Sum(m.levelGroups[..level + 1])))
  {
    hide LevelSpec;
    hide LevelBitIndex;
    hide ChosenSlot;
    hide BitAt;
    hide Valid;
    hide BuildLevels;
    hide Join;
    hide Wf;
    hide LevelShape;
    hide BuiltOk;
    hide Distinct;
    hide WordsOnes;
    hide BuiltFrom;
    hide FoundAt;
    hide Through;
    hide Extend;
    LevelFrame(p, level, hs, prefix, m);
    var lv := LevelSpec(p, level, hs);
    var sh := LevelShape(p, level, |hs|);
    var tail :| m.rankedBits.bits == prefix.bits + lv.bits + tail;
    var c := ChosenSlot(sh, lv.seeds, h);
    LevelIndexIsSlot(m, h, level, sh, lv.seeds);
    BitAtShift(prefix.bits, lv.bits, tail, c);
    FoundStep(m, h, level);
    LevelRest(p, level, hs, h);
  }

  /**
    The query for a hash `h` among the hashes `hs` that reach level `level`
    stops on this level or a later one: at a set bit past the bits of the
    earlier levels.
  */
  lemma {:induction false} FoundOnLevels(p: Params, level: nat, hs: seq<U64>, prefix: Built, m: Mphf, h: U64)
    requires BuiltFrom(p, level, hs, prefix, m) && h in hs
    ensures var f := FoundAt(m, h, level, Sum(m.levelGroups[..level])); f.Some? && 64 * |prefix.bits| <= f.value
    decreases MAX_LEVELS - level
  {
    hide LevelSpec;
    hide ChosenSlot;
    hide Through;
    hide BuiltFrom;
    hide FoundAt;
    hide Placed;
    FoundHere(p, level, hs, prefix, m, h);
    var lv := LevelSpec(p, level, hs);
    if !Placed(LevelShape(p, level, |hs|), lv.bits, lv.seeds, h) {
      FoundOnLevels(p, level + 1, lv.rest, Through(p, level, hs, prefix), m, h);
    }
  }

  /** Two different hashes placed on the same level stop at different bits. */
  lemma FoundApartHere(p: Params, level: nat, hs: seq<U64>, prefix: Built, m: Mphf, h1: U64, h2: U64)
    requires BuiltFrom(p, level, hs, prefix, m) && h1 in hs && h2 in hs && h1 != h2
    requires ParamsOk(p) && level < U32_BOUND
    requires var lv := LevelSpec(p, level, hs);
      var sh := LevelShape(p, level, |hs|);
      Placed(sh, lv.bits, lv.seeds, h1) && Placed(sh, lv.bits, lv.seeds, h2)
    ensures var lv := LevelSpec(p, level, hs);
      var sh := LevelShape(p, level, |hs|);
      ChosenSlot(sh, lv.seeds, h1) != ChosenSlot(sh, lv.seeds, h2)
  {
    hide LevelSpec;
    hide ChosenSlot;
    hide BuiltFrom;
    hide Placed;
    LevelSpecBits(p, level, hs);
    var i :| 0 <= i < |hs| && hs[i] == h1;
    var j :| 0 <= j < |hs| && hs[j] == h2;
    PlacedApart(LevelShape(p, level, |hs|), LevelSpec(p, level, hs).seeds, hs, i, j);
  }

  /**
    Two different hashes among those that reach level `level` stop at
    different bits: on the same level the construction kept only slots hit
    once, and a hash stopping on an earlier level stops below the bits of
    every later one.
  */
  lemma {:induction false} FoundApart(p: Params, level: nat, hs: seq<U64>, prefix: Built, m: Mphf, h1: U64, h2: U64)
    requires BuiltFrom(p, level, hs, prefix, m) && h1 in hs && h2 in hs && h1 != h2
    ensures FoundAt(m, h1, level, Sum(m.levelGroups[..level])) != FoundAt(m, h2, level, Sum(m.levelGroups[..level]))
    decreases MAX_LEVELS - level
  {
    hide LevelSpec;
    hide ChosenSlot;
    hide Through;
    hide BuiltFrom;
    hide FoundAt;
    hide Placed;
    hide LevelShape;
    FoundHere(p, level, hs, prefix, m, h1);
    FoundHere(p, level, hs, prefix, m, h2);
    var lv := LevelSpec(p, level, hs);
    var sh := LevelShape(p, level, |hs|);
    var next := Through(p, level, hs, prefix);
    var placed1, placed2 := Placed(sh, lv.bits, lv.seeds, h1), Placed(sh, lv.bits, lv.seeds, h2);
    if placed1 && placed2 {
      FoundApartHere(p, level, hs, prefix, m, h1, h2);
    } else if placed1 {
      FoundOnLevels(p, level + 1, lv.rest, next, m, h2);
    } else if placed2 {
      FoundOnLevels(p, level + 1, lv.rest, next, m, h1);
    } else {
      FoundApart(p, level + 1, lv.rest, next, m, h1, h2);
    }
  }

  // ---------------------------------------------------------------------------
  // Counting the set bits

  /** Every hash sets one bit of the levels: the built bits hold as many ones as there were hashes. */
  lemma {:induction false} LevelsOnes(p: Params, level: nat, hs: seq<U64>)
    requires ParamsOk(p) && level <= MAX_LEVELS && (level == MAX_LEVELS ==> hs == [])
    ensures var r := BuildLevels(p, level, hs); r.Ok? ==> WordsOnes(r.value.bits) == |hs|
    decreases MAX_LEVELS - level
  {
    hide LevelSpec;
    hide Placed;
    hide LevelShape;
    hide Valid;
    if hs != [] {
      var lv := LevelSpec(p, level, hs);
      if level + 1 < MAX_LEVELS || lv.rest == [] {
        LevelsOnes(p, level + 1, lv.rest);
        LevelRest(p, level, hs, hs[0]);
        var r := BuildLevels(p, level + 1, lv.rest);
        if r.Ok? {
          WordsOnesAppend(lv.bits, r.value.bits);
          assert BuildLevels(p, level, hs) == Join(Built(lv.bits, lv.seeds, [|lv.seeds|]), r);
          assert |hs| == |lv.rest| + WordsOnes(lv.bits);
        }
      }
    }
  }

  /** Counting set bits is monotone in the position, and passes a set bit strictly. */
  lemma {:induction false} CountBeforeMono(bits: seq<U64>, i: nat, j: nat)
    requires i <= j <= 64 * |bits|
    ensures CountBefore(bits, i) <= CountBefore(bits, j)
    ensures i < j && BitAt(bits, i) ==> CountBefore(bits, i) < CountBefore(bits, j)
    decreases j - i
  {
    if i < j {
      CountBeforeMono(bits, i, j - 1);
    }
  }

  /** A set bit has fewer set bits before it than there are in all. */
  lemma CountBeforeSetBit(bits: seq<U64>, i: nat)
    requires i < 64 * |bits| && BitAt(bits, i)
    ensures CountBefore(bits, i) < WordsOnes(bits)
  {
    CountBeforeMono(bits, i, 64 * |bits|);
    CountBeforeAll(bits);
  }

  // ---------------------------------------------------------------------------
  // Pigeonhole

  /** The set of the elements of `v`. */
  function Elements(v: seq<nat>): (e: set<nat>)
    ensures forall x :: x in e <==> x in v
  {
    if v == [] then {} else Elements(v[..|v| - 1]) + {v[|v| - 1]}
  }

  /** The set `0 .. n`. */
  function Below(n: nat): (e: set<nat>)
    ensures forall k: nat :: k in e <==> k < n
  {
    if n == 0 then {} else Below(n - 1) + {n - 1}
  }

  /** The elements of a sequence without repeats are as many as its entries. */
  lemma {:induction false} DistinctCard(v: seq<nat>)
    requires forall i, j :: 0 <= i < j < |v| ==> v[i] != v[j]
    ensures |Elements(v)| == |v|
  {
    if v != [] {
      var init := v[..|v| - 1];
      DistinctCard(init);
      forall i | 0 <= i < |init| ensures init[i] != v[|v| - 1] {
        assert init[i] == v[i];
      }
    }
  }

  /** `0 .. n` has `n` elements. */
  lemma {:induction false} BelowCard(n: nat)
    ensures |Below(n)| == n
  {
    if n > 0 {
      BelowCard(n - 1);
    }
  }

  /** A subset has at most as many elements. */
  lemma {:induction false} SubsetCard(a: set<nat>, b: set<nat>)
    requires a <= b
    ensures |a| <= |b|
    decreases b
  {
    if a != {} {
      var x :| x in a;
      SubsetCard(a - {x}, b - {x});
    }
  }

  /** `n` different values below `n` are all of `0 .. n`. */
  lemma Pigeonhole(v: seq<nat>)
    requires forall i :: 0 <= i < |v| ==> v[i] < |v|
    requires forall i, j :: 0 <= i < j < |v| ==> v[i] != v[j]
    ensures forall k :: 0 <= k < |v| ==> k in v
  {
    DistinctCard(v);
    BelowCard(|v|);
    forall k | 0 <= k < |v| ensures k in v {
      if k !in v {
        SubsetCard(Elements(v), Below(|v|) - {k});
        assert false;
      }
    }
  }

  // ---------------------------------------------------------------------------
  // The theorem

  /** The construction from distinct hashes `hs`, seen from its first level. */
  lemma BuiltFromStart(p: Params, hs: seq<U64>, m: Mphf)
    requires p.gammaDen > 0 && FromHashes(p, hs).Ok? && Holds(m, p.b, FromHashes(p, hs).value)
    ensures Wf(m) && BuiltFrom(p, 0, hs, Built([], [], []), m) && WordsOnes(m.rankedBits.bits) == |hs|
  {
    hide LevelSpec;
    hide BuildLevels;
    hide Join;
    hide WordsOnes;
    hide Valid;
    hide GroupsOk;
    assert ParamsOk(p);
    BuildLevelsWellFormed(p, 0, hs);
    BuildLevelsCount(p, 0, hs);
    LevelsOnes(p, 0, hs);
    JoinEmpty(BuildLevels(p, 0, hs));
    assert m.levelGroups[..0] == [];
  }

  /** The query for a hash `h` of `hs` ranks the set bit it stops at, a position below `|hs|`. */
  lemma GetAt(p: Params, hs: seq<U64>, m: Mphf, h: U64)
    requires Wf(m) && BuiltFrom(p, 0, hs, Built([], [], []), m) && WordsOnes(m.rankedBits.bits) == |hs| < U32_BOUND
    requires h in hs
    ensures FoundAt(m, h, 0, 0).Some?
    ensures GetSpec(m, h) == Some(CountBefore(m.rankedBits.bits, FoundAt(m, h, 0, 0).value))
    ensures GetSpec(m, h).value < |hs|
  {
    hide BuiltFrom;
    hide FoundAt;
    hide Valid;
    assert m.levelGroups[..0] == [];
    FoundOnLevels(p, 0, hs, Built([], [], []), m, h);
    var q := FoundAt(m, h, 0, 0).value;
    RankIsCountBefore(m.rankedBits, q);
    CountBeforeSetBit(m.rankedBits.bits, q);
  }

  /** Two different hashes of `hs` get different answers. */
  lemma GetApart(p: Params, hs: seq<U64>, m: Mphf, h1: U64, h2: U64)
    requires Wf(m) && BuiltFrom(p, 0, hs, Built([], [], []), m) && WordsOnes(m.rankedBits.bits) == |hs| < U32_BOUND
    requires h1 in hs && h2 in hs && h1 != h2
    ensures GetSpec(m, h1) != GetSpec(m, h2)
  {
    hide BuiltFrom;
    hide FoundAt;
    hide Valid;
    hide GetSpec;
    hide CountBefore;
    GetAt(p, hs, m, h1);
    GetAt(p, hs, m, h2);
    assert m.levelGroups[..0] == [];
    FoundApart(p, 0, hs, Built([], [], []), m, h1, h2);
    var q1, q2 := FoundAt(m, h1, 0, 0).value, FoundAt(m, h2, 0, 0).value;
    var bits := m.rankedBits.bits;
    if q1 < q2 {
      CountBeforeMono(bits, q1, q2);
    } else {
      CountBeforeMono(bits, q2, q1);
    }
  }

  /** Some hash of `hs` is answered with position `k`. */
  predicate Answered(m: Mphf, hs: seq<U64>, k: nat)
    requires Wf(m)
  {
    exists i :: 0 <= i < |hs| && GetSpec(m, hs[i]) == Some(k)
  }

  /**
    A function built from distinct hashes answers each of them with a
    different position below their number, and so every position is the
    answer for exactly one of them. (The query's rank is read off counters
    proved exact while the bits hold fewer than 2^32 ones.)
  */
  lemma GetIsBijection(p: Params, hs: seq<U64>, m: Mphf)
    requires p.gammaDen > 0 && FromHashes(p, hs).Ok? && Holds(m, p.b, FromHashes(p, hs).value)
    requires |hs| < U32_BOUND
    ensures Wf(m)
    ensures forall i :: 0 <= i < |hs| ==> GetSpec(m, hs[i]).Some? && GetSpec(m, hs[i]).value < |hs|
    ensures forall i, j :: 0 <= i < |hs| && 0 <= j < |hs| && i != j ==> GetSpec(m, hs[i]) != GetSpec(m, hs[j])
    ensures forall k: nat :: k < |hs| ==> Answered(m, hs, k)
  {
    hide FromHashes;
    hide Holds;
    hide BuiltFrom;
    hide FoundAt;
    hide CountBefore;
    hide Wf;
    hide WordsOnes;
    hide GetSpec;
    FromHashesDistinct(p, hs);
    BuiltFromStart(p, hs, m);
    forall i | 0 <= i < |hs| ensures GetSpec(m, hs[i]).Some? && GetSpec(m, hs[i]).value < |hs| {
      GetAt(p, hs, m, hs[i]);
    }
    forall i, j | 0 <= i < |hs| && 0 <= j < |hs| && i != j ensures GetSpec(m, hs[i]) != GetSpec(m, hs[j]) {
      GetApart(p, hs, m, hs[i], hs[j]);
    }
    var v := seq(|hs|, i requires 0 <= i < |hs| => GetSpec(m, hs[i]).value);
    Pigeonhole(v);
    forall k: nat | k < |hs| ensures Answered(m, hs, k) {
      assert k in v;
      var i :| 0 <= i < |v| && v[i] == k;
      assert GetSpec(m, hs[i]).Some? && v[i] == GetSpec(m, hs[i]).value;
      assert GetSpec(m, hs[i]) == Some(k);
    }
  }

  // ---------------------------------------------------------------------------
  // Equal hashes never build

  /** A value occurring twice has two positions. */
  lemma {:induction false} TwoPositions(s: seq<U64>, x: U64) returns (i: nat, j: nat)
    requires multiset(s)[x] >= 2
    ensures i < j < |s| && s[i] == x && s[j] == x
  {
    var init := s[..|s| - 1];
    assert s == init + [s[|s| - 1]];
    if s[|s| - 1] == x {
      assert x in multiset(init);
      i :| 0 <= i < |init| && init[i] == x;
      j := |s| - 1;
    } else {
      i, j := TwoPositions(init, x);
    }
  }

  /** A value at two positions occurs at least twice. */
  lemma TwoCopies(s: seq<U64>, i: nat, j: nat)
    requires i < j < |s| && s[i] == s[j]
    ensures multiset(s)[s[i]] >= 2
  {
    assert s == s[..j] + [s[j]] + s[j + 1..];
    assert s[i] in multiset(s[..j]) by { assert s[..j][i] == s[i]; }
  }

  /** An unplaced hash goes on to the next level as often as it came. */
  lemma {:induction false} UnplacedKeeps(sh: Shape, bits: seq<U64>, seeds: seq<U16>, hs: seq<U64>, x: U64)
    requires ShapeOk(sh) && |bits| == sh.segments && |seeds| == sh.groups
    requires !Placed(sh, bits, seeds, x)
    ensures multiset(Unplaced(sh, bits, seeds, hs))[x] == multiset(hs)[x]
  {
    if hs != [] {
      var init := hs[..|hs| - 1];
      assert hs == init + [hs[|hs| - 1]];
      UnplacedKeeps(sh, bits, seeds, init, x);
    }
  }

  /** A hash that occurs twice is never placed, so the levels run out. */
  lemma {:induction false} LevelsDuplicateFails(p: Params, level: nat, hs: seq<U64>, x: U64)
    requires ParamsOk(p) && level <= MAX_LEVELS && (level == MAX_LEVELS ==> hs == [])
    requires multiset(hs)[x] >= 2
    ensures BuildLevels(p, level, hs).Err?
    decreases MAX_LEVELS - level
  {
    hide LevelSpec;
    hide Placed;
    hide LevelBits;
    hide Unplaced;
    var lv := LevelSpec(p, level, hs);
    var sh := LevelShape(p, level, |hs|);
    LevelRest(p, level, hs, x);
    var i, j := TwoPositions(hs, x);
    LevelSpecBits(p, level, hs);
    if Placed(sh, lv.bits, lv.seeds, x) {
      PlacedApart(sh, lv.seeds, hs, i, j);
      assert false;
    }
    UnplacedKeeps(sh, lv.bits, lv.seeds, hs, x);
    if level + 1 < MAX_LEVELS {
      LevelsDuplicateFails(p, level + 1, lv.rest, x);
    }
  }

  /** The construction succeeds only on pairwise-distinct hashes. */
  lemma FromHashesDistinct(p: Params, hs: seq<U64>)
    requires p.gammaDen > 0 && FromHashes(p, hs).Ok?
    ensures Distinct(hs)
  {
    hide LevelSpec;
    hide BuildLevels;
    if !Distinct(hs) {
      var i, j :| 0 <= i < j < |hs| && hs[i] == hs[j];
      TwoCopies(hs, i, j);
      LevelsDuplicateFails(p, 0, hs, hs[i]);
    }
  }

  /** Any answer of the query ranks a set bit, and so lies below the number of set bits. */
  lemma GetSpecBound(m: Mphf, h: U64)
    requires Wf(m) && WordsOnes(m.rankedBits.bits) < U32_BOUND
    ensures GetSpec(m, h).Some? ==> GetSpec(m, h).value < WordsOnes(m.rankedBits.bits)
  {
    var found := FoundAt(m, h, 0, 0);
    if found.Some? {
      RankIsCountBefore(m.rankedBits, found.value);
      CountBeforeSetBit(m.rankedBits.bits, found.value);
    }
  }
}
