/**
  The multi-level fingerprinting MPHF (`Mphf<B, S>`). Construction checks
  its parameters, then builds level after level over the hashes the
  previous level left unplaced, concatenating the levels' bits and group
  seeds, until no hash is left; a 32nd level that still leaves hashes is an
  error. A query walks the levels with a running count of the groups
  before the current level and answers the rank of the first set bit it
  lands on.

  The hasher `H` is the function `hashKey`: only the hashes of the keys
  reach the structure.
*/
module Mphf {
  import opened Wrappers
  import opened Bits
  import opened Rank
  import opened MphfHash
  import opened MphfLevel
  import opened MphfBuild

  /** At most this many levels are built. */
  const MAX_LEVELS: nat := 32

  datatype MphfError =
    | MaxLevelsExceeded
    | InvalidBParameter
    | InvalidSParameter
    | InvalidGammaParameter

  /**
    The built function: `B`, the ranked concatenation of all levels' bits,
    the number of groups of every level, and every group's seed, level after
    level.
  */
  datatype Mphf = Mphf(b: nat, rankedBits: RankedBits, levelGroups: seq<nat>, groupSeeds: seq<U16>)

  /** Sum of a sequence of counts. */
  function Sum(s: seq<nat>): nat
  {
    if s == [] then 0 else s[0] + Sum(s[1..])
  }

  lemma {:induction false} SumAppend(a: seq<nat>, b: seq<nat>)
    ensures Sum(a + b) == Sum(a) + Sum(b)
  {
    if a != [] {
      assert (a + b)[0] == a[0] && (a + b)[1..] == a[1..] + b;
      SumAppend(a[1..], b);
    } else {
      assert a + b == b;
    }
  }

  /** A prefix sum grows by the next entry and never exceeds the whole sum. */
  lemma SumPrefix(s: seq<nat>, k: nat)
    requires k < |s|
    ensures Sum(s[..k + 1]) == Sum(s[..k]) + s[k]
    ensures Sum(s[..k + 1]) <= Sum(s)
  {
    assert s[..k + 1] == s[..k] + [s[k]];
    SumAppend(s[..k], [s[k]]);
    assert s == s[..k + 1] + s[k + 1..];
    SumAppend(s[..k + 1], s[k + 1..]);
  }

  // ---------------------------------------------------------------------------
  // Construction, as values

  /** `groups` groups of `B` bits fill whole 64-bit segments. */
  predicate GroupsOk(b: nat, groups: nat)
  {
    1 <= b <= 64 && groups >= 1 && (groups * b) % 64 == 0
  }

  /** The shape of level `level` of `groups` groups. */
  function ShapeAt(b: nat, level: nat, groups: nat): (sh: Shape)
    requires GroupsOk(b, groups) && level < U32_BOUND
    ensures ShapeOk(sh) && sh.b == b && sh.level == level && sh.groups == groups
  {
    DivModUnique(groups * b, 64, groups * b / 64, 0);
    Shape(b, level, groups, groups * b / 64)
  }

  /** The levels' outputs, concatenated. */
  datatype Built = Built(bits: seq<U64>, seeds: seq<U16>, levelGroups: seq<nat>)

  /** The outputs of `prefix` followed by those of `r`, or `r`'s error. */
  function Join(prefix: Built, r: Result<Built, MphfError>): Result<Built, MphfError>
  {
    match r
    case Err(e) => Err(e)
    case Ok(t) => Ok(Built(prefix.bits + t.bits, prefix.seeds + t.seeds, prefix.levelGroups + t.levelGroups))
  }

  /** The outputs joined so far, followed by one more level's words and seeds. */
  function Extend(prefix: Built, bits: seq<U64>, seeds: seq<U16>): Built
  {
    Built(prefix.bits + bits, prefix.seeds + seeds, prefix.levelGroups + [|seeds|])
  }

  /** A concatenation of levels: a seed per group and a bit per slot of every level. */
  predicate BuiltOk(b: nat, t: Built)
  {
    (forall l :: 0 <= l < |t.levelGroups| ==> GroupsOk(b, t.levelGroups[l]))
    && |t.seeds| == Sum(t.levelGroups) && 64 * |t.bits| == b * Sum(t.levelGroups)
  }

  /**
    The `while` loop of `from_slice` from level `level` on, over the hashes
    `hs` still unplaced: build a level, hand its unplaced hashes on, and fail
    when the 32nd level leaves some.
  */
  function BuildLevels(p: Params, level: nat, hs: seq<U64>): (r: Result<Built, MphfError>)
    requires ParamsOk(p) && level <= MAX_LEVELS && (level == MAX_LEVELS ==> hs == [])
    decreases MAX_LEVELS - level
  {
    if hs == [] then Ok(Built([], [], []))
    else
      var lv := LevelSpec(p, level, hs);
      if level + 1 == MAX_LEVELS && lv.rest != [] then Err(MaxLevelsExceeded)
      else
        Join(Built(lv.bits, lv.seeds, [|lv.seeds|]), BuildLevels(p, level + 1, lv.rest))
  }

  /** The loop fails only when the 32nd level leaves hashes unplaced. */
  lemma {:induction false} BuildLevelsError(p: Params, level: nat, hs: seq<U64>)
    requires ParamsOk(p) && level <= MAX_LEVELS && (level == MAX_LEVELS ==> hs == [])
    ensures BuildLevels(p, level, hs).Err? ==> BuildLevels(p, level, hs).error == MaxLevelsExceeded
    decreases MAX_LEVELS - level
  {
    hide LevelSpec;
    hide ParamsOk;
    if hs != [] {
      var lv := LevelSpec(p, level, hs);
      if level + 1 < MAX_LEVELS || lv.rest == [] {
        BuildLevelsError(p, level + 1, lv.rest);
      }
    }
  }

  /** The loop builds at most 32 levels, and none exactly when no hash is left. */
  lemma {:induction false} BuildLevelsCount(p: Params, level: nat, hs: seq<U64>)
    requires ParamsOk(p) && level <= MAX_LEVELS && (level == MAX_LEVELS ==> hs == [])
    ensures var r := BuildLevels(p, level, hs);
      r.Ok? ==> level + |r.value.levelGroups| <= MAX_LEVELS && (hs == [] <==> r.value.levelGroups == [])
    decreases MAX_LEVELS - level
  {
    hide LevelSpec;
    if hs != [] {
      var lv := LevelSpec(p, level, hs);
      if level + 1 < MAX_LEVELS || lv.rest == [] {
        BuildLevelsCount(p, level + 1, lv.rest);
      }
    }
  }

  /** The loop concatenates well-formed levels. */
  lemma {:induction false} BuildLevelsWellFormed(p: Params, level: nat, hs: seq<U64>)
    requires ParamsOk(p) && level <= MAX_LEVELS && (level == MAX_LEVELS ==> hs == [])
    ensures var r := BuildLevels(p, level, hs); r.Ok? ==> BuiltOk(p.b, r.value)
    decreases MAX_LEVELS - level
  {
    hide LevelSpec;
    if hs != [] {
      var lv := LevelSpec(p, level, hs);
      if level + 1 < MAX_LEVELS || lv.rest == [] {
        BuildLevelsWellFormed(p, level + 1, lv.rest);
        LevelOutputOk(p, level, hs);
        JoinOk(p.b, Built(lv.bits, lv.seeds, [|lv.seeds|]), BuildLevels(p, level + 1, lv.rest));
      }
    }
  }

  /** One level's output is a well-formed concatenation of one level. */
  lemma LevelOutputOk(p: Params, level: nat, hs: seq<U64>)
    requires ParamsOk(p) && level < U32_BOUND && hs != []
    ensures var lv := LevelSpec(p, level, hs);
      BuiltOk(p.b, Built(lv.bits, lv.seeds, [|lv.seeds|]))
  {
    hide LevelSpec;
    var lv := LevelSpec(p, level, hs);
    OneLevelOk(LevelShape(p, level, |hs|), lv.bits, lv.seeds);
  }

  /** A level of whole segments with a seed per group is a well-formed concatenation of one level. */
  lemma OneLevelOk(sh: Shape, bits: seq<U64>, seeds: seq<U16>)
    requires ShapeOk(sh) && |bits| == sh.segments && |seeds| == sh.groups
    ensures BuiltOk(sh.b, Built(bits, seeds, [|seeds|]))
  {
    DivModUnique(sh.groups * sh.b, 64, sh.segments, 0);
    assert [|seeds|][1..] == [];
  }

  /** Concatenating well-formed level outputs is well formed. */
  lemma JoinOk(b: nat, prefix: Built, r: Result<Built, MphfError>)
    requires BuiltOk(b, prefix) && (r.Ok? ==> BuiltOk(b, r.value))
    ensures Join(prefix, r).Ok? ==> BuiltOk(b, Join(prefix, r).value)
  {
    hide Sum;
    hide GroupsOk;
    if r.Ok? {
      var t := r.value;
      var gs := prefix.levelGroups + t.levelGroups;
      SumAppend(prefix.levelGroups, t.levelGroups);
      var sp, st := Sum(prefix.levelGroups), Sum(t.levelGroups);
      assert 64 * |prefix.bits + t.bits| == b * (sp + st) by {
        assert b * (sp + st) == b * sp + b * st;
      }
      forall l | 0 <= l < |gs|
        ensures GroupsOk(b, gs[l])
      {
        if l >= |prefix.levelGroups| {
          assert gs[l] == t.levelGroups[l - |prefix.levelGroups|];
        }
      }
    }
  }

  /** Joining nothing in front changes nothing. */
  lemma JoinEmpty(r: Result<Built, MphfError>)
    ensures Join(Built([], [], []), r) == r
  {
    if r.Ok? {
      assert [] + r.value.bits == r.value.bits && [] + r.value.seeds == r.value.seeds;
      assert [] + r.value.levelGroups == r.value.levelGroups;
    }
  }

  /** Joining is associative: two prefixes can be joined first. */
  lemma JoinJoin(a: Built, b: Built, r: Result<Built, MphfError>)
    ensures Join(a, Join(b, r)) == Join(Built(a.bits + b.bits, a.seeds + b.seeds, a.levelGroups + b.levelGroups), r)
  {
    if r.Ok? {
      assert a.bits + (b.bits + r.value.bits) == (a.bits + b.bits) + r.value.bits;
      assert a.seeds + (b.seeds + r.value.seeds) == (a.seeds + b.seeds) + r.value.seeds;
      assert a.levelGroups + (b.levelGroups + r.value.levelGroups) == (a.levelGroups + b.levelGroups) + r.value.levelGroups;
    }
  }

  /** One turn of the loop: the level built from `hs` joins the prefix, and its unplaced hashes go on. */
  lemma BuildLevelsStep(p: Params, level: nat, hs: seq<U64>, lv: Level, prefix: Built)
    requires ParamsOk(p) && level < MAX_LEVELS && hs != [] && lv == LevelSpec(p, level, hs)
    requires level + 1 < MAX_LEVELS || lv.rest == []
    ensures Join(prefix, BuildLevels(p, level, hs))
      == Join(Extend(prefix, lv.bits, lv.seeds), BuildLevels(p, level + 1, lv.rest))
  {
    hide LevelSpec;
    JoinJoin(prefix, Built(lv.bits, lv.seeds, [|lv.seeds|]), BuildLevels(p, level + 1, lv.rest));
  }

  /** The 32nd level leaving hashes unplaced fails the whole construction. */
  lemma BuildLevelsFails(p: Params, level: nat, hs: seq<U64>, lv: Level, prefix: Built)
    requires ParamsOk(p) && level + 1 == MAX_LEVELS && hs != [] && lv == LevelSpec(p, level, hs) && lv.rest != []
    ensures Join(prefix, BuildLevels(p, level, hs)) == Err(MaxLevelsExceeded)
  {
    hide LevelSpec;
  }

  /** No hash left: no level is built. */
  lemma BuildLevelsNone(p: Params, level: nat)
    requires ParamsOk(p) && level <= MAX_LEVELS
    ensures BuildLevels(p, level, []) == Ok(Built([], [], []))
  {
  }

  /** Nothing left to build: the prefix is the whole output. */
  lemma JoinDone(prefix: Built)
    ensures Join(prefix, Ok(Built([], [], []))) == Ok(prefix)
  {
    assert prefix.bits + [] == prefix.bits && prefix.seeds + [] == prefix.seeds;
    assert prefix.levelGroups + [] == prefix.levelGroups;
  }

  /** The hashes of the keys, in order. */
  function HashKeys<K>(keys: seq<K>, hashKey: K -> U64): (hs: seq<U64>)
    ensures |hs| == |keys| && forall i :: 0 <= i < |keys| ==> hs[i] == hashKey(keys[i])
  {
    seq(|keys|, i requires 0 <= i < |keys| => hashKey(keys[i]))
  }

  /**
    `from_slice(keys, gamma)` over the keys' hashes: the parameter checks in
    their order, then the levels.
  */
  function FromHashes(p: Params, hs: seq<U64>): (r: Result<Built, MphfError>)
    requires p.gammaDen > 0
  {
    if p.b < 1 || p.b > 64 then Err(InvalidBParameter)
    else if p.s > 15 then Err(InvalidSParameter)
    else if p.gammaNum < p.gammaDen then Err(InvalidGammaParameter)
    else BuildLevels(p, 0, hs)
  }

  /**
    The errors of `from_slice`, in the order it checks them: `B` out of
    `1 ..= 64`, then `S` above 15, then `gamma` below 1; with valid
    parameters the only failure is running out of levels, and no key at all
    never fails.
  */
  lemma FromHashesErrors(p: Params, hs: seq<U64>)
    requires p.gammaDen > 0
    ensures var r := FromHashes(p, hs);
      (r == Err(InvalidBParameter) <==> p.b < 1 || p.b > 64)
      && (r == Err(InvalidSParameter) <==> 1 <= p.b <= 64 && p.s > 15)
      && (r == Err(InvalidGammaParameter) <==> 1 <= p.b <= 64 && p.s <= 15 && p.gammaNum < p.gammaDen)
      && (r == Err(MaxLevelsExceeded) <==> ParamsOk(p) && r.Err?)
      && (hs == [] && ParamsOk(p) ==> r.Ok?)
  {
    hide LevelSpec;
    if ParamsOk(p) {
      BuildLevelsError(p, 0, hs);
    }
  }

  /** `m` holds the built levels: the ranked bits over their bits, their groups and seeds. */
  predicate Holds(m: Mphf, b: nat, t: Built)
  {
    m.b == b && Valid(m.rankedBits) && m.rankedBits.bits == t.bits
    && m.levelGroups == t.levelGroups && m.groupSeeds == t.seeds
  }

  /**
    `Mphf::from_slice(keys, gamma)`: checks `B`, then `S`, then `gamma`,
    hashes the keys, and builds levels until every hash is placed, failing
    when 32 levels leave hashes unplaced.
  */
  method FromSlice<K>(keys: seq<K>, hashKey: K -> U64, p: Params) returns (r: Result<Mphf, MphfError>)
    requires p.gammaDen > 0
    ensures var spec := FromHashes(p, HashKeys(keys, hashKey));
      (r.Err? <==> spec.Err?)
      && (r.Err? ==> r.error == spec.error)
      && (r.Ok? ==> Holds(r.value, p.b, spec.value) && Wf(r.value))
  {
    hide LevelSpec;
    if p.b < 1 || p.b > 64 {
      return Err(InvalidBParameter);
    }
    if p.s > 15 {
      return Err(InvalidSParameter);
    }
    if p.gammaNum < p.gammaDen {
      return Err(InvalidGammaParameter);
    }
    var hashes := HashKeys(keys, hashKey);
    var built := Levels(p, hashes);
    if built.Err? {
      return Err(built.error);
    }
    BuildLevelsWellFormed(p, 0, hashes);
    BuildLevelsCount(p, 0, hashes);
    var rb := New(built.value.bits);
    r := Ok(Mphf(p.b, rb, built.value.levelGroups, built.value.seeds));
  }

  /** The `while` loop of `from_slice`: levels are built until no hash is left, at most 32 of them. */
  method Levels(p: Params, hs: seq<U64>) returns (r: Result<Built, MphfError>)
    requires ParamsOk(p)
    ensures r == BuildLevels(p, 0, hs)
  {
    hide LevelSpec;
    hide BuildLevels;
    hide Join;
    var hashes := hs;
    var groupBits: seq<U64> := [];
    var groupSeeds: seq<U16> := [];
    var levelGroups: seq<nat> := [];
    ghost var done: nat := 0;
    ghost var prefix := Built([], [], []);
    JoinEmpty(BuildLevels(p, 0, hs));
    while hashes != []
      invariant done == |levelGroups| <= MAX_LEVELS && (done == MAX_LEVELS ==> hashes == [])
      invariant prefix == Built(groupBits, groupSeeds, levelGroups)
      invariant BuildLevels(p, 0, hs) == Join(prefix, BuildLevels(p, done, hashes))
      decreases MAX_LEVELS - done
    {
      var level := |levelGroups|;
      var lv := BuildLevel(p, level, hashes);
      LevelsStep(p, hs, prefix, done, hashes, lv);
      groupBits := groupBits + lv.bits;
      groupSeeds := groupSeeds + lv.seeds;
      levelGroups := levelGroups + [|lv.seeds|];
      hashes := lv.rest;
      prefix := Extend(prefix, lv.bits, lv.seeds);
      done := done + 1;
      if |levelGroups| == MAX_LEVELS && hashes != [] {
        return Err(MaxLevelsExceeded);
      }
    }
    BuildLevelsNone(p, done);
    JoinDone(prefix);
    r := Ok(Built(groupBits, groupSeeds, levelGroups));
  }

  /** One turn of the loop of `from_slice`, on the outputs joined so far. */
  lemma LevelsStep(p: Params, all: seq<U64>, prefix: Built, level: nat, hs: seq<U64>, lv: Level)
    requires ParamsOk(p) && level < MAX_LEVELS && hs != [] && lv == LevelSpec(p, level, hs)
    requires BuildLevels(p, 0, all) == Join(prefix, BuildLevels(p, level, hs))
    ensures if level + 1 == MAX_LEVELS && lv.rest != [] then BuildLevels(p, 0, all) == Err(MaxLevelsExceeded)
      else BuildLevels(p, 0, all) == Join(Extend(prefix, lv.bits, lv.seeds), BuildLevels(p, level + 1, lv.rest))
  {
    hide LevelSpec;
    if level + 1 == MAX_LEVELS && lv.rest != [] {
      BuildLevelsFails(p, level, hs, lv, prefix);
    } else {
      BuildLevelsStep(p, level, hs, lv, prefix);
    }
  }

  // ---------------------------------------------------------------------------
  // Query

  /** A built MPHF: `B` in range, at most 32 levels of whole segments, a seed per group, ranked bits for every slot. */
  predicate Wf(m: Mphf)
  {
    1 <= m.b <= 64 && |m.levelGroups| <= MAX_LEVELS && Valid(m.rankedBits)
    && BuiltOk(m.b, Built(m.rankedBits.bits, m.groupSeeds, m.levelGroups))
  }

  /** The global bit of `h` on level `level`, whose groups start at group `groupsBefore`. */
  function LevelBitIndex(m: Mphf, h: U64, level: nat, groupsBefore: nat): (idx: nat)
    requires Wf(m) && level < |m.levelGroups| && groupsBefore == Sum(m.levelGroups[..level])
    ensures idx < 64 * |m.rankedBits.bits|
  {
    var sh := ShapeAt(m.b, level, m.levelGroups[level]);
    var groupIdx := groupsBefore + GroupIndex(sh, h);
    SumPrefix(m.levelGroups, level);
    var idx := BitIndexForSeed(m.b, HashWithSeed(h, level), m.groupSeeds[groupIdx], groupIdx);
    GroupBitBound(m.b, groupIdx, Sum(m.levelGroups), idx);
    idx
  }

  /** The global bit of `h` on a level, computed as `get` does. */
  lemma LevelBitIndexIs(m: Mphf, h: U64, level: nat, groupsBefore: nat, groupIdx: nat)
    requires Wf(m) && level < |m.levelGroups| && groupsBefore == Sum(m.levelGroups[..level])
    requires groupIdx == groupsBefore + FastMod32(HashWithSeed(h, level) % U32_BOUND, m.levelGroups[level] % U32_BOUND)
    ensures groupIdx < |m.groupSeeds|
    ensures LevelBitIndex(m, h, level, groupsBefore) == BitIndexForSeed(m.b, HashWithSeed(h, level), m.groupSeeds[groupIdx], groupIdx)
  {
    hide HashWithSeed;
    hide BitIndexForSeed;
    hide FastMod32;
    hide Valid;
    assert groupIdx == groupsBefore + GroupIndex(ShapeAt(m.b, level, m.levelGroups[level]), h);
    SumPrefix(m.levelGroups, level);
  }

  /** A bit of group `g` of `total` groups of `b` bits lies below `total * b`. */
  lemma GroupBitBound(b: nat, g: nat, total: nat, idx: nat)
    requires g < total && idx < g * b + b
    ensures idx < b * total
  {
    MulMonotone(g + 1, total, b);
    assert (g + 1) * b == g * b + b;
  }

  /**
    The global bit the query for `h` stops at, from level `level` on: the
    first level whose bit for `h` is set, if any.
  */
  function FoundAt(m: Mphf, h: U64, level: nat, groupsBefore: nat): (r: Option<nat>)
    requires Wf(m) && level <= |m.levelGroups| && groupsBefore == Sum(m.levelGroups[..level])
    ensures r.Some? ==> r.value < 64 * |m.rankedBits.bits| && BitAt(m.rankedBits.bits, r.value)
    decreases |m.levelGroups| - level
  {
    if level == |m.levelGroups| then None
    else
      var idx := LevelBitIndex(m, h, level, groupsBefore);
      if BitAt(m.rankedBits.bits, idx) then Some(idx)
      else
        SumPrefix(m.levelGroups, level);
        FoundAt(m, h, level + 1, groupsBefore + m.levelGroups[level])
  }

  /** `get(key)` for a key hashing to `h`: the rank of the bit the query stops at. */
  function GetSpec(m: Mphf, h: U64): Option<nat>
    requires Wf(m)
  {
    var found := FoundAt(m, h, 0, 0);
    if found.None? then None else Rank.Rank(m.rankedBits, found.value)
  }

  /**
    `get(key)`: walks the levels keeping the number of groups before the
    current one, and answers the rank of the first set bit the key's hash
    lands on.
  */
  method Get<K>(m: Mphf, hashKey: K -> U64, key: K) returns (r: Option<nat>)
    requires Wf(m)
    ensures r == GetSpec(m, hashKey(key))
  {
    hide HashWithSeed;
    hide BitIndexForSeed;
    hide FastMod32;
    hide LevelBitIndex;
    hide Rank.Rank;
    hide Valid;
    var groupsBefore := 0;
    var level := 0;
    while level < |m.levelGroups|
      invariant level <= |m.levelGroups| && groupsBefore == Sum(m.levelGroups[..level])
      invariant FoundAt(m, hashKey(key), 0, 0) == FoundAt(m, hashKey(key), level, groupsBefore)
      decreases |m.levelGroups| - level
    {
      SumPrefix(m.levelGroups, level);
      var groups := m.levelGroups[level];
      var levelHash := HashWithSeed(hashKey(key), level);
      var groupIdx := groupsBefore + FastMod32(levelHash % U32_BOUND, groups % U32_BOUND);
      LevelBitIndexIs(m, hashKey(key), level, groupsBefore, groupIdx);
      var groupSeed := m.groupSeeds[groupIdx];
      var bitIdx := BitIndexForSeed(m.b, levelHash, groupSeed, groupIdx);
      if BitAt(m.rankedBits.bits, bitIdx) {
        return Rank.Rank(m.rankedBits, bitIdx);
      }
      groupsBefore := groupsBefore + groups;
      level := level + 1;
    }
    return None;
  }
}
