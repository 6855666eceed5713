/**
  `MapWithDict<K, V>`: an immutable map on top of the MPHF. Construction
  stores every distinct value once in `valuesDict`, in the order values
  first occur, and points each key at its value through `valuesIndex`;
  it then builds the MPHF over the keys and permutes `keys` and
  `valuesIndex` together until every key sits at the position the MPHF
  answers for it. A lookup asks the MPHF for a position and answers only
  when the key stored there is the key asked for.

  The hasher is the function `hashKey` handed to every operation; the
  std `HashMap` offsets cache is a Dafny `map`.
*/
module MapWithDict {
  import opened Wrappers
  import opened Bits
  import opened MphfBuild
  import opened MphfPlacement
  import Rank
  import Mphf
  import MphfBijection

  /** `B` and `S` of the MPHF under the maps. */
  const DEFAULT_B: nat := 32
  const DEFAULT_S: nat := 8

  datatype MapWithDict<K, V> = MapWithDict(mphf: Mphf.Mphf, keys: seq<K>, valuesIndex: seq<nat>, valuesDict: seq<V>)

  /** The keys of a sequence of pairs, in order. */
  function KeysOf<K, V>(pairs: seq<(K, V)>): (ks: seq<K>)
    ensures |ks| == |pairs| && forall i :: 0 <= i < |pairs| ==> ks[i] == pairs[i].0
  {
    seq(|pairs|, i requires 0 <= i < |pairs| => pairs[i].0)
  }

  /** The values of a sequence of pairs, in order. */
  function ValuesOf<K, V>(pairs: seq<(K, V)>): (vs: seq<V>)
    ensures |vs| == |pairs| && forall i :: 0 <= i < |pairs| ==> vs[i] == pairs[i].1
  {
    seq(|pairs|, i requires 0 <= i < |pairs| => pairs[i].1)
  }

  // ---------------------------------------------------------------------------
  // The invariant of a built map

  /**
    A built map: a well-formed MPHF whose bits hold one set bit per key,
    fewer than 2^32 keys, a dictionary entry for every index, and every key
    at the position the MPHF answers for it.
  */
  predicate Valid<K(==), V>(mp: MapWithDict<K, V>, hashKey: K -> U64)
  {
    Mphf.Wf(mp.mphf) && |mp.keys| < U32_BOUND
    && Rank.WordsOnes(mp.mphf.rankedBits.bits) == |mp.keys|
    && |mp.valuesIndex| == |mp.keys|
    && (forall j :: 0 <= j < |mp.valuesIndex| ==> mp.valuesIndex[j] < |mp.valuesDict|)
    && (forall j :: 0 <= j < |mp.keys| ==> Mphf.GetSpec(mp.mphf, hashKey(mp.keys[j])) == Some(j))
  }

  /** The keys of a built map are pairwise distinct. */
  lemma ValidKeysDistinct<K, V>(mp: MapWithDict<K, V>, hashKey: K -> U64)
    requires Valid(mp, hashKey)
    ensures Distinct(mp.keys)
  {
    forall i, j | 0 <= i < j < |mp.keys| ensures mp.keys[i] != mp.keys[j] {
      assert Mphf.GetSpec(mp.mphf, hashKey(mp.keys[i])) == Some(i);
      assert Mphf.GetSpec(mp.mphf, hashKey(mp.keys[j])) == Some(j);
    }
  }

  /** Pair `kv` is stored: some key slot holds its key, paired with its value. */
  predicate Stores<K(==), V(==)>(mp: MapWithDict<K, V>, kv: (K, V))
  {
    exists j :: 0 <= j < |mp.keys| && j < |mp.valuesIndex| && mp.valuesIndex[j] < |mp.valuesDict|
      && mp.keys[j] == kv.0 && mp.valuesDict[mp.valuesIndex[j]] == kv.1
  }

  /** `mp` holds exactly the pairs `pairs`: one slot per pair, each slot an input pair, each input pair in a slot. */
  predicate Represents<K(==), V(==)>(mp: MapWithDict<K, V>, pairs: seq<(K, V)>)
  {
    |mp.keys| == |pairs| && |mp.valuesIndex| == |mp.keys|
    && (forall j :: 0 <= j < |mp.valuesIndex| ==> mp.valuesIndex[j] < |mp.valuesDict|)
    && (forall j :: 0 <= j < |mp.keys| ==> (mp.keys[j], mp.valuesDict[mp.valuesIndex[j]]) in pairs)
    && (forall i :: 0 <= i < |pairs| ==> Stores(mp, pairs[i]))
  }

  // ---------------------------------------------------------------------------
  // Lookups

  /** `get(key)`: the value of `key` when the slot the MPHF answers holds `key`, else `None`. */
  function Get<K(==), V>(mp: MapWithDict<K, V>, hashKey: K -> U64, key: K): (r: Option<V>)
    requires Valid(mp, hashKey)
    ensures r.Some? <==> key in mp.keys
    ensures forall j :: 0 <= j < |mp.keys| && mp.keys[j] == key ==> r == Some(mp.valuesDict[mp.valuesIndex[j]])
  {
    MphfBijection.GetSpecBound(mp.mphf, hashKey(key));
    var idx := Mphf.GetSpec(mp.mphf, hashKey(key));
    if idx.None? then None
    else if mp.keys[idx.value] != key then None
    else Some(mp.valuesDict[mp.valuesIndex[idx.value]])
  }

  /** `contains_key(key)`: whether the slot the MPHF answers holds `key`. */
  function ContainsKey<K(==), V>(mp: MapWithDict<K, V>, hashKey: K -> U64, key: K): (r: bool)
    requires Valid(mp, hashKey)
    ensures r <==> key in mp.keys
    ensures r == Get(mp, hashKey, key).Some?
  {
    MphfBijection.GetSpecBound(mp.mphf, hashKey(key));
    match Mphf.GetSpec(mp.mphf, hashKey(key))
    case Some(idx) => mp.keys[idx] == key
    case None => false
  }

  /** `len()`: the number of keys. */
  function Len<K, V>(mp: MapWithDict<K, V>): nat
  {
    |mp.keys|
  }

  /** `is_empty()`: no key at all. */
  function IsEmpty<K, V>(mp: MapWithDict<K, V>): bool
  {
    |mp.keys| == 0
  }

  /** `iter()`: every key with its value, in slot order. */
  function Iter<K, V>(mp: MapWithDict<K, V>): seq<(K, V)>
    requires |mp.valuesIndex| == |mp.keys| && forall j :: 0 <= j < |mp.valuesIndex| ==> mp.valuesIndex[j] < |mp.valuesDict|
  {
    seq(|mp.keys|, j requires 0 <= j < |mp.keys| => (mp.keys[j], mp.valuesDict[mp.valuesIndex[j]]))
  }

  /** `keys()`: the keys, in slot order. */
  function Keys<K, V>(mp: MapWithDict<K, V>): seq<K>
  {
    mp.keys
  }

  /** `values()`: the value of every slot, in slot order. */
  function Values<K, V>(mp: MapWithDict<K, V>): seq<V>
    requires forall j :: 0 <= j < |mp.valuesIndex| ==> mp.valuesIndex[j] < |mp.valuesDict|
  {
    seq(|mp.valuesIndex|, j requires 0 <= j < |mp.valuesIndex| => mp.valuesDict[mp.valuesIndex[j]])
  }

  /**
    On a map built from `pairs`, `get(k)` answers `Some(v)` exactly for the
    input pairs `(k, v)`, and `None` for every key that was not an input key.
  */
  lemma GetBuilt<K, V>(mp: MapWithDict<K, V>, hashKey: K -> U64, pairs: seq<(K, V)>, key: K, v: V)
    requires Valid(mp, hashKey) && Represents(mp, pairs)
    ensures Get(mp, hashKey, key) == Some(v) <==> (key, v) in pairs
    ensures Get(mp, hashKey, key).None? <==> key !in KeysOf(pairs)
    ensures ContainsKey(mp, hashKey, key) <==> key in KeysOf(pairs)
  {
    if (key, v) in pairs {
      var i :| 0 <= i < |pairs| && pairs[i] == (key, v);
      assert Stores(mp, pairs[i]);
    }
    if Get(mp, hashKey, key) == Some(v) {
      var j :| 0 <= j < |mp.keys| && mp.keys[j] == key;
      assert (mp.keys[j], mp.valuesDict[mp.valuesIndex[j]]) in pairs;
    }
    if key in KeysOf(pairs) {
      var i :| 0 <= i < |pairs| && pairs[i].0 == key;
      assert Stores(mp, pairs[i]);
    }
    if key in mp.keys {
      var j :| 0 <= j < |mp.keys| && mp.keys[j] == key;
      var i :| 0 <= i < |pairs| && pairs[i] == (mp.keys[j], mp.valuesDict[mp.valuesIndex[j]]);
      assert KeysOf(pairs)[i] == key;
    }
  }

  /** A map built from `pairs` has `|pairs|` entries, and is empty exactly when `pairs` is. */
  lemma LenBuilt<K, V>(mp: MapWithDict<K, V>, pairs: seq<(K, V)>)
    requires Represents(mp, pairs)
    ensures Len(mp) == |pairs|
    ensures IsEmpty(mp) <==> Len(mp) == 0
    ensures IsEmpty(mp) <==> pairs == []
  {
  }

  /**
    On a map built from `pairs`, `iter()` yields every slot's key with its
    value, each an input pair, and every input pair among them; `keys()`
    and `values()` yield only input keys and input values.
  */
  lemma IterBuilt<K, V>(mp: MapWithDict<K, V>, pairs: seq<(K, V)>)
    requires Represents(mp, pairs)
    ensures |Iter(mp)| == |mp.keys|
    ensures forall j :: 0 <= j < |Iter(mp)| ==> Iter(mp)[j] == (mp.keys[j], mp.valuesDict[mp.valuesIndex[j]])
    ensures forall kv :: kv in Iter(mp) <==> kv in pairs
    ensures forall k :: k in Keys(mp) ==> k in KeysOf(pairs)
    ensures forall v :: v in Values(mp) ==> v in ValuesOf(pairs)
  {
    var it := Iter(mp);
    forall kv | kv in pairs ensures kv in it {
      var i :| 0 <= i < |pairs| && pairs[i] == kv;
      assert Stores(mp, pairs[i]);
      var j :| 0 <= j < |mp.keys| && mp.keys[j] == kv.0 && mp.valuesDict[mp.valuesIndex[j]] == kv.1;
      assert it[j] == kv;
    }
    forall k | k in Keys(mp) ensures k in KeysOf(pairs) {
      var j :| 0 <= j < |mp.keys| && mp.keys[j] == k;
      var i :| 0 <= i < |pairs| && pairs[i] == (mp.keys[j], mp.valuesDict[mp.valuesIndex[j]]);
      assert KeysOf(pairs)[i] == k;
    }
    forall v | v in Values(mp) ensures v in ValuesOf(pairs) {
      var j :| 0 <= j < |mp.valuesIndex| && Values(mp)[j] == v;
      var i :| 0 <= i < |pairs| && pairs[i] == (mp.keys[j], mp.valuesDict[mp.valuesIndex[j]]);
      assert ValuesOf(pairs)[i] == v;
    }
  }

  // ---------------------------------------------------------------------------
  // Deduplicating the values

  /** The first position of `x` in `s`. */
  function FirstIndex<T(==)>(s: seq<T>, x: T): (r: nat)
    requires x in s
    ensures r < |s| && s[r] == x && x !in s[..r]
  {
    if s[0] == x then 0
    else
      var r := 1 + FirstIndex(s[1..], x);
      assert s[..r] == [s[0]] + s[1..][..r - 1];
      r
  }

  /**
    `dict` holds every value of `vs` once, ordered by where each value first
    occurs in `vs`.
  */
  predicate FirstOccurrences<T(==)>(dict: seq<T>, vs: seq<T>)
  {
    Distinct(dict)
    && (forall a :: 0 <= a < |dict| ==> dict[a] in vs)
    && (forall i :: 0 <= i < |vs| ==> vs[i] in dict)
    && (forall a, b :: 0 <= a < b < |dict| ==> dict[a] in vs && dict[b] in vs && FirstIndex(vs, dict[a]) < FirstIndex(vs, dict[b]))
  }

  /** A position holding `x` with no `x` before it is the first position of `x`. */
  lemma FirstIndexUnique<T>(s: seq<T>, x: T, r: nat)
    requires r < |s| && s[r] == x && x !in s[..r]
    ensures FirstIndex(s, x) == r
  {
  }

  /** Appending to a sequence keeps the first position of every value already in it. */
  lemma FirstIndexAppend<T>(u: seq<T>, v: T, x: T)
    requires x in u
    ensures x in u + [v] && FirstIndex(u + [v], x) == FirstIndex(u, x)
  {
    var r := FirstIndex(u, x);
    assert (u + [v])[..r] == u[..r];
    FirstIndexUnique(u + [v], x, r);
  }

  /**
    Reading one more value `v`: a value already seen leaves the dictionary
    as it is, a new value goes at its end.
  */
  lemma FirstOccurrencesStep<T>(dict: seq<T>, u: seq<T>, v: T)
    requires FirstOccurrences(dict, u)
    ensures v in dict ==> FirstOccurrences(dict, u + [v])
    ensures v !in dict ==> FirstOccurrences(dict + [v], u + [v])
  {
    FirstIndexesKept(dict, u, v);
    if v !in dict {
      FirstOccurrencesNew(dict, u, v);
    }
  }

  /** Every dictionary value keeps its first position when `v` is read. */
  lemma FirstIndexesKept<T>(dict: seq<T>, u: seq<T>, v: T)
    requires forall a :: 0 <= a < |dict| ==> dict[a] in u
    ensures forall a :: 0 <= a < |dict| ==> dict[a] in u + [v] && FirstIndex(u + [v], dict[a]) == FirstIndex(u, dict[a])
  {
    forall a | 0 <= a < |dict| ensures dict[a] in u + [v] && FirstIndex(u + [v], dict[a]) == FirstIndex(u, dict[a]) {
      FirstIndexAppend(u, v, dict[a]);
    }
  }

  /** A value not seen before goes at the end: its first position is after every earlier one. */
  lemma FirstOccurrencesNew<T>(dict: seq<T>, u: seq<T>, v: T)
    requires FirstOccurrences(dict, u) && v !in dict
    requires forall a :: 0 <= a < |dict| ==> dict[a] in u + [v] && FirstIndex(u + [v], dict[a]) == FirstIndex(u, dict[a])
    ensures FirstOccurrences(dict + [v], u + [v])
  {
    hide FirstIndex;
    var u' := u + [v];
    var d' := dict + [v];
    assert v !in u;
    assert u'[..|u|] == u;
    FirstIndexUnique(u', v, |u|);
    forall i, j | 0 <= i < j < |d'| ensures d'[i] != d'[j] {
      assert d'[i] == dict[i];
    }
    forall a | 0 <= a < |d'| ensures d'[a] in u' {
      if a < |dict| {
        assert d'[a] == dict[a];
      }
    }
    forall i | 0 <= i < |u'| ensures u'[i] in d' {
      if i < |u| {
        assert u'[i] == u[i];
      }
    }
    forall a, b | 0 <= a < b < |d'|
      ensures d'[a] in u' && d'[b] in u' && FirstIndex(u', d'[a]) < FirstIndex(u', d'[b])
    {
      assert d'[a] == dict[a];
      if b < |dict| {
        assert d'[b] == dict[b];
      }
    }
  }

  /** The loop invariant of `Collect` after `i` pairs, apart from the offsets cache. */
  ghost predicate Collected<K, V>(pairs: seq<(K, V)>, i: nat, keys: seq<K>, valuesIndex: seq<nat>, valuesDict: seq<V>)
  {
    i <= |pairs| && keys == KeysOf(pairs)[..i]
    && |valuesIndex| == i && |valuesDict| <= i
    && (forall j :: 0 <= j < i ==> valuesIndex[j] < |valuesDict| && valuesDict[valuesIndex[j]] == pairs[j].1)
    && FirstOccurrences(valuesDict, ValuesOf(pairs)[..i])
  }

  /**
    One round of `Collect` keeps its invariant: a value seen before is
    pointed at its offset `o`, a new value is appended and pointed at.
  */
  lemma CollectStep<K, V>(pairs: seq<(K, V)>, i: nat, keys: seq<K>, valuesIndex: seq<nat>, valuesDict: seq<V>, o: nat)
    requires Collected(pairs, i, keys, valuesIndex, valuesDict) && i < |pairs|
    ensures var (k, v) := pairs[i];
      o < |valuesDict| && valuesDict[o] == v ==> Collected(pairs, i + 1, keys + [k], valuesIndex + [o], valuesDict)
    ensures var (k, v) := pairs[i];
      v !in valuesDict ==> Collected(pairs, i + 1, keys + [k], valuesIndex + [|valuesDict|], valuesDict + [v])
  {
    var (k, v) := pairs[i];
    var vs := ValuesOf(pairs);
    assert vs[..i + 1] == vs[..i] + [v];
    assert KeysOf(pairs)[..i + 1] == KeysOf(pairs)[..i] + [k];
    FirstOccurrencesStep(valuesDict, vs[..i], v);
  }

  /** The offsets cache maps exactly the stored values, each to its offset in the dictionary. */
  ghost predicate Caches<V>(cache: map<V, nat>, dict: seq<V>)
  {
    cache.Keys == (set x | x in dict)
    && forall a :: 0 <= a < |dict| ==> cache[dict[a]] == a
  }

  /** A cache hit is a stored value, and the cache gives its offset. */
  lemma CacheLookup<V>(cache: map<V, nat>, dict: seq<V>, v: V)
    requires Caches(cache, dict)
    ensures v in cache <==> v in dict
    ensures v in cache ==> cache[v] < |dict| && dict[cache[v]] == v
  {
    if v in dict {
      var a :| 0 <= a < |dict| && dict[a] == v;
    }
  }

  /** Storing a new value at the end of the dictionary and caching its offset keeps the cache exact. */
  lemma CacheInsert<V>(cache: map<V, nat>, dict: seq<V>, v: V)
    requires Caches(cache, dict) && v !in dict
    ensures Caches(cache[v := |dict|], dict + [v])
  {
    var d := dict + [v];
    assert (set x | x in d) == (set x | x in dict) + {v};
    forall a | 0 <= a < |d| ensures cache[v := |dict|][d[a]] == a {
      if a < |dict| {
        assert d[a] == dict[a];
      }
    }
  }

  /** The invariant after every pair is the outcome `Collect` promises. */
  lemma CollectedAll<K, V>(pairs: seq<(K, V)>, keys: seq<K>, valuesIndex: seq<nat>, valuesDict: seq<V>)
    requires Collected(pairs, |pairs|, keys, valuesIndex, valuesDict)
    ensures keys == KeysOf(pairs)
    ensures |valuesIndex| == |pairs| && |valuesDict| <= |pairs|
    ensures forall i :: 0 <= i < |pairs| ==> valuesIndex[i] < |valuesDict| && valuesDict[valuesIndex[i]] == pairs[i].1
    ensures FirstOccurrences(valuesDict, ValuesOf(pairs))
  {
    assert KeysOf(pairs)[..|pairs|] == KeysOf(pairs);
    assert ValuesOf(pairs)[..|pairs|] == ValuesOf(pairs);
  }

  /**
    The build loop of `from_iter_with_gamma`: collect the keys in order and
    store each value once, re-using the offset the cache holds for a value
    already seen.
  */
  method Collect<K, V(==)>(pairs: seq<(K, V)>) returns (keys: seq<K>, valuesIndex: seq<nat>, valuesDict: seq<V>)
    ensures keys == KeysOf(pairs)
    ensures |valuesIndex| == |pairs| && |valuesDict| <= |pairs|
    ensures forall i :: 0 <= i < |pairs| ==> valuesIndex[i] < |valuesDict| && valuesDict[valuesIndex[i]] == pairs[i].1
    ensures FirstOccurrences(valuesDict, ValuesOf(pairs))
  {
    keys, valuesIndex, valuesDict := [], [], [];
    var offsetsCache: map<V, nat> := map[];
    assert Collected(pairs, 0, keys, valuesIndex, valuesDict);
    assert Caches(offsetsCache, valuesDict);
    hide Collected;
    hide Caches;
    for i := 0 to |pairs|
      invariant Collected(pairs, i, keys, valuesIndex, valuesDict)
      invariant Caches(offsetsCache, valuesDict)
    {
      var (k, v) := pairs[i];
      CacheLookup(offsetsCache, valuesDict, v);
      CollectStep(pairs, i, keys, valuesIndex, valuesDict, if v in offsetsCache then offsetsCache[v] else 0);
      keys := keys + [k];
      if v in offsetsCache {
        valuesIndex := valuesIndex + [offsetsCache[v]];
      } else {
        CacheInsert(offsetsCache, valuesDict, v);
        var offset := |valuesDict|;
        offsetsCache := offsetsCache[v := offset];
        valuesIndex := valuesIndex + [offset];
        valuesDict := valuesDict + [v];
      }
    }
    CollectedAll(pairs, keys, valuesIndex, valuesDict);
  }

  // ---------------------------------------------------------------------------
  // Re-ordering by the MPHF

  /** The number of positions from `lo` on whose entry is not their own index. */
  function Misplaced(a: seq<nat>, lo: nat): nat
    decreases |a| - lo
  {
    if lo >= |a| then 0 else (if a[lo] != lo then 1 else 0) + Misplaced(a, lo + 1)
  }

  /** Fixing position `k` without unfixing any other lowers the count. */
  lemma {:induction false} MisplacedFewer(a: seq<nat>, b: seq<nat>, lo: nat, k: nat)
    requires |a| == |b| && lo <= k < |a| && a[k] != k && b[k] == k
    requires forall j :: lo <= j < |a| && b[j] != j ==> a[j] != j
    ensures Misplaced(b, lo) < Misplaced(a, lo)
    decreases k - lo
  {
    if lo < k {
      MisplacedFewer(a, b, lo + 1, k);
    } else {
      MisplacedNoMore(a, b, lo + 1);
    }
  }

  /** Unfixing no position does not raise the count. */
  lemma {:induction false} MisplacedNoMore(a: seq<nat>, b: seq<nat>, lo: nat)
    requires |a| == |b|
    requires forall j :: lo <= j < |a| && b[j] != j ==> a[j] != j
    ensures Misplaced(b, lo) <= Misplaced(a, lo)
    decreases |a| - lo
  {
    if lo < |a| {
      MisplacedNoMore(a, b, lo + 1);
    }
  }

  /** `s` with the entries at `i` and `j` exchanged. */
  function Swap<T>(s: seq<T>, i: nat, j: nat): (r: seq<T>)
    requires i < |s| && j < |s|
    ensures |r| == |s| && r[i] == s[j] && r[j] == s[i]
    ensures forall k :: 0 <= k < |s| && k != i && k != j ==> r[k] == s[k]
  {
    s[i := s[j]][j := s[i]]
  }

  /** Swapping two entries keeps a sequence free of repeats. */
  lemma SwapDistinct(a: seq<nat>, i: nat, j: nat)
    requires i < |a| && j < |a| && Distinct(a)
    ensures Distinct(Swap(a, i, j))
  {
    var b := Swap(a, i, j);
    forall x, y | 0 <= x < y < |b| ensures b[x] != b[y] {
      var x' := if x == i then j else if x == j then i else x;
      var y' := if y == i then j else if y == j then i else y;
      assert b[x] == a[x'] && b[y] == a[y'] && x' != y';
    }
  }

  /** `a` answers, for every key of `ks`, the position the MPHF gives it, each below `|ks|`. */
  ghost predicate Answers<K>(m: Mphf.Mphf, hashKey: K -> U64, ks: seq<K>, a: seq<nat>)
  {
    Mphf.Wf(m) && |a| == |ks|
    && forall j :: 0 <= j < |ks| ==> Mphf.GetSpec(m, hashKey(ks[j])) == Some(a[j]) && a[j] < |ks|
  }

  /** `s` is `s0` re-arranged by `perm`: entry `j` of `s` is entry `perm[j]` of `s0`. */
  ghost predicate Permuted<T>(s: seq<T>, s0: seq<T>, perm: seq<nat>)
  {
    |perm| == |s| == |s0| && Distinct(perm)
    && forall j :: 0 <= j < |s| ==> perm[j] < |s0| && s[j] == s0[perm[j]]
  }

  /** Positions below `i` of a repeat-free `a` with entries below `|a|` hold their own index. */
  ghost predicate FixedBelow(a: seq<nat>, i: nat)
  {
    i <= |a| && Distinct(a) && (forall j :: 0 <= j < |a| ==> a[j] < |a|)
    && forall j :: 0 <= j < i ==> a[j] == j
  }

  /** A position holding its own index extends the fixed prefix by one. */
  lemma FixedNext(a: seq<nat>, i: nat)
    requires FixedBelow(a, i) && i < |a| && a[i] == i
    ensures FixedBelow(a, i + 1)
  {
  }

  /** A position below the fixed prefix's end holds its own index. */
  lemma FixedAt(a: seq<nat>, i: nat, j: nat)
    requires FixedBelow(a, i) && j < i
    ensures a[j] == j
  {
  }

  /** The answer at `j`, read off `Answers`. */
  lemma AnswerAt<K>(m: Mphf.Mphf, hashKey: K -> U64, ks: seq<K>, a: seq<nat>, j: nat)
    requires Answers(m, hashKey, ks, a) && j < |ks|
    ensures Mphf.Wf(m) && Mphf.GetSpec(m, hashKey(ks[j])) == Some(a[j]) && a[j] < |ks|
  {
  }

  /** `Answers` pairs every key with one answer. */
  lemma AnswersLength<K>(m: Mphf.Mphf, hashKey: K -> U64, ks: seq<K>, a: seq<nat>)
    requires Answers(m, hashKey, ks, a)
    ensures |a| == |ks|
  {
  }

  /** Swapping two keys swaps their answers. */
  lemma SwapAnswers<K>(m: Mphf.Mphf, hashKey: K -> U64, ks: seq<K>, a: seq<nat>, i: nat, j: nat)
    requires Answers(m, hashKey, ks, a) && i < |ks| && j < |ks|
    ensures Answers(m, hashKey, Swap(ks, i, j), Swap(a, i, j))
  {
  }

  /** Swapping two entries of a re-arranged sequence swaps the same two entries of the arrangement. */
  lemma SwapPermuted<T>(s: seq<T>, s0: seq<T>, perm: seq<nat>, i: nat, j: nat)
    requires Permuted(s, s0, perm) && i < |s| && j < |s|
    ensures Permuted(Swap(s, i, j), s0, Swap(perm, i, j))
  {
    SwapDistinct(perm, i, j);
  }

  /**
    One swap of the re-ordering loop: while the entry at `i` is not `i`, it
    is above `i`, and moving it to its own position keeps the positions
    below `i` fixed and fixes one more position.
  */
  lemma SwapStep(a: seq<nat>, i: nat)
    requires FixedBelow(a, i) && i < |a| && a[i] != i
    ensures i < a[i] < |a|
    ensures FixedBelow(Swap(a, i, a[i]), i)
    ensures Misplaced(Swap(a, i, a[i]), i) < Misplaced(a, i)
  {
    var k := a[i];
    SwapDistinct(a, i, k);
    MisplacedFewer(a, Swap(a, i, k), i, k);
  }

  /**
    The inner loop of the re-ordering: swap the key at `i` (and its value
    index with it) to the position the MPHF answers for it, until the key
    at `i` belongs at `i`. Positions below `i` stay put.
  */
  method Settle<K>(m: Mphf.Mphf, hashKey: K -> U64, keys: array<K>, valuesIndex: array<nat>, i: nat,
                   ghost ks0: seq<K>, ghost vi0: seq<nat>, ghost a0: seq<nat>, ghost perm0: seq<nat>)
    returns (ghost a: seq<nat>, ghost perm: seq<nat>)
    requires keys.Length == valuesIndex.Length && keys as object != valuesIndex as object && i < keys.Length
    requires Answers(m, hashKey, keys[..], a0) && FixedBelow(a0, i)
    requires Permuted(keys[..], ks0, perm0) && Permuted(valuesIndex[..], vi0, perm0)
    modifies keys, valuesIndex
    ensures Answers(m, hashKey, keys[..], a) && FixedBelow(a, i + 1)
    ensures Permuted(keys[..], ks0, perm) && Permuted(valuesIndex[..], vi0, perm)
  {
    hide Mphf.GetSpec;
    hide Mphf.Wf;
    hide Answers;
    hide Permuted;
    hide Misplaced;
    hide Distinct;
    hide FixedBelow;
    a, perm := a0, perm0;
    AnswersLength(m, hashKey, keys[..], a);
    AnswerAt(m, hashKey, keys[..], a, i);
    var got := Mphf.Get(m, hashKey, keys[i]);
    var idx := got.value;
    while idx != i
      invariant Answers(m, hashKey, keys[..], a) && FixedBelow(a, i)
      invariant Permuted(keys[..], ks0, perm) && Permuted(valuesIndex[..], vi0, perm)
      invariant |a| == keys.Length && idx == a[i]
      decreases Misplaced(a, i)
    {
      SwapStep(a, i);
      ghost var ks := keys[..];
      ghost var vs := valuesIndex[..];
      keys[i], keys[idx] := keys[idx], keys[i];
      valuesIndex[i], valuesIndex[idx] := valuesIndex[idx], valuesIndex[i];
      assert keys[..] == Swap(ks, i, idx);
      assert valuesIndex[..] == Swap(vs, i, idx);
      SwapAnswers(m, hashKey, ks, a, i, idx);
      SwapPermuted(ks, ks0, perm, i, idx);
      SwapPermuted(vs, vi0, perm, i, idx);
      a := Swap(a, i, idx);
      perm := Swap(perm, i, idx);
      AnswerAt(m, hashKey, keys[..], a, i);
      got := Mphf.Get(m, hashKey, keys[i]);
      idx := got.value;
    }
    FixedNext(a, i);
  }

  /**
    The re-ordering loop of `from_iter_with_gamma`: settle each position in
    turn. Given answers that are distinct positions below `n`, it ends with
    every key at its answer, keys and value indices re-arranged by the same
    permutation.
  */
  method Reorder<K>(m: Mphf.Mphf, hashKey: K -> U64, keys: array<K>, valuesIndex: array<nat>) returns (ghost perm: seq<nat>)
    requires Mphf.Wf(m) && keys.Length == valuesIndex.Length && keys as object != valuesIndex as object
    requires forall j :: 0 <= j < keys.Length ==>
      Mphf.GetSpec(m, hashKey(keys[j])).Some? && Mphf.GetSpec(m, hashKey(keys[j])).value < keys.Length
    requires forall i, j :: 0 <= i < j < keys.Length ==> Mphf.GetSpec(m, hashKey(keys[i])) != Mphf.GetSpec(m, hashKey(keys[j]))
    modifies keys, valuesIndex
    ensures forall j :: 0 <= j < keys.Length ==> Mphf.GetSpec(m, hashKey(keys[j])) == Some(j)
    ensures Permuted(keys[..], old(keys[..]), perm) && Permuted(valuesIndex[..], old(valuesIndex[..]), perm)
  {
    hide Mphf.GetSpec;
    hide Mphf.Wf;
    var n := keys.Length;
    ghost var ks0 := keys[..];
    ghost var vi0 := valuesIndex[..];
    ghost var a: seq<nat> := seq(n, j requires 0 <= j < n => Mphf.GetSpec(m, hashKey(ks0[j])).value);
    perm := seq(n, j => j);
    assert FixedBelow(a, 0) by {
      forall x, y | 0 <= x < y < n ensures a[x] != a[y] {
        assert Mphf.GetSpec(m, hashKey(ks0[x])) != Mphf.GetSpec(m, hashKey(ks0[y]));
      }
    }
    assert Answers(m, hashKey, keys[..], a);
    assert Permuted(keys[..], ks0, perm) && Permuted(valuesIndex[..], vi0, perm);
    hide Answers;
    hide Permuted;
    hide FixedBelow;
    for i := 0 to n
      invariant |a| == n
      invariant Answers(m, hashKey, keys[..], a) && FixedBelow(a, i)
      invariant Permuted(keys[..], ks0, perm) && Permuted(valuesIndex[..], vi0, perm)
    {
      AnswersLength(m, hashKey, keys[..], a);
      a, perm := Settle(m, hashKey, keys, valuesIndex, i, ks0, vi0, a, perm);
      AnswersLength(m, hashKey, keys[..], a);
    }
    forall j | 0 <= j < n ensures Mphf.GetSpec(m, hashKey(keys[j])) == Some(j) {
      AnswerAt(m, hashKey, keys[..], a, j);
      FixedAt(a, n, j);
    }
  }

  // ---------------------------------------------------------------------------
  // Construction

  /**
    `MapWithDict::from_iter_with_gamma(pairs, gamma)`: collect the pairs,
    build the MPHF over the keys (its error is the map's error, nothing
    partial is returned), and re-order keys and value indices by it. The
    map holds exactly the input pairs, its dictionary every distinct value
    once in first-occurrence order.
  */
  method FromIterWithGamma<K(==), V(==)>(pairs: seq<(K, V)>, hashKey: K -> U64, p: Params)
    returns (r: Result<MapWithDict<K, V>, Mphf.MphfError>)
    requires p.gammaDen > 0 && |pairs| < U32_BOUND
    ensures var spec := Mphf.FromHashes(p, Mphf.HashKeys(KeysOf(pairs), hashKey));
      (r.Err? <==> spec.Err?) && (r.Err? ==> r.error == spec.error)
    ensures r.Ok? ==> Valid(r.value, hashKey) && Represents(r.value, pairs)
    ensures r.Ok? ==> Distinct(KeysOf(pairs)) && FirstOccurrences(r.value.valuesDict, ValuesOf(pairs))
  {
    hide Mphf.GetSpec;
    hide Mphf.FromHashes;
    hide Mphf.Holds;
    hide Mphf.Wf;
    hide Rank.WordsOnes;
    hide Represents;
    hide FirstOccurrences;
    hide Permuted;
    var keys, valuesIndex, valuesDict := Collect(pairs);
    var built := Mphf.FromSlice(keys, hashKey, p);
    if built.Err? {
      return Err(built.error);
    }
    var m := built.value;
    BuiltAnswers(p, keys, hashKey, m);
    var ks := new K[|keys|](i requires 0 <= i < |keys| => keys[i]);
    var vi := new nat[|keys|](i requires 0 <= i < |keys| => valuesIndex[i]);
    assert ks[..] == keys && vi[..] == valuesIndex;
    ghost var perm := Reorder(m, hashKey, ks, vi);
    r := Ok(MapWithDict(m, ks[..], vi[..], valuesDict));
    BuiltRepresents(pairs, valuesIndex, valuesDict, perm, r.value);
  }

  /**
    What a successful MPHF build over `keys` gives the map: the keys are
    pairwise distinct, there is one set bit per key, and the MPHF answers
    each key with its own position below `|keys|`.
  */
  lemma BuiltAnswers<K>(p: Params, keys: seq<K>, hashKey: K -> U64, m: Mphf.Mphf)
    requires p.gammaDen > 0 && |keys| < U32_BOUND
    requires Mphf.FromHashes(p, Mphf.HashKeys(keys, hashKey)).Ok?
    requires Mphf.Holds(m, p.b, Mphf.FromHashes(p, Mphf.HashKeys(keys, hashKey)).value)
    ensures Mphf.Wf(m) && Rank.WordsOnes(m.rankedBits.bits) == |keys| && Distinct(keys)
    ensures forall j :: 0 <= j < |keys| ==>
      Mphf.GetSpec(m, hashKey(keys[j])).Some? && Mphf.GetSpec(m, hashKey(keys[j])).value < |keys|
    ensures forall i, j :: 0 <= i < j < |keys| ==> Mphf.GetSpec(m, hashKey(keys[i])) != Mphf.GetSpec(m, hashKey(keys[j]))
  {
    var hs := Mphf.HashKeys(keys, hashKey);
    MphfBijection.FromHashesDistinct(p, hs);
    MphfBijection.GetIsBijection(p, hs, m);
    MphfBijection.BuiltFromStart(p, hs, m);
    HashesDistinctKeys(keys, hashKey);
    forall i, j | 0 <= i < j < |keys| ensures Mphf.GetSpec(m, hashKey(keys[i])) != Mphf.GetSpec(m, hashKey(keys[j])) {
      assert hs[i] == hashKey(keys[i]) && hs[j] == hashKey(keys[j]);
    }
    forall j | 0 <= j < |keys| ensures Mphf.GetSpec(m, hashKey(keys[j])).Some? && Mphf.GetSpec(m, hashKey(keys[j])).value < |keys| {
      assert hs[j] == hashKey(keys[j]);
    }
  }

  /** Keys with pairwise-distinct hashes are pairwise distinct. */
  lemma HashesDistinctKeys<K>(keys: seq<K>, hashKey: K -> U64)
    requires Distinct(Mphf.HashKeys(keys, hashKey))
    ensures Distinct(keys)
  {
    var hs := Mphf.HashKeys(keys, hashKey);
    forall i, j | 0 <= i < j < |keys| ensures keys[i] != keys[j] {
      assert hs[i] != hs[j];
    }
  }

  /** Collected pairs, re-arranged in lockstep by one permutation, are exactly the input pairs. */
  lemma BuiltRepresents<K, V>(pairs: seq<(K, V)>, valuesIndex: seq<nat>, valuesDict: seq<V>, perm: seq<nat>, mp: MapWithDict<K, V>)
    requires |valuesIndex| == |pairs|
    requires forall i :: 0 <= i < |pairs| ==> valuesIndex[i] < |valuesDict| && valuesDict[valuesIndex[i]] == pairs[i].1
    requires Permuted(mp.keys, KeysOf(pairs), perm) && Permuted(mp.valuesIndex, valuesIndex, perm)
    requires mp.valuesDict == valuesDict
    ensures Represents(mp, pairs)
  {
    forall j | 0 <= j < |pairs| ensures (mp.keys[j], mp.valuesDict[mp.valuesIndex[j]]) in pairs {
      assert (mp.keys[j], mp.valuesDict[mp.valuesIndex[j]]) == pairs[perm[j]];
    }
    MphfBijection.Pigeonhole(perm);
    forall i | 0 <= i < |pairs| ensures Stores(mp, pairs[i]) {
      assert i in perm;
      var j :| 0 <= j < |perm| && perm[j] == i;
      assert mp.keys[j] == pairs[i].0 && mp.valuesDict[mp.valuesIndex[j]] == pairs[i].1;
    }
  }

  /**
    `TryFrom<HashMap<K, V>>`: `from_iter_with_gamma` with `gamma = 2`, over
    the map's entries. Its parameters are valid, so the only failure is
    running out of levels.
  */
  method TryFrom<K(==), V(==)>(entries: seq<(K, V)>, hashKey: K -> U64) returns (r: Result<MapWithDict<K, V>, Mphf.MphfError>)
    requires |entries| < U32_BOUND
    ensures r.Err? ==> r.error == Mphf.MaxLevelsExceeded
    ensures r.Err? <==> Mphf.FromHashes(Params(DEFAULT_B, DEFAULT_S, 2, 1), Mphf.HashKeys(KeysOf(entries), hashKey)).Err?
    ensures r.Ok? ==> Valid(r.value, hashKey) && Represents(r.value, entries)
  {
    var p := Params(DEFAULT_B, DEFAULT_S, 2, 1);
    r := FromIterWithGamma(entries, hashKey, p);
    Mphf.FromHashesErrors(p, Mphf.HashKeys(KeysOf(entries), hashKey));
  }
}
