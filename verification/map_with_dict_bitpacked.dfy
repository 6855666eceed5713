/**
  `MapWithDictBitpacked<K>`: a `MapWithDict<K, u8>` whose byte dictionary
  holds every distinct value vector once, bit-packed by `pack_values`,
  and whose value index points each key at the first byte of its vector's
  record. All vectors of one map have the same length `n`, which the map
  does not store: readers pass it in (the length of the buffer of
  `get_values`, the `n` of `iter` and `values`).

  Construction is `MapWithDict`'s with vectors for values: the key loop
  fails with `NotEqualValuesLengths` on the first vector whose length
  differs from the first one's, the dictionary gets `4 * 32` zero bytes of
  padding after the last record, and the MPHF error is wrapped.
*/
module MapWithDictBitpacked {
  import opened Wrappers
  import opened Bits
  import opened MphfBuild
  import opened BitPack
  import Rank
  import Mphf
  import MphfBijection
  import MapWithDict

  datatype MapWithDictBitpacked<K> = MapWithDictBitpacked(inner: MapWithDict.MapWithDict<K, U8>)

  /** Errors of `from_iter_with_params`. */
  datatype Error = MphfError(e: Mphf.MphfError) | NotEqualValuesLengths

  // ---------------------------------------------------------------------------
  // Records in the dictionary

  /** The length every vector must have: the first vector's, `0` without pairs. */
  function VLen<K>(pairs: seq<(K, seq<U32>)>): nat
  {
    if pairs == [] then 0 else |pairs[0].1|
  }

  /** Every vector has length `n`. */
  predicate SameLengths<K>(pairs: seq<(K, seq<U32>)>, n: nat)
  {
    forall i :: 0 <= i < |pairs| ==> |pairs[i].1| == n
  }

  /** The packed record of `v` sits in `dict` at offset `o`. */
  predicate PackedAt(dict: seq<U8>, o: nat, v: seq<U32>)
  {
    o + |Packed(v)| <= |dict| && dict[o..o + |Packed(v)|] == Packed(v)
  }

  /** Every slot's offset is inside the dictionary and `n` values can be read from it. */
  predicate Fits<K>(mp: MapWithDictBitpacked<K>, n: nat)
  {
    var m := mp.inner;
    |m.valuesIndex| == |m.keys|
    && forall j :: 0 <= j < |m.valuesIndex| ==> m.valuesIndex[j] < |m.valuesDict| && UnpackFits(m.valuesDict[m.valuesIndex[j]..], n)
  }

  /** The `n` values of slot `j`: `unpack_values` from the slot's offset on. */
  function Slot<K>(mp: MapWithDictBitpacked<K>, j: nat, n: nat): (v: seq<U32>)
    requires Fits(mp, n) && j < |mp.inner.keys|
    ensures |v| == n
  {
    Unpacked(mp.inner.valuesDict[mp.inner.valuesIndex[j]..], n)
  }

  /** A built map: a valid `MapWithDict` whose every slot holds a readable record of `n` values. */
  predicate Valid<K(==)>(mp: MapWithDictBitpacked<K>, hashKey: K -> U64, n: nat)
  {
    MapWithDict.Valid(mp.inner, hashKey) && Fits(mp, n)
  }

  /** Slots share an offset exactly when their vectors are equal: each distinct vector is stored once. */
  predicate SharesOffsets<K>(mp: MapWithDictBitpacked<K>, n: nat)
  {
    Fits(mp, n)
    && forall j, j' :: 0 <= j < |mp.inner.keys| && 0 <= j' < |mp.inner.keys| ==>
      (mp.inner.valuesIndex[j] == mp.inner.valuesIndex[j'] <==> Slot(mp, j, n) == Slot(mp, j', n))
  }

  /** Pair `kv` is stored: some slot holds its key and reads back its vector. */
  predicate Stores<K(==)>(mp: MapWithDictBitpacked<K>, n: nat, kv: (K, seq<U32>))
    requires Fits(mp, n)
  {
    exists j :: 0 <= j < |mp.inner.keys| && mp.inner.keys[j] == kv.0 && Slot(mp, j, n) == kv.1
  }

  /** `mp` holds exactly the pairs `pairs`, reading `n` values per slot. */
  predicate Represents<K(==)>(mp: MapWithDictBitpacked<K>, pairs: seq<(K, seq<U32>)>, n: nat)
  {
    |mp.inner.keys| == |pairs| && Fits(mp, n)
    && (forall j :: 0 <= j < |mp.inner.keys| ==> (mp.inner.keys[j], Slot(mp, j, n)) in pairs)
    && (forall i :: 0 <= i < |pairs| ==> Stores(mp, n, pairs[i]))
  }

  // ---------------------------------------------------------------------------
  // Lookups

  /** What `get_values(key, buffer of n)` answers: the slot's `n` values when the slot the MPHF answers holds `key`. */
  function Lookup<K(==)>(mp: MapWithDictBitpacked<K>, hashKey: K -> U64, key: K, n: nat): (r: Option<seq<U32>>)
    requires Valid(mp, hashKey, n)
    ensures r.Some? <==> key in mp.inner.keys
    ensures forall j :: 0 <= j < |mp.inner.keys| && mp.inner.keys[j] == key ==> r == Some(Slot(mp, j, n))
  {
    var m := mp.inner;
    MapWithDict.ValidKeysDistinct(m, hashKey);
    MphfBijection.GetSpecBound(m.mphf, hashKey(key));
    var idx := Mphf.GetSpec(m.mphf, hashKey(key));
    if idx.None? then None
    else if m.keys[idx.value] != key then None
    else Some(Slot(mp, idx.value, n))
  }

  /**
    `get_values(key, values)`: when the slot the MPHF answers holds `key`,
    fill `values` with the slot's vector and answer `true`; otherwise answer
    `false` and leave `values` alone.
  */
  method GetValues<K(==)>(mp: MapWithDictBitpacked<K>, hashKey: K -> U64, key: K, values: array<U32>) returns (found: bool)
    requires Valid(mp, hashKey, values.Length)
    modifies values
    ensures found <==> Lookup(mp, hashKey, key, values.Length).Some?
    ensures found ==> values[..] == Lookup(mp, hashKey, key, values.Length).value
    ensures !found ==> values[..] == old(values[..])
  {
    var m := mp.inner;
    MphfBijection.GetSpecBound(m.mphf, hashKey(key));
    var idx := Mphf.Get(m.mphf, hashKey, key);
    if idx.None? {
      return false;
    }
    if m.keys[idx.value] != key {
      return false;
    }
    var dictIdx := m.valuesIndex[idx.value];
    UnpackValues(m.valuesDict[dictIdx..], values);
    return true;
  }

  /** `len()`: the number of keys. */
  function Len<K>(mp: MapWithDictBitpacked<K>): nat
  {
    MapWithDict.Len(mp.inner)
  }

  /** `is_empty()`: no key at all. */
  function IsEmpty<K>(mp: MapWithDictBitpacked<K>): bool
  {
    MapWithDict.IsEmpty(mp.inner)
  }

  /** `contains_key(key)`: the inner map's answer. */
  function ContainsKey<K(==)>(mp: MapWithDictBitpacked<K>, hashKey: K -> U64, key: K, ghost n: nat): (r: bool)
    requires Valid(mp, hashKey, n)
    ensures r <==> Lookup(mp, hashKey, key, n).Some?
  {
    MapWithDict.ContainsKey(mp.inner, hashKey, key)
  }

  /** `iter(n)`: every key with its slot's `n` values, in slot order. */
  function Iter<K>(mp: MapWithDictBitpacked<K>, n: nat): seq<(K, seq<U32>)>
    requires Fits(mp, n)
  {
    seq(|mp.inner.keys|, j requires 0 <= j < |mp.inner.keys| => (mp.inner.keys[j], Slot(mp, j, n)))
  }

  /** `keys()`: the keys, in slot order. */
  function Keys<K>(mp: MapWithDictBitpacked<K>): seq<K>
  {
    MapWithDict.Keys(mp.inner)
  }

  /** `values(n)`: every slot's `n` values, in slot order. */
  function Values<K>(mp: MapWithDictBitpacked<K>, n: nat): seq<seq<U32>>
    requires Fits(mp, n)
  {
    seq(|mp.inner.keys|, j requires 0 <= j < |mp.inner.keys| => Slot(mp, j, n))
  }

  /**
    On a map built from `pairs` with vectors of length `n`, `get_values`
    answers `v` exactly for the input pairs `(key, v)`, and `false` exactly
    for keys that were not input keys.
  */
  lemma LookupBuilt<K>(mp: MapWithDictBitpacked<K>, hashKey: K -> U64, pairs: seq<(K, seq<U32>)>, n: nat, key: K, v: seq<U32>)
    requires Valid(mp, hashKey, n) && Represents(mp, pairs, n)
    ensures Lookup(mp, hashKey, key, n) == Some(v) <==> (key, v) in pairs
    ensures Lookup(mp, hashKey, key, n).None? <==> key !in MapWithDict.KeysOf(pairs)
    ensures ContainsKey(mp, hashKey, key, n) <==> key in MapWithDict.KeysOf(pairs)
  {
    hide Unpacked;
    hide UnpackFits;
    hide Mphf.GetSpec;
    if (key, v) in pairs {
      var i :| 0 <= i < |pairs| && pairs[i] == (key, v);
      assert Stores(mp, n, pairs[i]);
    }
    if Lookup(mp, hashKey, key, n) == Some(v) {
      var j :| 0 <= j < |mp.inner.keys| && mp.inner.keys[j] == key;
      assert (mp.inner.keys[j], Slot(mp, j, n)) in pairs;
    }
    if key in MapWithDict.KeysOf(pairs) {
      var i :| 0 <= i < |pairs| && pairs[i].0 == key;
      assert Stores(mp, n, pairs[i]);
    }
    if key in mp.inner.keys {
      var j :| 0 <= j < |mp.inner.keys| && mp.inner.keys[j] == key;
      var i :| 0 <= i < |pairs| && pairs[i] == (mp.inner.keys[j], Slot(mp, j, n));
      assert MapWithDict.KeysOf(pairs)[i] == key;
    }
  }

  /** A map built from `pairs` has `|pairs|` entries, and is empty exactly when `pairs` is. */
  lemma LenBuilt<K>(mp: MapWithDictBitpacked<K>, pairs: seq<(K, seq<U32>)>, n: nat)
    requires Represents(mp, pairs, n)
    ensures Len(mp) == |pairs|
    ensures IsEmpty(mp) <==> pairs == []
  {
  }

  /**
    On a map built from `pairs`, `iter(n)` yields exactly the input pairs,
    one per slot; `keys()` and `values(n)` yield only input keys and input
    vectors.
  */
  lemma IterBuilt<K>(mp: MapWithDictBitpacked<K>, pairs: seq<(K, seq<U32>)>, n: nat)
    requires Represents(mp, pairs, n)
    ensures |Iter(mp, n)| == |mp.inner.keys|
    ensures forall kv :: kv in Iter(mp, n) <==> kv in pairs
    ensures forall k :: k in Keys(mp) ==> k in MapWithDict.KeysOf(pairs)
    ensures forall v :: v in Values(mp, n) ==> v in MapWithDict.ValuesOf(pairs)
  {
    hide Unpacked;
    hide UnpackFits;
    hide Mphf.GetSpec;
    var it := Iter(mp, n);
    forall kv | kv in pairs ensures kv in it {
      var i :| 0 <= i < |pairs| && pairs[i] == kv;
      assert Stores(mp, n, pairs[i]);
      var j :| 0 <= j < |mp.inner.keys| && mp.inner.keys[j] == kv.0 && Slot(mp, j, n) == kv.1;
      assert it[j] == kv;
    }
    forall k | k in Keys(mp) ensures k in MapWithDict.KeysOf(pairs) {
      var j :| 0 <= j < |mp.inner.keys| && mp.inner.keys[j] == k;
      var i :| 0 <= i < |pairs| && pairs[i] == (mp.inner.keys[j], Slot(mp, j, n));
      assert MapWithDict.KeysOf(pairs)[i] == k;
    }
    forall v | v in Values(mp, n) ensures v in MapWithDict.ValuesOf(pairs) {
      var j :| 0 <= j < |mp.inner.keys| && Values(mp, n)[j] == v;
      var i :| 0 <= i < |pairs| && pairs[i] == (mp.inner.keys[j], Slot(mp, j, n));
      assert MapWithDict.ValuesOf(pairs)[i] == v;
    }
  }

  // ---------------------------------------------------------------------------
  // Collecting and packing the vectors

  /**
    The loop invariant of `Collect` after `i` pairs: the keys so far, one
    offset per pair pointing at its packed record, equal offsets exactly for
    equal vectors, and a cache mapping exactly the vectors seen so far to
    their offsets.
  */
  ghost predicate Collected<K>(pairs: seq<(K, seq<U32>)>, n: nat, i: nat, keys: seq<K>, valuesIndex: seq<nat>,
                               dict: seq<U8>, cache: map<seq<U32>, nat>)
  {
    i <= |pairs| && keys == MapWithDict.KeysOf(pairs)[..i] && |valuesIndex| == i
    && (forall j :: 0 <= j < i ==> |pairs[j].1| == n)
    && (forall j :: 0 <= j < i ==> PackedAt(dict, valuesIndex[j], pairs[j].1))
    && SameOffsets(pairs, valuesIndex) && CacheOf(pairs, valuesIndex, cache)
  }

  /** The first `|valuesIndex|` pairs have equal offsets exactly when they have equal vectors. */
  ghost predicate SameOffsets<K>(pairs: seq<(K, seq<U32>)>, valuesIndex: seq<nat>)
    requires |valuesIndex| <= |pairs|
  {
    forall j, j' :: 0 <= j < |valuesIndex| && 0 <= j' < |valuesIndex| ==>
      (valuesIndex[j] == valuesIndex[j'] <==> pairs[j].1 == pairs[j'].1)
  }

  /** The cache maps exactly the vectors of the first `|valuesIndex|` pairs to their offsets. */
  ghost predicate CacheOf<K>(pairs: seq<(K, seq<U32>)>, valuesIndex: seq<nat>, cache: map<seq<U32>, nat>)
    requires |valuesIndex| <= |pairs|
  {
    (forall j :: 0 <= j < |valuesIndex| ==> pairs[j].1 in cache && cache[pairs[j].1] == valuesIndex[j])
    && (forall v :: v in cache ==> exists j :: 0 <= j < |valuesIndex| && pairs[j].1 == v)
  }

  /** The keys of the first `i + 1` pairs extend those of the first `i`. */
  lemma KeysPrefixStep<K>(pairs: seq<(K, seq<U32>)>, i: nat)
    requires i < |pairs|
    ensures MapWithDict.KeysOf(pairs)[..i + 1] == MapWithDict.KeysOf(pairs)[..i] + [pairs[i].0]
  {
  }

  /** Before the first pair nothing is collected. */
  lemma CollectedNone<K>(pairs: seq<(K, seq<U32>)>, n: nat)
    ensures Collected(pairs, n, 0, [], [], [], map[])
  {
    assert MapWithDict.KeysOf(pairs)[..0] == [];
  }

  /** A record stays in place when bytes are appended to the dictionary. */
  lemma PackedAtAppend(dict: seq<U8>, o: nat, v: seq<U32>, more: seq<U8>)
    requires PackedAt(dict, o, v)
    ensures PackedAt(dict + more, o, v)
  {
    assert (dict + more)[o..o + |Packed(v)|] == dict[o..o + |Packed(v)|];
  }

  /** A cached vector was seen at an earlier pair `h`, and re-using its offset keeps the cache exact. */
  lemma CacheHit<K>(pairs: seq<(K, seq<U32>)>, valuesIndex: seq<nat>, cache: map<seq<U32>, nat>) returns (h: nat)
    requires |valuesIndex| < |pairs| && CacheOf(pairs, valuesIndex, cache) && pairs[|valuesIndex|].1 in cache
    ensures h < |valuesIndex| && pairs[h].1 == pairs[|valuesIndex|].1 && cache[pairs[h].1] == valuesIndex[h]
    ensures CacheOf(pairs, valuesIndex + [valuesIndex[h]], cache)
  {
    var i := |valuesIndex|;
    h :| 0 <= h < i && pairs[h].1 == pairs[i].1;
    var vi := valuesIndex + [valuesIndex[h]];
    assert forall j :: 0 <= j < i ==> vi[j] == valuesIndex[j];
  }

  /** Re-using the offset of an earlier pair `h` with the same vector keeps equal offsets exact. */
  lemma SameOffsetsHit<K>(pairs: seq<(K, seq<U32>)>, valuesIndex: seq<nat>, h: nat)
    requires |valuesIndex| < |pairs| && SameOffsets(pairs, valuesIndex)
    requires h < |valuesIndex| && pairs[h].1 == pairs[|valuesIndex|].1
    ensures SameOffsets(pairs, valuesIndex + [valuesIndex[h]])
  {
    var i := |valuesIndex|;
    var vi := valuesIndex + [valuesIndex[h]];
    forall j, j' | 0 <= j < i + 1 && 0 <= j' < i + 1
      ensures vi[j] == vi[j'] <==> pairs[j].1 == pairs[j'].1
    {
      var a := if j == i then h else j;
      var b := if j' == i then h else j';
      assert vi[j] == valuesIndex[a] && pairs[j].1 == pairs[a].1;
      assert vi[j'] == valuesIndex[b] && pairs[j'].1 == pairs[b].1;
    }
  }

  /** A vector not in the cache differs from every earlier one, and adding it keeps the cache exact. */
  lemma CacheMiss<K>(pairs: seq<(K, seq<U32>)>, valuesIndex: seq<nat>, cache: map<seq<U32>, nat>, o: nat)
    requires |valuesIndex| < |pairs| && CacheOf(pairs, valuesIndex, cache) && pairs[|valuesIndex|].1 !in cache
    ensures forall j :: 0 <= j < |valuesIndex| ==> pairs[j].1 != pairs[|valuesIndex|].1
    ensures CacheOf(pairs, valuesIndex + [o], cache[pairs[|valuesIndex|].1 := o])
  {
    var i := |valuesIndex|;
    var vi := valuesIndex + [o];
    var cache' := cache[pairs[i].1 := o];
    forall v | v in cache' ensures exists j :: 0 <= j < i + 1 && pairs[j].1 == v {
      if v != pairs[i].1 {
        var j :| 0 <= j < i && pairs[j].1 == v;
      }
    }
    assert forall j :: 0 <= j < i ==> vi[j] == valuesIndex[j];
  }

  /** A fresh offset for a vector unlike every earlier one keeps equal offsets exact. */
  lemma SameOffsetsMiss<K>(pairs: seq<(K, seq<U32>)>, valuesIndex: seq<nat>, o: nat)
    requires |valuesIndex| < |pairs| && SameOffsets(pairs, valuesIndex)
    requires forall j :: 0 <= j < |valuesIndex| ==> valuesIndex[j] != o && pairs[j].1 != pairs[|valuesIndex|].1
    ensures SameOffsets(pairs, valuesIndex + [o])
  {
    var vi := valuesIndex + [o];
    assert forall j :: 0 <= j < |valuesIndex| ==> vi[j] == valuesIndex[j];
  }

  /** A vector found in the cache: the pair re-uses the cached offset. */
  lemma CollectHit<K>(pairs: seq<(K, seq<U32>)>, n: nat, i: nat, keys: seq<K>, valuesIndex: seq<nat>,
                      dict: seq<U8>, cache: map<seq<U32>, nat>)
    requires Collected(pairs, n, i, keys, valuesIndex, dict, cache) && i < |pairs|
    requires |pairs[i].1| == n && pairs[i].1 in cache
    ensures Collected(pairs, n, i + 1, keys + [pairs[i].0], valuesIndex + [cache[pairs[i].1]], dict, cache)
  {
    hide Packed;
    hide PackedAt;
    hide MapWithDict.KeysOf;
    hide SameOffsets;
    hide CacheOf;
    var h := CacheHit(pairs, valuesIndex, cache);
    SameOffsetsHit(pairs, valuesIndex, h);
    KeysPrefixStep(pairs, i);
    var vi := valuesIndex + [cache[pairs[i].1]];
    assert vi == valuesIndex + [valuesIndex[h]];
    assert forall j :: 0 <= j < i + 1 ==> PackedAt(dict, vi[j], pairs[j].1) by {
      forall j | 0 <= j < i + 1 ensures PackedAt(dict, vi[j], pairs[j].1) {
        if j == i {
          assert vi[j] == valuesIndex[h];
        } else {
          assert vi[j] == valuesIndex[j];
        }
      }
    }
  }

  /**
    A new vector: its offset is the dictionary's length, distinct from every
    earlier offset since the earlier records are non-empty, and its record is
    appended.
  */
  lemma CollectMiss<K>(pairs: seq<(K, seq<U32>)>, n: nat, i: nat, keys: seq<K>, valuesIndex: seq<nat>,
                       dict: seq<U8>, cache: map<seq<U32>, nat>)
    requires Collected(pairs, n, i, keys, valuesIndex, dict, cache) && i < |pairs|
    requires |pairs[i].1| == n && pairs[i].1 !in cache
    ensures Collected(pairs, n, i + 1, keys + [pairs[i].0], valuesIndex + [|dict|], dict + Packed(pairs[i].1),
                      cache[pairs[i].1 := |dict|])
  {
    hide Packed;
    hide MapWithDict.KeysOf;
    hide SameOffsets;
    hide CacheOf;
    var v := pairs[i].1;
    var vi := valuesIndex + [|dict|];
    var dict' := dict + Packed(v);
    KeysPrefixStep(pairs, i);
    CacheMiss(pairs, valuesIndex, cache, |dict|);
    forall j | 0 <= j < i
      ensures PackedAt(dict', vi[j], pairs[j].1) && valuesIndex[j] != |dict|
    {
      PackedAtAppend(dict, valuesIndex[j], pairs[j].1, Packed(v));
      assert pairs[j].1 != v;
      assert pairs[j].1 != [];
    }
    SameOffsetsMiss(pairs, valuesIndex, |dict|);
    assert dict'[|dict|..|dict| + |Packed(v)|] == Packed(v);
  }

  /**
    The key loop of `from_iter_with_params`: collect the keys, stop with
    `false` at the first vector whose length is not `n`, and otherwise pack
    each distinct vector once, re-using the cached offset of a vector seen
    before.
  */
  method Collect<K>(pairs: seq<(K, seq<U32>)>, n: nat)
    returns (ok: bool, keys: seq<K>, valuesIndex: seq<nat>, dict: seq<U8>)
    ensures ok <==> SameLengths(pairs, n)
    ensures ok ==> keys == MapWithDict.KeysOf(pairs) && |valuesIndex| == |pairs|
    ensures ok ==> forall j :: 0 <= j < |pairs| ==> PackedAt(dict, valuesIndex[j], pairs[j].1)
    ensures ok ==> forall j, j' :: 0 <= j < |pairs| && 0 <= j' < |pairs| ==>
      (valuesIndex[j] == valuesIndex[j'] <==> pairs[j].1 == pairs[j'].1)
  {
    hide Collected;
    hide Packed;
    hide PackedAt;
    keys, valuesIndex, dict := [], [], [];
    var offsetsCache: map<seq<U32>, nat> := map[];
    CollectedNone(pairs, n);
    for i := 0 to |pairs|
      invariant Collected(pairs, n, i, keys, valuesIndex, dict, offsetsCache)
    {
      var (k, v) := pairs[i];
      if |v| != n {
        return false, keys + [k], valuesIndex, dict;
      }
      if v in offsetsCache {
        CollectHit(pairs, n, i, keys, valuesIndex, dict, offsetsCache);
        valuesIndex := valuesIndex + [offsetsCache[v]];
      } else {
        CollectMiss(pairs, n, i, keys, valuesIndex, dict, offsetsCache);
        var offset := |dict|;
        offsetsCache := offsetsCache[v := offset];
        valuesIndex := valuesIndex + [offset];
        dict := PackValues(v, dict);
      }
      keys := keys + [k];
    }
    ok := true;
    CollectedAll(pairs, n, keys, valuesIndex, dict, offsetsCache);
  }

  /** The invariant after every pair is the outcome `Collect` promises. */
  lemma CollectedAll<K>(pairs: seq<(K, seq<U32>)>, n: nat, keys: seq<K>, valuesIndex: seq<nat>,
                        dict: seq<U8>, cache: map<seq<U32>, nat>)
    requires Collected(pairs, n, |pairs|, keys, valuesIndex, dict, cache)
    ensures SameLengths(pairs, n)
    ensures keys == MapWithDict.KeysOf(pairs) && |valuesIndex| == |pairs|
    ensures forall j :: 0 <= j < |pairs| ==> PackedAt(dict, valuesIndex[j], pairs[j].1)
    ensures forall j, j' :: 0 <= j < |pairs| && 0 <= j' < |pairs| ==>
      (valuesIndex[j] == valuesIndex[j'] <==> pairs[j].1 == pairs[j'].1)
  {
    assert MapWithDict.KeysOf(pairs)[..|pairs|] == MapWithDict.KeysOf(pairs);
  }

  /**
    A record followed by the padding, or by more records and then the
    padding, reads back as its vector.
  */
  lemma RecordRoundTrip(dict: seq<U8>, o: nat, v: seq<U32>)
    requires PackedAt(dict, o, v)
    ensures var padded := dict + seq(PADDING_LEN, _ => 0);
      o < |padded| && UnpackFits(padded[o..], |v|) && Unpacked(padded[o..], |v|) == v
  {
    hide Packed;
    hide UnpackFits;
    hide Unpacked;
    var padded := dict + seq(PADDING_LEN, _ => 0);
    var p := Packed(v);
    var rest := padded[o + |p|..];
    assert padded[o..o + |p|] == p by {
      assert padded[o..o + |p|] == dict[o..o + |p|];
    }
    assert padded[o..] == p + rest by {
      assert padded[o..] == padded[o..o + |p|] + padded[o + |p|..];
    }
    PackedRoundTrip(v, rest);
  }

  // ---------------------------------------------------------------------------
  // Construction

  /**
    `from_iter_with_params(pairs, gamma)`, with `B = 32` and `S = 8`: the
    first vector's length is the length of all; a vector of another length
    fails the build with `NotEqualValuesLengths`; otherwise the dictionary is
    padded, the MPHF is built over the keys (its error wrapped), and keys
    and offsets are re-ordered by it. The map then holds exactly the input
    pairs, each distinct vector stored once.
  */
  method FromIterWithParams<K(==)>(pairs: seq<(K, seq<U32>)>, hashKey: K -> U64, gammaNum: nat, gammaDen: nat)
    returns (r: Result<MapWithDictBitpacked<K>, Error>)
    requires gammaDen > 0 && |pairs| < U32_BOUND
    ensures !SameLengths(pairs, VLen(pairs)) ==> r == Err(NotEqualValuesLengths)
    ensures var spec := Mphf.FromHashes(Params(MapWithDict.DEFAULT_B, MapWithDict.DEFAULT_S, gammaNum, gammaDen),
                                        Mphf.HashKeys(MapWithDict.KeysOf(pairs), hashKey));
      SameLengths(pairs, VLen(pairs)) ==> (r.Err? <==> spec.Err?) && (r.Err? ==> r.error == MphfError(spec.error))
    ensures r.Ok? ==> var n := VLen(pairs);
      Valid(r.value, hashKey, n) && Represents(r.value, pairs, n) && SharesOffsets(r.value, n)
    ensures r.Ok? ==> var dict := r.value.inner.valuesDict;
      |dict| >= PADDING_LEN && dict[|dict| - PADDING_LEN..] == seq(PADDING_LEN, _ => 0)
  {
    hide Mphf.GetSpec;
    hide Mphf.FromHashes;
    hide Mphf.Holds;
    hide Mphf.Wf;
    hide Rank.WordsOnes;
    hide Represents;
    hide SharesOffsets;
    hide MapWithDict.Permuted;
    hide PackedAt;
    var p := Params(MapWithDict.DEFAULT_B, MapWithDict.DEFAULT_S, gammaNum, gammaDen);
    var n := VLen(pairs);
    var ok, keys, valuesIndex, dict := Collect(pairs, n);
    if !ok {
      return Err(NotEqualValuesLengths);
    }
    var valuesDict := dict + seq(4 * VALUES_BLOCK_LEN, _ => 0);
    var built := Mphf.FromSlice(keys, hashKey, p);
    if built.Err? {
      return Err(MphfError(built.error));
    }
    var m := built.value;
    MapWithDict.BuiltAnswers(p, keys, hashKey, m);
    var ks := new K[|keys|](i requires 0 <= i < |keys| => keys[i]);
    var vi := new nat[|keys|](i requires 0 <= i < |keys| => valuesIndex[i]);
    assert ks[..] == keys && vi[..] == valuesIndex;
    ghost var perm := MapWithDict.Reorder(m, hashKey, ks, vi);
    r := Ok(MapWithDictBitpacked(MapWithDict.MapWithDict(m, ks[..], vi[..], valuesDict)));
    BuiltRepresents(pairs, n, valuesIndex, dict, perm, r.value);
  }

  /**
    Collected records, padded, with keys and offsets re-arranged in
    lockstep by one permutation: every slot reads back its pair's vector,
    the map holds exactly the input pairs, and equal offsets mean equal
    vectors.
  */
  lemma BuiltRepresents<K>(pairs: seq<(K, seq<U32>)>, n: nat, valuesIndex: seq<nat>, dict: seq<U8>, perm: seq<nat>,
                           mp: MapWithDictBitpacked<K>)
    requires SameLengths(pairs, n) && |valuesIndex| == |pairs|
    requires forall j :: 0 <= j < |pairs| ==> PackedAt(dict, valuesIndex[j], pairs[j].1)
    requires forall j, j' :: 0 <= j < |pairs| && 0 <= j' < |pairs| ==>
      (valuesIndex[j] == valuesIndex[j'] <==> pairs[j].1 == pairs[j'].1)
    requires MapWithDict.Permuted(mp.inner.keys, MapWithDict.KeysOf(pairs), perm)
    requires MapWithDict.Permuted(mp.inner.valuesIndex, valuesIndex, perm)
    requires mp.inner.valuesDict == dict + seq(PADDING_LEN, _ => 0)
    ensures Fits(mp, n) && Represents(mp, pairs, n) && SharesOffsets(mp, n)
  {
    hide Packed;
    hide PackedAt;
    hide Unpacked;
    hide UnpackFits;
    BuiltSlots(pairs, n, valuesIndex, dict, perm, mp);
    var m := mp.inner;
    forall j | 0 <= j < |m.keys| ensures (m.keys[j], Slot(mp, j, n)) in pairs {
      assert (m.keys[j], Slot(mp, j, n)) == pairs[perm[j]];
    }
    MphfBijection.Pigeonhole(perm);
    forall i | 0 <= i < |pairs| ensures Stores(mp, n, pairs[i]) {
      assert i in perm;
      var j :| 0 <= j < |perm| && perm[j] == i;
      assert m.keys[j] == pairs[i].0 && Slot(mp, j, n) == pairs[i].1;
    }
    forall j, j' | 0 <= j < |m.keys| && 0 <= j' < |m.keys|
      ensures m.valuesIndex[j] == m.valuesIndex[j'] <==> Slot(mp, j, n) == Slot(mp, j', n)
    {
      assert m.valuesIndex[j] == valuesIndex[perm[j]] && m.valuesIndex[j'] == valuesIndex[perm[j']];
    }
  }

  /** Every re-arranged slot reads back the vector of the pair it came from. */
  lemma BuiltSlots<K>(pairs: seq<(K, seq<U32>)>, n: nat, valuesIndex: seq<nat>, dict: seq<U8>, perm: seq<nat>,
                      mp: MapWithDictBitpacked<K>)
    requires SameLengths(pairs, n) && |valuesIndex| == |pairs|
    requires forall j :: 0 <= j < |pairs| ==> PackedAt(dict, valuesIndex[j], pairs[j].1)
    requires MapWithDict.Permuted(mp.inner.keys, MapWithDict.KeysOf(pairs), perm)
    requires MapWithDict.Permuted(mp.inner.valuesIndex, valuesIndex, perm)
    requires mp.inner.valuesDict == dict + seq(PADDING_LEN, _ => 0)
    ensures Fits(mp, n)
    ensures forall j :: 0 <= j < |mp.inner.keys| ==>
      perm[j] < |pairs| && mp.inner.keys[j] == pairs[perm[j]].0 && Slot(mp, j, n) == pairs[perm[j]].1
  {
    hide Packed;
    hide PackedAt;
    var m := mp.inner;
    forall j | 0 <= j < |m.keys|
      ensures m.valuesIndex[j] < |m.valuesDict| && UnpackFits(m.valuesDict[m.valuesIndex[j]..], n)
      ensures Unpacked(m.valuesDict[m.valuesIndex[j]..], n) == pairs[perm[j]].1
      ensures m.keys[j] == pairs[perm[j]].0
    {
      RecordRoundTrip(dict, valuesIndex[perm[j]], pairs[perm[j]].1);
    }
  }

  /**
    `TryFrom<HashMap<K, Vec<u32>>>`: `from_iter_with_params` with
    `gamma = 2` over the map's entries; with equal lengths the only failure
    is running out of levels.
  */
  method TryFrom<K(==)>(entries: seq<(K, seq<U32>)>, hashKey: K -> U64) returns (r: Result<MapWithDictBitpacked<K>, Error>)
    requires |entries| < U32_BOUND
    ensures !SameLengths(entries, VLen(entries)) ==> r == Err(NotEqualValuesLengths)
    ensures SameLengths(entries, VLen(entries)) ==>
      (r.Err? ==> r.error == MphfError(Mphf.MaxLevelsExceeded))
      && (r.Err? <==> Mphf.FromHashes(Params(MapWithDict.DEFAULT_B, MapWithDict.DEFAULT_S, 2, 1),
                                       Mphf.HashKeys(MapWithDict.KeysOf(entries), hashKey)).Err?)
    ensures r.Ok? ==> var n := VLen(entries);
      Valid(r.value, hashKey, n) && Represents(r.value, entries, n) && SharesOffsets(r.value, n)
  {
    r := FromIterWithParams(entries, hashKey, 2, 1);
    Mphf.FromHashesErrors(Params(MapWithDict.DEFAULT_B, MapWithDict.DEFAULT_S, 2, 1),
                          Mphf.HashKeys(MapWithDict.KeysOf(entries), hashKey));
  }
}
