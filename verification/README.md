# entropy-map core in Dafny

A Dafny model of the core of `entropy-map`. The crate provides immutable hash maps built on a
minimal perfect hash function (MPHF). The model has four parts:

- **`RankedBits`** (`rank.dfy`): a bit vector with one 128-bit counter word per 64-word block.
  The low 44 bits count the ones before the block. Seven 12-bit fields count the ones in the
  block's earlier 8-word chunks. `rank(idx)` answers `None` for a clear bit. For a set bit it
  answers the number of ones before it.
- **`Mphf`**: the multi-level fingerprinting MPHF. The parts are:
  - `mphf_hash.dfy`: hashing, `fastmod32` and level sizing;
  - `mphf_level.dfy`: `update_group_bits_with_seed` on the three-words-per-segment buffer;
  - `mphf_build.dfy`: `build_level`;
  - `mphf.dfy`: `from_slice` and `get`;
  - `mphf_placement.dfy` and `mphf_bijection.dfy`: the proofs.

  On each level, every group keeps the first seed that leaves the most once-hit slots in its
  window. Hashes whose slot under the kept seed is set are placed; the rest go to the next
  level. There are at most 32 levels. `get` walks the levels and answers the rank of the first
  set slot.
- **`MapWithDict<K, V>`** (`map_with_dict.dfy`): keys and a value index, re-ordered so that key
  `i` sits at MPHF position `i`. Distinct values are stored once, in first-occurrence order.
  A lookup checks the stored key.
- **`MapWithDictBitpacked<K>`** (`map_with_dict_bitpacked.dfy`, `bitpack.dfy`): a
  `MapWithDict<K, u8>`. Its byte dictionary holds each distinct `u32` vector once, packed in
  32-value blocks. Each block is a width byte `w` followed by `ceil(len * w / 8)` bytes. After
  the last record come 128 zero bytes of padding. `bitpack_examples.dfy` proves the crate's
  packing test vectors.

Machine words are bounded `nat`s with the bitwise operators written out (`bits.dfy`). Where the
source wraps, the wrap is explicit: `wrapping_mul`, the `u128` product, and the `u32`/`u16`
casts. The hasher `H` becomes a function `hashKey: K -> U64`, passed to every operation that
hashes a key.

Code that changes buffers in place is imperative Dafny. This covers the rank-counter loops, the
per-seed phases on the `3 * segments` word array, the key loop and the swap loop of the maps,
and `pack_values`/`unpack_values`. Each method is proved against a specification function. The
properties are then proved about those functions.

Where the crate's prose description and its code disagree, the model follows the code:

- A level's size is rounded up to a multiple of both 64 and `B`, so there is no short last
  group.
- A group does not search for a collision-free seed. It keeps the first seed with the most
  once-hit slots, and colliding hashes move to the next level.
- The construction errors are:
  - `InvalidBParameter`, `InvalidSParameter` and `InvalidGammaParameter`, checked in that
    order;
  - `MaxLevelsExceeded` after 32 levels.

  There is no seed-exhaustion error and no duplicate-key error. Duplicate hashes can never be
  placed, so they end in `MaxLevelsExceeded`: `MphfBijection.FromHashesDistinct` proves that a
  successful build had distinct hashes.
- `S` ranges over 0..15.
- The bit-packed map has no width error. Widths are computed per block and are at most 32.
  Its own error is `NotEqualValuesLengths`.

## Model

| member | source | states |
|---|---|---|
| Rank.BlockCounter | src/rank.rs:78-98 | the counter word of one block of at most 64 words holds the ones before the block in its low 44 bits and the cumulative chunk counts in its 12-bit fields; `sum` is the block's ones |
| Rank.New | src/rank.rs:72-102 | keeps the bit vector and gives every 64-word block, the short last one included, a counter word with that layout |
| Rank.Rank | src/rank.rs:27-57 | answers `None` exactly when bit `idx` is clear |
| Rank.RankIsCountBefore | src/rank.rs:27-57 | for a set bit, `rank(idx)` is `Some` of the number of set bits before `idx` (total ones below 2^32) |
| Rank.TotalRankIsCountBefore | src/rank.rs:36-54 | L1 count + L2 count + whole words + masked word equals the ones before `idx` |
| Rank.TotalRankParts | src/rank.rs:36-54 | the four summands read the L1 field, the L2 field at `l2_pos`, the words from the L2 block's start to `idx`'s word, and `idx`'s word below its bit |
| Rank.L1Read | src/rank.rs:39-40 | the low 44 bits of a block's counter are the ones before the block |
| Rank.L2Read | src/rank.rs:37-41 | the 12 bits at `32 + 12 * l2_pos` are the ones in the block's first `l2_pos` chunks, so zero at `l2_pos = 0` |
| Rank.L2CountPastBound | src/rank.rs:40-41 | at `l2_pos = 0` the read shows the L1 count's bits 32..43, so an L1 count of 2^32 reads as one earlier one: the rank needs fewer than 2^32 ones |
| Rank.WordRead | src/rank.rs:51-52 | the masked popcount is the ones of the word below bit `idx % 64`, also when `idx_within_l2` is 0 |
| Rank.ReadsInBounds | src/rank.rs:36-50 | the unchecked word and counter reads are in bounds, and `offset + blocks_num` is `idx / 64` |
| Rank.RankExample | src/rank.rs:135-146 | on words 0b11001010, 0b00110111, 0b11110000: `rank(0) == None` and `rank(7) == Some(3)` |
| MphfHash.FastMod32 | src/mphf.rs:274-276 | result is below `n` for `n > 0`, zero for `n == 0`, and fits in `u32` |
| MphfHash.BitIndexForSeed | src/mphf.rs:216-226 | the slot lies in group `groups_before`'s window `[groups_before * B, groups_before * B + B)` |
| MphfHash.SegmentsFor | src/mphf.rs:139-146 | a segment count that covers `size` bits and whose `64 * segments` is a multiple of `B` |
| MphfHash.SegmentsForLeast | src/mphf.rs:139-146 | no smaller segment count both covers `size` bits and splits into whole groups of `B` bits |
| MphfHash.LevelSizeGroupsSegments | src/mphf.rs:139-146 | the loop returns `SegmentsFor(B, size)` segments and `groups * B == 64 * segments` |
| MphfHash.LevelSize | src/mphf.rs:95 | `ceil(len * gamma)` for rational gamma: the least `r` with `r * den >= len * num` |
| MphfBuild.MaxGroupSeed | src/mphf.rs:97 | `1 << S` is `2^S`, between 1 and 65536 |
| MphfBuild.LevelShape | src/mphf.rs:95-96 | a level over `len` hashes has whole groups, `64 * segments >= level_size >= len`, and the segment count of `level_size` |
| MphfBuild.LevelSizeCovers | src/mphf.rs:95 | with `gamma >= 1` the level size is at least the number of hashes |
| MphfBuild.GroupsFor | src/mphf.rs:145 | `adjusted_size / B` is at least one group and `groups * B == adjusted_size` |
| MphfLevel.GroupIndex | src/mphf.rs:166-167 | a hash's group on a level is below `groups` |
| MphfLevel.SlotFor | src/mphf.rs:166-168 | a hash's slot under a seed lies in its group's window |
| MphfLevel.SeedSlots | src/mphf.rs:165-168 | slot `i` is hash `i`'s slot under the seed |
| MphfLevel.ResetCurrent | src/mphf.rs:159-162 | current and collision words become zero; best words unchanged |
| MphfLevel.MarkHashes | src/mphf.rs:165-175 | current word bits mark slots hit at least once, collision bits slots hit at least twice; best words unchanged |
| MphfLevel.FilterCollisions | src/mphf.rs:178-180 | current words become the slots hit exactly once; other words unchanged |
| MphfLevel.WindowAt | src/mphf.rs:184-193 | a group's window is `bits_1` bits from `bit_pos` in one segment and `bits_2 = B - bits_1` bits at the start of the next |
| MphfLevel.WindowOnes | src/mphf.rs:195-201 | the two masked popcounts are the ones of the plane in the group's window |
| MphfLevel.TakeCurrentBits | src/mphf.rs:204-208 | the masked writes copy exactly the window's current bits into the best plane and leave every other bit and word alone |
| MphfLevel.UpdateGroup | src/mphf.rs:183-211 | a group whose current window has more ones than its best window takes the current bits and the seed; otherwise nothing changes |
| MphfLevel.BestStep | src/mphf.rs:183-212 | the per-group update extends the all-groups-below invariant by one group |
| MphfLevel.UpdateBest | src/mphf.rs:183-212 | after the loop every group's best bits and seed are taken exactly when the current window had more ones |
| MphfLevel.UpdateGroupBitsWithSeed | src/mphf.rs:150-213 | for every group: when this seed leaves more once-hit slots in the group's window than the best bits hold, the window's best bits become exactly the slots this seed hits once and the group's seed becomes this seed; otherwise both stay |
| MphfBuild.Seeds | src/mphf.rs:105-117 | one seed per group, each the `ChosenSeed` after all seeds tried |
| MphfBuild.ChosenSeedIsFirstBest | src/mphf.rs:108-117 | after trying seeds `0..t` the kept seed leaves the most once-hit slots and every earlier seed strictly fewer |
| MphfBuild.FirstBestUnique | src/mphf.rs:203-211 | only one seed is the first best, so the kept seed does not depend on how it is found |
| MphfBuild.SeedsAreChosen | src/mphf.rs:108-117 | seeds kept by the first-strictly-better rule equal `Seeds` |
| MphfBuild.ChosenSlot | src/mphf.rs:127-130 | a hash's slot under its group's kept seed lies in its group's window |
| MphfBuild.ChosenSlots | src/mphf.rs:127-130 | slot `i` is hash `i`'s slot under its group's kept seed |
| MphfBuild.LevelBits | src/mphf.rs:120-123 | a level's bits are one word per segment |
| MphfBuild.BestWords | src/mphf.rs:120-123 | collects word 2 of every segment |
| MphfBuild.BestIsLevelBits | src/mphf.rs:120-123 | the best plane is the level's bits: slot `p` is set iff exactly one hash's chosen slot is `p` |
| MphfBuild.RetainUnplaced | src/mphf.rs:126-132 | keeps, in order, the hashes whose chosen slot is clear |
| MphfBuild.LevelSpec | src/mphf.rs:93-135 | a level has one word per segment and one seed per group |
| MphfBuild.BuildLevel | src/mphf.rs:93-135 | the array implementation computes `LevelSpec`: bits, seeds and handed-on hashes |
| MphfPlacement.LevelBitAt | src/mphf.rs:119-123 | bit `p` of a level is set iff exactly one hash's chosen slot is `p` |
| MphfPlacement.PlacedApart | src/mphf.rs:125-132 | a placed hash shares its slot with no other hash of the level |
| MphfPlacement.SetBitPlaced | src/mphf.rs:119-132 | every set bit of a level is the slot of a placed hash |
| MphfPlacement.PlacedCount | src/mphf.rs:125-132 | hashes in = hashes handed on + ones of the level's bits |
| MphfPlacement.LevelRest | src/mphf.rs:125-132 | handed-on hashes are exactly the unplaced ones, their count is the hashes minus the level's ones, and they stay distinct |
| MphfPlacement.LevelSeedIsFirstBest | src/mphf.rs:107-117 | a group's kept seed is below `2^S`, no seed leaves more once-hit slots in its window, and every smaller seed leaves fewer |
| Mphf.HashKeys | src/mphf.rs:65 | hash `i` is `hash_key(keys[i])` |
| Mphf.FromHashesErrors | src/mphf.rs:52-82 | `InvalidBParameter` iff `B` outside 1..64, then `InvalidSParameter` iff `S > 15`, then `InvalidGammaParameter` iff gamma < 1; any other error is `MaxLevelsExceeded`; no hashes always succeed |
| Mphf.BuildLevelsError | src/mphf.rs:70-82 | the only error the level loop can give is `MaxLevelsExceeded` |
| Mphf.BuildLevelsCount | src/mphf.rs:70-82 | a successful build has at most 32 levels, and none iff there were no hashes |
| Mphf.BuildLevelsWellFormed | src/mphf.rs:70-89 | a successful build has one seed per group and `B` bits per group in its words |
| Mphf.LevelsStep | src/mphf.rs:70-82 | one round of the level loop: fail at level 32 with hashes left, otherwise append the level and continue on the handed-on hashes |
| Mphf.Levels | src/mphf.rs:70-82 | the level loop computes `BuildLevels` from level 0 |
| Mphf.OneLevelOk | src/mphf.rs:75-77 | a level's words, seeds and group count fit together |
| Mphf.LevelOutputOk | src/mphf.rs:73-77 | the level `build_level` returns is well formed on its own |
| Mphf.JoinOk | src/mphf.rs:75-77 | appending levels keeps seeds = groups and `64 * words = B * groups` |
| Mphf.FromSlice | src/mphf.rs:52-90 | fails exactly when the specification fails, with its error; on success builds ranked bits, level groups and seeds of the specified build |
| Mphf.LevelBitIndex | src/mphf.rs:234-237 | the bit a key probes on a level lies inside the bit vector |
| Mphf.LevelBitIndexIs | src/mphf.rs:234-237 | `get`'s per-level arithmetic equals `LevelBitIndex` |
| Mphf.FoundAt | src/mphf.rs:232-244 | the first probed bit that is set, searching from a level on |
| Mphf.Get | src/mphf.rs:231-245 | the loop answers `GetSpec`: the rank of the first set probed bit, `None` when none is set |
| MphfBijection.LevelIndexIsSlot | src/mphf.rs:234-237 | the probed bit on a level is the level's offset plus the hash's chosen slot in that level |
| MphfBijection.BuiltFromStart | src/mphf.rs:84-89 | a built MPHF has as many ones as hashes |
| MphfBijection.LevelsOnes | src/mphf.rs:70-89 | a successful build sets exactly as many bits as it was given hashes |
| MphfBijection.FoundOnLevels | src/mphf.rs:231-245 | every built hash finds a set bit on the levels from the one it entered, past the earlier levels' bits |
| MphfBijection.FoundHere | src/mphf.rs:231-245 | a placed hash is answered on its own level at the level offset plus its chosen slot; an unplaced one is handed to the next level and probed there |
| MphfBijection.FoundApart | src/mphf.rs:231-245 | two different built hashes find different bits |
| MphfBijection.FoundApartHere | src/mphf.rs:125-132 | two different hashes placed on the same level have different chosen slots |
| MphfBijection.LevelsDuplicateFails | src/mphf.rs:70-82 | a hash given twice is never placed, so the build fails |
| MphfBijection.GetAt | src/mphf.rs:228-245 | every built hash is answered, by the rank of its bit, below `n` |
| MphfBijection.GetApart | src/mphf.rs:228-245 | two different built hashes get different answers |
| MphfBijection.GetIsBijection | src/mphf.rs:228-245 | on the hashes of a successful build (distinct by `FromHashesDistinct`) `get` is a bijection onto `[0, n)` |
| MphfBijection.FromHashesDistinct | src/mphf.rs:52-90 | a successful build had pairwise distinct hashes |
| MphfBijection.GetSpecBound | src/mphf.rs:228-229 | any answer, also for a foreign key, is below the number of ones |
| MapWithDict.ValidKeysDistinct | src/map_with_dict.rs:59-69 | the keys of a built map are pairwise distinct |
| MapWithDict.Get | src/map_with_dict.rs:81-94 | `Some` exactly when the key is stored, and then the stored key's value |
| MapWithDict.ContainsKey | src/map_with_dict.rs:110-117 | true exactly when the key is stored, agreeing with `get` |
| MapWithDict.GetBuilt | src/map_with_dict.rs:81-117 | for a map built from `pairs`: `get(k) == Some(v)` iff `(k, v)` is a pair, `None` iff `k` is no key, `contains_key` iff `k` is a key |
| MapWithDict.LenBuilt | src/map_with_dict.rs:98-106 | `len` is the number of pairs; `is_empty` iff there are none |
| MapWithDict.IterBuilt | src/map_with_dict.rs:121-145 | `iter` yields slot `j`'s key with its value, exactly the input pairs; `keys` and `values` yield only input keys and values |
| MapWithDict.FirstOccurrencesStep | src/map_with_dict.rs:45-54 | reading a value keeps the dictionary "each value once, in first-occurrence order": a seen value changes nothing, a new one is appended |
| MapWithDict.FirstOccurrencesNew | src/map_with_dict.rs:48-53 | a new value appended last occurs first after every earlier value |
| MapWithDict.CacheLookup | src/map_with_dict.rs:45 | the offsets cache holds a value iff the dictionary does, at that value's offset |
| MapWithDict.CacheInsert | src/map_with_dict.rs:50-53 | inserting the new value at the old dictionary length keeps the cache exact |
| MapWithDict.CollectStep | src/map_with_dict.rs:42-55 | one round of the key loop keeps keys, offsets and dictionary consistent |
| MapWithDict.CollectedAll | src/map_with_dict.rs:42-55 | after the loop every pair's offset points at its value and the dictionary is the first occurrences |
| MapWithDict.Collect | src/map_with_dict.rs:37-55 | keys in input order; `values_dict[values_index[i]]` is pair `i`'s value; the dictionary holds each value once, in first-occurrence order |
| MapWithDict.Swap | src/map_with_dict.rs:66-67 | exchanges two positions and keeps the rest |
| MapWithDict.SwapStep | src/map_with_dict.rs:61-68 | a swap moves a key to its answer, keeps the earlier positions fixed and shrinks the misplaced count |
| MapWithDict.Settle | src/map_with_dict.rs:61-68 | the inner loop ends with position `i` answered by `i`, keys and offsets permuted together |
| MapWithDict.Reorder | src/map_with_dict.rs:59-69 | afterwards `get(keys[j]) == Some(j)` for every `j`, and keys and offsets are the same permutation of their inputs |
| MapWithDict.BuiltAnswers | src/map_with_dict.rs:57-62 | after a successful MPHF build every key is answered below `n`, distinct keys get distinct answers, and the keys are distinct |
| MapWithDict.HashesDistinctKeys | src/map_with_dict.rs:57 | distinct hashes imply distinct keys |
| MapWithDict.BuiltRepresents | src/map_with_dict.rs:71-76 | permuted keys and offsets over the dictionary hold exactly the input pairs |
| MapWithDict.FromIterWithGamma | src/map_with_dict.rs:33-77 | fails exactly as the MPHF build does; on success the map is valid, holds exactly the pairs, keys are distinct and the dictionary is the first occurrences |
| MapWithDict.TryFrom | src/map_with_dict.rs:167-169 | gamma 2: the only possible error is `MaxLevelsExceeded`; success gives a valid map of the entries |
| BitPack.BitWidth | src/map_with_dict_bitpacked.rs:214 | the least `w` with `x < 2^w` |
| BitPack.NumBits | src/map_with_dict_bitpacked.rs:214 | the block's width is at most 32 and every value is below `2^w` |
| BitPack.NumBitsMinimal | src/map_with_dict_bitpacked.rs:214 | the width is minimal: zero, or some value is at least `2^(w-1)` |
| BitPack.NumBitsZero | src/map_with_dict_bitpacked.rs:214 | the width is zero iff every value is zero |
| BitPack.Compress | src/map_with_dict_bitpacked.rs:217 | `4 * w` bytes whose bits, least significant first, are the 32 values' `w`-bit fields in order |
| BitPack.Decompress | src/map_with_dict_bitpacked.rs:240 | reads one block of 32 values from `4 * w` bytes; `BlockRoundTrip` states that they are the compressed values |
| BitPack.PackedSize | src/map_with_dict_bitpacked.rs:220 | `ceil(len * w / 8)` bytes hold `len` values and at most `4 * w` for one block |
| BitPack.BlockRoundTrip | src/map_with_dict_bitpacked.rs:203-245 | the first `len` values decompress back from the kept `ceil(len * w / 8)` bytes followed by any bytes |
| BitPack.BlockLen | src/map_with_dict_bitpacked.rs:207 | a chunk has 32 values, fewer only at the end |
| BitPack.Pad | src/map_with_dict_bitpacked.rs:208-211 | the chunk padded with zeros to 32 values |
| BitPack.PackBlock | src/map_with_dict_bitpacked.rs:213-222 | a record is a width byte of at most 32 followed by `ceil(len * w / 8)` bytes |
| BitPack.Packed | src/map_with_dict_bitpacked.rs:203-224 | the packed bytes are empty iff the values are |
| BitPack.Unpacked | src/map_with_dict_bitpacked.rs:228-245 | reads back exactly `n` values |
| BitPack.PackedHead | src/map_with_dict_bitpacked.rs:235-241 | after the first record the cursor is at the next record |
| BitPack.PackedHeadValues | src/map_with_dict_bitpacked.rs:231-241 | the first record's width byte is at most 32 and its bytes decompress to the first chunk |
| BitPack.PackedRoundTrip | src/map_with_dict_bitpacked.rs:339-352 | packed values followed by at least 128 bytes unpack to the values |
| BitPack.PackValues | src/map_with_dict_bitpacked.rs:203-224 | appends the records of `values` to the dictionary |
| BitPack.UnpackValues | src/map_with_dict_bitpacked.rs:228-245 | fills the buffer with the values read from the dictionary |
| BitPackExamples.Width1Byte | src/map_with_dict_bitpacked.rs:217 | with width 1, byte `k` holds values `8k .. 8k+7`, least significant bit first |
| BitPackExamples.Width4Byte | src/map_with_dict_bitpacked.rs:217 | with width 4, byte `k` holds value `2k` in its low and value `2k+1` in its high nibble |
| BitPackExamples.PackedZeros | src/map_with_dict_bitpacked.rs:303-318 | `n` zeros pack to one zero width byte per block |
| BitPackExamples.PackedZeroExamples | src/map_with_dict_bitpacked.rs:303-318 | `[]`, `[0]`, ten and 77 zeros pack to `[]`, `[0]`, `[0]`, `[0, 0, 0]` |
| BitPackExamples.PackedOneExample | src/map_with_dict_bitpacked.rs:319-322 | `[1]` packs to `[1, 1]` |
| BitPackExamples.PackedTenOnesExample | src/map_with_dict_bitpacked.rs:323-326 | ten ones pack to `[1, 0xFF, 0x03]` |
| BitPackExamples.PackedThirtyTwoOnesExample | src/map_with_dict_bitpacked.rs:327-330 | 32 ones pack to `[1, 0xFF, 0xFF, 0xFF, 0xFF]` |
| BitPackExamples.PackedThirtyThreeOnesExample | src/map_with_dict_bitpacked.rs:331-334 | 33 ones pack to `[1, 0xFF, 0xFF, 0xFF, 0xFF, 1, 1]` |
| BitPackExamples.PackedCountingExample | src/map_with_dict_bitpacked.rs:335-338 | `1..10` packs to `[4, 0x21, 0x43, 0x65, 0x87, 0xA9]` |
| MapWithDictBitpacked.Slot | src/map_with_dict_bitpacked.rs:121-123 | a slot reads back `n` values from its offset |
| MapWithDictBitpacked.Lookup | src/map_with_dict_bitpacked.rs:108-127 | `Some` exactly when the key is stored, and then the stored key's slot vector |
| MapWithDictBitpacked.GetValues | src/map_with_dict_bitpacked.rs:108-127 | answers `true` and fills the buffer with the key's vector exactly when the key is stored; otherwise answers `false` and leaves the buffer alone |
| MapWithDictBitpacked.ContainsKey | src/map_with_dict_bitpacked.rs:143-145 | true exactly when `get_values` would find the key |
| MapWithDictBitpacked.LookupBuilt | src/map_with_dict_bitpacked.rs:108-145 | for a map built from `pairs`: the lookup is `Some(v)` iff `(k, v)` is a pair, `None` iff `k` is no key, `contains_key` iff `k` is a key |
| MapWithDictBitpacked.LenBuilt | src/map_with_dict_bitpacked.rs:131-139 | `len` is the number of pairs; `is_empty` iff there are none |
| MapWithDictBitpacked.IterBuilt | src/map_with_dict_bitpacked.rs:149-177 | `iter(n)` yields exactly the input pairs; `keys` and `values(n)` yield only input keys and vectors |
| MapWithDictBitpacked.CacheHit | src/map_with_dict_bitpacked.rs:67-69 | a cached vector was seen at an earlier pair with that offset, and re-using it keeps the cache exact |
| MapWithDictBitpacked.SameOffsetsHit | src/map_with_dict_bitpacked.rs:67-69 | re-using an equal vector's offset keeps "equal offsets iff equal vectors" |
| MapWithDictBitpacked.CacheMiss | src/map_with_dict_bitpacked.rs:70-74 | a vector missing from the cache differs from every earlier one, and inserting it keeps the cache exact |
| MapWithDictBitpacked.SameOffsetsMiss | src/map_with_dict_bitpacked.rs:70-78 | a fresh offset for a new vector keeps "equal offsets iff equal vectors" |
| MapWithDictBitpacked.PackedAtAppend | src/map_with_dict_bitpacked.rs:77 | appending records leaves earlier records in place |
| MapWithDictBitpacked.CollectHit | src/map_with_dict_bitpacked.rs:67-69 | a cache hit keeps the key-loop invariant |
| MapWithDictBitpacked.CollectMiss | src/map_with_dict_bitpacked.rs:70-78 | a cache miss, packing the vector at the dictionary's end, keeps the key-loop invariant |
| MapWithDictBitpacked.CollectedAll | src/map_with_dict_bitpacked.rs:60-79 | after all pairs: equal lengths, keys in order, each offset at its vector's record, equal offsets iff equal vectors |
| MapWithDictBitpacked.Collect | src/map_with_dict_bitpacked.rs:52-79 | succeeds iff all vectors have the first one's length; then every offset points at its vector's record, and offsets are equal iff vectors are |
| MapWithDictBitpacked.RecordRoundTrip | src/map_with_dict_bitpacked.rs:82-123 | a record in the padded dictionary reads back as its vector |
| MapWithDictBitpacked.BuiltSlots | src/map_with_dict_bitpacked.rs:86-96 | after the permutation every slot's key and vector are those of the pair it came from |
| MapWithDictBitpacked.BuiltRepresents | src/map_with_dict_bitpacked.rs:86-103 | the re-ordered map holds exactly the pairs, and slots share an offset iff their vectors are equal |
| MapWithDictBitpacked.FromIterWithParams | src/map_with_dict_bitpacked.rs:48-104 | unequal lengths give `NotEqualValuesLengths`; otherwise fails exactly as the MPHF build, wrapping its error; success gives a valid map holding exactly the pairs, sharing offsets iff vectors are equal, with 128 zero bytes at the dictionary's end |
| MapWithDictBitpacked.TryFrom | src/map_with_dict_bitpacked.rs:193-195 | gamma 2: unequal lengths give `NotEqualValuesLengths`, otherwise the only error is the wrapped `MaxLevelsExceeded` |

## Left out

- `f32` gamma: modelled as a rational `gammaNum / gammaDen`. `ceil(len * gamma)` is exact, with no float rounding.
- The hasher `H` (FxHasher by default) and `Hash` impls: a function parameter `hashKey`. The model does not assume it is injective.
- `size()` of all types: memory accounting, not behaviour.
- rkyv archiving and the `Archived*` access paths: a serialization layer outside the core.
- `BitPacker1x` SIMD code (the `bitpacking` crate) is not part of this model. It is modelled by its scalar layout: 32 values of `w` bits, least significant first, in `4 * w` bytes.
- `HashMap` offsets cache: a Dafny `map`. The `HashMap` input of `try_from` becomes a sequence of entries in iteration order.
- Construction requires fewer than 2^32 keys. A built MPHF sets one level bit per key, so this keeps the level bits under the rank bound below. The `u32` casts in `fastmod32` need no bound: the model takes the level hash and the group count modulo 2^32, as the casts do.
- Rank.RankIsCountBefore, Rank.L1Read and Rank.L2Read require fewer than 2^32 ones (before the queried block, for the two reads). `RankedBits::new` accepts any vector and keeps a 44-bit L1 count. But the query shifts the counter word by `32 + 12 * l2_pos` (src/rank.rs:41), so at `l2_pos = 0` it reads L1 bits 32..43. Those bits are zero only below 2^32. `Rank.L2CountPastBound` shows a counter word whose L1 count is 2^32 reading 1 there.
- `B` and `S` are generic parameters of the `Mphf` model, whose group seeds are `u16`. `MapWithDict<K, V>` holds a bare `Mphf` (src/map_with_dict.rs:18), and `Mphf` declares `B` and `S` without defaults (src/mphf.rs:24). So MapWithDict.FromIterWithGamma takes `B` and `S` as parameters, in its `Params` argument. MapWithDict.TryFrom, MapWithDictBitpacked.FromIterWithParams and MapWithDictBitpacked.TryFrom fix them at 32 and 8, the defaults of `MapWithDictBitpacked`. Its seed-storage type parameter `ST` is not modelled.
- MapWithDict.Len, MapWithDict.IsEmpty, MapWithDictBitpacked.Len, MapWithDictBitpacked.IsEmpty, MapWithDict.Iter, MapWithDict.Keys, MapWithDict.Values, MapWithDictBitpacked.Iter, MapWithDictBitpacked.Keys and MapWithDictBitpacked.Values carry no contract of their own. What they promise is stated by the `LenBuilt` and `IterBuilt` lemmas.
- MapWithDictBitpacked.GetValues, MapWithDictBitpacked.Iter and MapWithDictBitpacked.Values require every slot's record to be readable for `n` values (`Fits`). The crate needs only the slot it reads to be readable. Reads of any length `n` are modelled whenever every slot fits, including the read of a prefix of a vector. A build proves `Fits` only for `n` equal to the length of the vectors, so the model says nothing about other lengths on a built map.
- MphfLevel.WindowAt and MphfLevel.TakeCurrentBits read and write the next segment only when the window spills into it (`bits_2 > 0`). The source always forms a 6-word slice (src/mphf.rs:188). For the last group of a level that slice runs past the end of the buffer, although with `bits_2 == 0` no value read from or written to it matters. The model does not represent that out-of-bounds slice.
- BitPack.Decompress requires `w <= 32`. A width byte above 32 cannot come from `pack_values`.
- MphfHash.HashWithSeed and the murmur finalizer inside MphfHash.BitIndexForSeed are modelled exactly, but only their range is stated. Their distribution properties are not modelled.
- Mphf.Get on a key outside the built set: only the range of the answer is stated (`MphfBijection.GetSpecBound`), as the crate promises nothing more.
- Rank.RankedBits: `get_bit` is the `BitAt` predicate, used inside `Rank.Rank` and `Mphf.Get`.
