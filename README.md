# libmap in Dafny

A model of libmap, a C library that maps byte-string keys to values. The
model covers three parts:

- **The engine** (src/map.c). It is a hash table with separate chaining.
  - A key's bucket is the cdb hash of the key modulo the table size.
  - Each bucket is an ordered list of `(key, key_len, value, val_len)` entries.
  - Lookup scans the key's bucket.
  - Insert is strict. Update falls back to insert. Delete closes the gap in the bucket.
  - Traversal can stop early.
  - After each insert, the table grows along a fixed ladder of 72 prime sizes once the entry count reaches the size.
- **The integer adapters** (src/misc.c). They store 64-bit integers as 8-byte big-endian keys and/or values.
- **The string-key adapters** (include/misc.h). They use a C string together with its terminating NUL as the key.

The modules:

- `CdbHash` (cdb_hash.dfy): the hash as a `bv32` fold, and the loop of `map_hash` proved to compute it.
- `Ladder` (ladder.dfy): the prime ladder, the tier clamp of `map_new`, and the proof that the ladder strictly ascends.
- `Entries` (entries.dfy): the stored entry and the ownership convention.
  - `val_len > 0` means the map holds its own copy of the bytes.
  - `val_len == 0` means the map keeps the caller's pointer as given.
  - A caller's value argument is a pointer `v` together with the `vlen` bytes found behind it.
- `Dictionary` (dictionary.dfy): what select, insert, update and delete mean on the abstract contents, a `map<Key, Entry>`, with lemmas that relate several calls.
- `Buckets` (buckets.dfy): the bucket table as a value, and the invariant on it.
  - Every entry sits in its hash bucket.
  - Keys are unique.
  - The table holds exactly the abstract contents.
  - The lemmas cover appending, replacing and removing one entry, re-inserting during growth, and traversal.
- `Engine` (engine.dfy): `class HashMap` with the fields of `MAP` (`index`, `size`, `count`, and `table` as an array of buckets).
  - Its methods are the engine's operations, written as loops over the buckets.
  - Each method is proved to keep `Valid()` and to implement the `Dictionary` operation.
  - Its contract also states the exact new table where the entry was appended, replaced or removed. After a growth step it states only that the table is a new one at the next tier, with a larger size, holding the same contents and still valid.
- `BigEndian` (big_endian.dfy): `htobe64`/`be64toh` as pure encode/decode between a `uint64_t` and 8 bytes. Round trips, injectivity and order preservation are proved.
- `IntAdapters` (int_adapters.dfy): `map_uv_*`, `map_vu_*`, `map_uu_*`.
- `StringKeys` (string_keys.dfy): `strlen`, the string-to-key derivation and `map_sv_*`.

Choices the model makes:

- **Signed `char` in the hash.** The model reads the key bytes in `map_hash` as signed `char`, as on x86-64, so a byte of 0x80 or more is sign-extended before the exclusive-or. `CdbHash.HashIgnoresSignednessBelow0x80` shows that the unsigned reading gives the same hash on bytes below 0x80.
- **Negative tiers.** `map_new` compares its `int` tier with an unsigned `size_t` element count. A negative tier therefore converts to a huge value modulo 2^64 and is clamped to the last tier, like a tier that is too large.
- **Tier argument only.** includes/map/map.h:48 declares a two-argument `map_new` with a value destructor. The definition at src/map.c:56 takes only the tier, and the model follows that definition. (include/map.h:25 declares only `rs_map_new0`.)
- **Unwritten out-parameters.** Where the C code leaves an out-parameter unwritten, the model takes the caller's previous value (`v0`, `vlen0`) and returns it unchanged.

## Model

| member | source | states |
|---|---|---|
| CdbHash.Widen | src/map.c:37 | a byte read through signed `char`: the low 8 bits are the byte; bytes below 0x80 are unchanged; bytes of 0x80 or more get all 24 high bits set |
| CdbHash.HashLoop | src/map.c:29-39 | the hash loop, starting from 5381 and applying `h = (h + (h << 5)) ^ s[i]` modulo 2^32, computes the fold `Hash` of the whole key |
| CdbHash.BucketOf | src/map.c:120 | the bucket index `hash % size` is always a valid bucket (`< size`) |
| CdbHash.HashIgnoresSignednessBelow0x80 | src/map.c:36-37 | on keys with every byte below 0x80, the signed and unsigned readings of `char` give the same hash |
| CdbHash.SignednessMattersAbove0x80 | src/map.c:37 | the one-byte key 0x80 hashes differently under the signed and unsigned readings of `char` |
| Ladder.SizeT | src/map.c:63 | an `int` converted to `size_t` is below 2^64, keeps a non-negative value, and turns a negative one into a value of at least 2^64 - 2^31 |
| Ladder.ClampTier | src/map.c:63-64 | the tier used is the `int` tier, converted to `size_t` as the comparison does, when that is on the ladder, and the last tier (71) otherwise; the result is always a valid tier |
| Ladder.PrimesAscending | src/map.c:41-51 | the 72-entry size ladder is strictly ascending and starts at 3 |
| Ladder.LadderAscending | src/map.c:41-51 | any higher tier has strictly more buckets than any lower one, and every size is positive |
| Ladder.TierSizePositive | src/map.c:65 | every tier has at least one bucket, so `hash % size` is defined |
| Entries.MakeEntry | src/map.c:155-168 | the written entry has the given key and obeys the ownership convention (val_len is the owned copy's length, 0 exactly for a borrowed pointer); reading it back as growth does gives the caller's bytes, and the caller's pointer when vlen is 0 |
| Entries.ReinsertRebuilds | src/map.c:200 | re-inserting an entry with its own value pointer and val_len, as growth does, rebuilds the identical entry |
| Dictionary.OperationsKeepKeyed | src/map.c:141-271 | insert, update and delete keep every entry filed under its own key and well formed |
| Dictionary.CardinalityChanges | src/map.c:169-170 | a successful insert adds exactly one key, a successful delete removes exactly one, and an update of a present key keeps the number of keys |
| Dictionary.InsertThenSelect | src/map.c:141-173 | after a successful insert, select returns 0 with the given bytes (or pointer) and vlen |
| Dictionary.DeleteTwice | src/map.c:250-271 | after a delete the key is absent, and a second delete returns -1 and changes nothing |
| Dictionary.UpdateAbsentIsInsert | src/map.c:247 | on an absent key, update is exactly insert, succeeds for a non-NULL or non-empty value, and a later select finds that value |
| Dictionary.UpdateLeavesOthers | src/map.c:227-245 | an update never adds, removes or changes any other key |
| Buckets.SumLensUpdate | src/map.c:169-170 | changing one bucket changes the sum of the bucket counts by exactly that bucket's change |
| Buckets.SumLensEmpty | src/map.c:75-79 | a table of empty buckets holds no entries |
| Buckets.FlattenLength | src/map.c:280-287 | the traversal sequence has as many entries as the bucket counts add up to |
| Buckets.FlattenMembers | src/map.c:280-287 | an entry is in the traversal sequence iff it is in some bucket |
| Buckets.FlattenIsContents | src/map.c:280-287 | in a table that keeps the invariant, the traversal visits exactly the stored entries |
| Buckets.HasKeyExtend | src/map.c:121-128 | scanning one more entry of a bucket adds exactly that entry's key to the keys seen |
| Buckets.Lookup | src/map.c:119-129 | a key is stored iff an entry with that key is in the key's own bucket, and the entry found there is the stored one |
| Buckets.AppendKeepsTable | src/map.c:151-170 | appending a new key's entry at the end of its bucket keeps placement and uniqueness, and adds exactly that entry to the contents |
| Buckets.ReplaceKeepsTable | src/map.c:232-243 | overwriting the value of an entry in place keeps the invariant and rebinds just that key |
| Buckets.RemoveKeepsTable | src/map.c:262-267 | removing an entry and shifting the later ones down keeps the invariant and drops just that key |
| Buckets.MovedNextEntry | src/map.c:198-201 | re-inserting the next entry of the old table adds exactly that entry, under a key not yet moved |
| Buckets.MovedNextBucket | src/map.c:196-204 | once a bucket is fully moved, exactly the keys of the buckets before the next one have been moved |
| Buckets.MovedBounds | src/map.c:196-204 | nothing has been moved before the loop; after it, the new map holds all of the old contents |
| Buckets.WalkStopsEarly | src/map.c:284-285 | once a callback asks to stop, the result does not depend on any later entry |
| Buckets.WalkResult | src/map.c:280-288 | a traversal returns 0 or -1; it returns 0 exactly when none of the callbacks it makes asks to stop, and then yields the context after every entry; otherwise it returns -1 with the context of the first callback that stopped, every earlier callback having declined |
| Engine.AppendStep | src/map.c:151-170 | appending a new key's entry and counting it keeps the map invariant (placement, uniqueness, count is the sum of the bucket counts and the number of keys) |
| Engine.ReplaceStep | src/map.c:239-243 | replacing an entry's value in place keeps the map invariant with the count unchanged |
| Engine.RemoveStep | src/map.c:262-267 | removing an entry keeps the map invariant with count decremented, and count was positive |
| Engine.ReinsertStep | src/map.c:141-142 | during growth, re-insertion of an entry is refused exactly when it holds a borrowed NULL (which then was in the old contents); otherwise it moves that entry |
| Engine.Scan | src/map.c:145-149 | the bucket scan returns the position of the entry with an equal key (same length and bytes), or -1 exactly when there is none |
| Engine.HashMap.constructor | src/map.c:56-84 | a new map is at the clamped tier, with `size = primes_sizes[index]`, count 0, every bucket empty, no contents, and the invariant holding |
| Engine.HashMap.Select | src/map.c:112-130 | returns 0 with the stored value and val_len iff the key is present, else -1 with the out-parameters untouched; it changes nothing |
| Engine.HashMap.Append | src/map.c:151-170 | the new entry is appended at the end of its bucket, count grows by one, nothing else changes, and the invariant holds |
| Engine.HashMap.ReplaceAt | src/map.c:232-243 | the entry at its position gets the new value and val_len, count and all other entries are unchanged, and the invariant holds |
| Engine.HashMap.RemoveAt | src/map.c:262-267 | the entry is removed, the later entries of the bucket shift down in order, count drops by one, and the invariant holds |
| Engine.HashMap.InsertAux | src/map.c:134-177 | refuses (-1, no change) a NULL pointer with vlen 0 and a present key; otherwise appends the entry at the end of its bucket, counts it, and grows when asked and due; the contents become Dictionary.Insert's |
| Engine.HashMap.Transform | src/map.c:179-211 | growth fires only when count >= size below the last tier; it then moves to tier index+1 with a strictly larger table and the same contents and count; otherwise nothing changes |
| Engine.HashMap.MoveAll | src/map.c:196-204 | re-inserting every bucket in order moves all the old contents into the new map, and fails only when some entry holds a borrowed NULL |
| Engine.HashMap.MoveBucket | src/map.c:198-203 | re-inserting one bucket's entries in order moves exactly that bucket, and fails only when some entry holds a borrowed NULL |
| Engine.HashMap.Insert | src/map.c:213-216 | insert with growth enabled; the outcome is as for InsertAux |
| Engine.HashMap.Update | src/map.c:218-248 | on a present key: -1 and no change when exactly one of the old and new vlen is 0, else the value and val_len are replaced in place with count and other entries unchanged; on an absent key: exactly insert |
| Engine.HashMap.Delete | src/map.c:250-272 | on a present key: the entry is removed, later entries keep their order, count drops by one; on an absent key: -1 and no change |
| Engine.HashMap.Foreach | src/map.c:274-289 | the callback sees the entries in bucket order, then position order; the result is -1 right after the first callback that stops, 0 when none does, and later entries are never visited |
| Engine.HashMap.TraversalCoversContents | src/map.c:280-287 | the traversal visits exactly the stored entries, count of them |
| BigEndian.Encode | src/misc.c:27 | htobe64 gives exactly 8 bytes |
| BigEndian.Decode | src/misc.c:62 | be64toh of 8 bytes is the integer whose encoding is those bytes |
| BigEndian.FromToBytes | src/misc.c:27 | reading back the n big-endian bytes of a number below 256^n gives the number |
| BigEndian.ToFromBytes | src/misc.c:62 | writing out the number a byte sequence denotes gives the sequence back |
| BigEndian.PushByte | src/misc.c:27 | shifting a number up one byte and adding b appends b to its encoding |
| BigEndian.DecodeEncode | src/misc.c:62 | decoding an encoded integer gives the integer back |
| BigEndian.EncodeInjective | src/misc.c:27 | two integers have the same encoding iff they are equal |
| BigEndian.LexLessSnoc | src/misc.c:27 | extending two equal-length byte strings by one byte each: the prefixes decide, and the new bytes decide only when the prefixes are equal |
| BigEndian.ToBytesOrder | src/misc.c:27 | for numbers that fit in n bytes, a < b iff the encoding of a is below that of b byte by byte |
| BigEndian.EncodeOrder | src/misc.c:27 | for unsigned 64-bit a and b, a < b iff memcmp puts the encoding of a first |
| IntAdapters.SelectInt | src/misc.c:52-64 | -1 iff the key is absent; on a hit with 8 bytes, 0 and the integer those bytes encode; on a hit of any other length, 0 with `*v` unwritten |
| IntAdapters.UvSelect | src/misc.c:24-29 | finds exactly what map_select finds under the 8-byte big-endian key |
| IntAdapters.UvInsert | src/misc.c:31-36 | map_insert under the encoded key, with the value passed through |
| IntAdapters.UvUpdate | src/misc.c:38-43 | map_update under the encoded key, with the value passed through |
| IntAdapters.UvDelete | src/misc.c:45-50 | map_delete under the encoded key |
| IntAdapters.VuSelect | src/misc.c:52-64 | the result is SelectInt on the map's contents |
| IntAdapters.VuInsert | src/misc.c:66-71 | map_insert of an owned 8-byte big-endian value |
| IntAdapters.VuUpdate | src/misc.c:73-78 | map_update with an owned 8-byte big-endian value |
| IntAdapters.VuDelete | src/misc.c:80-83 | exactly map_delete, with no encoding |
| IntAdapters.UuSelect | src/misc.c:85-98 | the result is SelectInt under the encoded key |
| IntAdapters.UuInsert | src/misc.c:100-106 | map_insert of both encodings |
| IntAdapters.UuUpdate | src/misc.c:108-114 | map_update with both encodings |
| IntAdapters.UuDelete | src/misc.c:116-119 | exactly map_uv_delete |
| IntAdapters.IntInsertFailsOnlyWhenPresent | src/misc.c:66-71 | an integer-valued insert is refused iff the key is present (the NULL check never fires), and otherwise stores the 8 owned bytes |
| IntAdapters.IntInsertThenSelect | src/misc.c:85-106 | after a successful integer insert, an integer select of the same key returns 0 and yields the integer inserted |
| IntAdapters.IntUpdateThenSelect | src/misc.c:73-78 | after a successful integer update, an integer select of the same key returns 0 and yields the integer written |
| IntAdapters.IntUpdateRefusedOnBorrowed | src/misc.c:108-114 | an integer update is refused (-1, no change) iff the key holds a borrowed (vlen 0) value |
| IntAdapters.IntSelectOnOtherLength | src/misc.c:58-60 | a hit on a value that is not 8 bytes long returns 0 and leaves `*v` as it was |
| IntAdapters.IntDeleteThenSelect | src/misc.c:116-119 | after an integer-key delete, an integer select of that key returns -1, and a second delete returns -1 with no change |
| IntAdapters.IntKeysIndependent | src/misc.c:24-50 | insert, update and delete under one integer key never change what a different integer key selects |
| StringKeys.Strlen | include/misc.h:29 | strlen is the position of the first NUL: the byte there is 0 and no earlier byte is |
| StringKeys.Chars | include/misc.h:29 | the characters of a string contain no NUL |
| StringKeys.StrKey | include/misc.h:29 | the key is the characters followed by one NUL: nonempty, length strlen+1, ending in 0 |
| StringKeys.StrKeyInjective | include/misc.h:29 | two strings give the same key iff they have the same characters, whatever follows their terminators; dropping the key's last byte gives the characters back |
| StringKeys.SvSelect | include/misc.h:27-30 | map_select under the string's key |
| StringKeys.SvInsert | include/misc.h:31-34 | map_insert under the string's key |
| StringKeys.SvUpdate | include/misc.h:35-38 | map_update under the string's key |
| StringKeys.SvDelete | include/misc.h:39-42 | map_delete under the string's key |
| StringKeys.SvInsertThenSelect | include/misc.h:27-34 | after a successful string insert, a select with any copy of the same string returns 0 with the given bytes (or pointer) and vlen |
| StringKeys.SvDeleteThenSelect | include/misc.h:39-42 | after a string delete, a select with any copy of that string returns -1 and writes nothing |
| StringKeys.SvStringsIndependent | include/misc.h:27-42 | insert, update and delete under one string never change what a different string selects |

## Left out

- Allocation failure is not modelled: neither `calloc` in `map_new`, nor `realloc`/`malloc` in insert, update and growth. Every allocation is taken to succeed.
- Raw memory operations are not modelled. `memcpy` and `memmove` become sequence operations, and `free` is left out.
- `map_free` is not modelled, because it only releases memory.
- `map_new0` is not modelled separately; it is `map_new(0)`.
- Engine.HashMap.InsertAux: it models the evident intent of growing the bucket array by one. The call at src/map.c:151 reallocates `kv`, which is the last entry scanned, or an uninitialised pointer when the bucket is empty, instead of `b->arr`.
- Engine.HashMap.Transform: it models growth as all or nothing.
  - On success the map takes the new table with the same contents.
  - If a re-insertion is refused, the map is left exactly as it was.
  - The code instead frees each old bucket array as it goes (src/map.c:203) and then runs `map_free` on the swapped-out table (src/map.c:209). On success that is a use-after-free; on failure it also leaves the map with freed buckets.
  - The refusal itself is kept: an entry whose value is a borrowed NULL fails the NULL check on re-insertion. Only update can store such an entry.
- Engine.HashMap.Insert: `count` is `uint64_t` and `size` is `int` in C. The model uses unbounded integers. The ladder's largest size (7199369) and any reachable count are far below both limits.
- CdbHash.HashLoop: the key length is narrowed to `int` for hashing. Keys of 2^31 bytes or more are not modelled.
- A NULL key pointer is not modelled. `map_hash` returns the seed for it, but the later comparison would read through it. Keys are always byte sequences.
- Engine.HashMap.Foreach: the callback is a pure function from the user context and one entry to the next context and a stop flag. A callback that changes the map during traversal is not modelled, and neither is the `MAP *` argument it receives.
- Borrowed pointers are opaque tokens compared only for equality. What they point to, and aliasing between them, are outside the model.
- The bytes behind an owned value's pointer are passed in as a sequence. When the adapters pass their local big-endian buffer, its address is irrelevant, because the engine copies the bytes.
- Host byte order and `<endian.h>` are not modelled. `htobe64` and `be64toh` are pure big-endian encode and decode, the same on every host.
- CdbHash.Widen: the model fixes signed `char`. On unsigned-`char` targets, keys with bytes of 0x80 or more can hash differently, and then land in different buckets. Select, insert, update and delete give the same results, but the order in which `map_foreach` visits entries differs (`CdbHash.SignednessMattersAbove0x80`).
- The ladder's entries are not proved prime. Only their values, their order and their positivity are used.
- includes/map/map.h is not part of this model. It declares a value destructor, `map_purge`, const keys and another callback type, none of which src/map.c implements.
- A NULL value pointer with vlen > 0 is not modelled. The C code would copy vlen bytes from NULL (src/map.c:164 and src/map.c:237), which is undefined behaviour. In the model the value argument is the pointer together with the bytes found behind it, so such a call stores those bytes and succeeds.
- StringKeys.Strlen: a string with no NUL in memory is excluded by its precondition. `strlen` would read past the end.
