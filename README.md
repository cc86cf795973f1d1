# hmap: chained hash tables with ownership

This project models the core of the C library `hmap`.

- **Generic table** (`src/hmap/hmap.c`, module `GenericTable`). A chained hash table whose keys and values are opaque pointers. The caller supplies four callbacks: hash, equals, release-key and release-value.
- **String table** (`src/hmap/smap.c`, module `StringTable`).
  - Keys are C strings. The table hashes them with the seeded djb2 of `src/hmap/djb2.c` (module `Djb2`) and compares them with `strcmp`.
  - On insertion it keeps its own `strdup` copy of the key. Values go to a single release callback.
- **Shared layout** (module `Chains`). Both tables have the same shape, stated once at the value level:
  - The table is an array of buckets.
  - Each bucket is a singly linked chain closed by a self-pointing sentinel head. A chain is modelled as the sequence of its entries from the head on.
  - The table starts with 16 buckets.
  - `add` grows the table first when `entry_count > ⌊7·bucket_count/10⌋`. Growth doubles the bucket count and moves every entry, bucket by bucket and head first, to the head of its new bucket.
  - A fresh key is prepended to its bucket. An equal key has its entry overwritten.
  - `remove` unlinks the entry.
  - `contains` is `get(...) != NULL`, so a key stored with a NULL value reports absent.
  - The iterator walks the buckets in order and each chain from its head.

**The classes.**
- `HashMap` and `StringMap` hold the C struct's fields: `seed`, `entryCount`, `bucketCount`, and `buckets`, an array of chains. `HashMap` also holds the hash callback, as `struct hmap` does. `struct smap` has no hash field, because it calls `smap_djb2` directly. The constant `hash` of `StringMap` exists only in the model (see "## Left out").
- Their ghost state:
  - `Model()`: the map the table stands for.
  - `Growths`: how often the table has doubled.
  - The ownership ledgers.
- `Valid()` holds these invariants:
  - every entry sits in bucket `hash(key, seed) mod bucket_count`;
  - keys are unique;
  - `entry_count` is the number of entries;
  - `bucket_count` is `16·2^Growths`;
  - the fill level is at most one above the threshold;
  - `Taken == Released + entries`: every pair handed to `add` is either stored or has been released, exactly once.

**The string table's key ledger.** `Copies` counts every `strdup`, and `Freed` counts every `free` of a key copy. `KeyBooks` (`Copies == Freed + keys of the table`) is preserved by every operation. At `release`, this ledger gives `Freed == Copies`.

**Iterators.** The iterators are classes over a snapshot of the buckets. `Index()` is the position in the flattened bucket order, which is the visit order.

## Model

| member | source | states |
|---|---|---|
| Djb2.Hash | src/hmap/djb2.c:3-14 | the loop returns the djb2 hash of the bytes before the first NUL, starting from 5381 + seed, with `*33` and `^` wrapping at 64 bits |
| Djb2.StrLen | src/hmap/djb2.c:7-11 | the loop stops at the first NUL byte: the result indexes a NUL, and no byte before it is NUL |
| Djb2.FoldSnoc | src/hmap/djb2.c:7-11 | one more byte is exactly one more round `(h * 33) ^ c` on the hash so far |
| Djb2.StrLenOfTerminated | src/hmap/djb2.c:7 | in `s + NUL + rest` with `s` free of NUL, the loop stops right after `s` |
| Djb2.Terminator | src/hmap/djb2.c:3-14 | bytes after the terminating NUL never affect the hash; the seed only shifts the start value |
| Djb2.EmptyKey | src/hmap/djb2.c:5 | the empty string hashes to 5381 + seed (mod 2^64) |
| Djb2.AppendByte | src/hmap/djb2.c:9 | appending a non-NUL byte `c` maps hash `h` to `(h * 33) ^ c` |
| Chains.Threshold | src/hmap/hmap.c:45-48 | the threshold is ⌊7·n/10⌋ (`hmap_getthreshold`, and `smap_getthreshold` at src/hmap/smap.c:43-46): ten times it is at most 7n and within ten of it, and it stays below any positive bucket count |
| Chains.ThresholdDoubling | src/hmap/hmap.c:45-48 | doubling the bucket count raises ⌊7n/10⌋ by at least one, so the fill level stays within one of the threshold after the growth check |
| Chains.Capacity | src/hmap/hmap.c:104 | the bucket count, 16 doubled once per growth, is never below 16 |
| Chains.Find | src/hmap/hmap.c:187-196 | the chain scan finds nothing exactly when no entry has the key, and a found value belongs to an entry with that key |
| Chains.FindFirst | src/hmap/hmap.c:188-196 | after passing `j` entries without a match, the scan's answer is the entry at `j`, or none at the sentinel |
| Chains.FindUnique | src/hmap/hmap.c:187-196 | with unique keys, a lookup returns `v` for `k` exactly when the pair `(k, v)` is stored |
| Chains.MapOfPerm | src/hmap/hmap.c:62-79 | the same entries in another order, keys unique, stand for the same map |
| Chains.UniqueAdd | src/hmap/hmap.c:166-175 | adding an entry keeps keys unique exactly when its key is new |
| Chains.UniqueKeySetSize | src/hmap/hmap.c:174 | with unique keys, the number of keys equals the number of entries |
| Chains.Listing | src/hmap/hmap.c:245-272 | a walk over entries with unique keys meets every key of the map once, each with its value, and the map has as many keys as there are entries |
| Chains.Enumerated | src/hmap/hmap.c:245-286 | keys and values read position by position list every key of the map exactly once, with its value |
| Chains.FindLocal | src/hmap/hmap.c:35-42 | when every entry sits in its hash bucket, looking in the key's bucket alone answers as the whole table does |
| Chains.ChainSearch | src/hmap/hmap.c:147-164 | the search loop stops at an entry exactly when the table holds the key, and that entry holds the key's value |
| Chains.FindUpdate | src/hmap/hmap.c:154-161 | overwriting the first entry with a key changes that key's lookup only |
| Chains.FindRemove | src/hmap/hmap.c:216-229 | unlinking the only entry with a key removes that key's lookup and nothing else |
| Chains.InsertFresh | src/hmap/hmap.c:166-175 | prepending an entry with a new key keeps the layout, adds the entry once and maps the key to the value |
| Chains.BucketListing | src/hmap/hmap.c:152-164 | inside a bucket, keys are pairwise distinct and each entry is the one the table maps its key to |
| Chains.OverwriteAt | src/hmap/hmap.c:154-161 | overwriting in place keeps the layout and the entry count, swaps the old pair for the new one, and updates the map at that key |
| Chains.UnlinkAt | src/hmap/hmap.c:218-226 | unlinking keeps the layout, removes exactly that pair, decreases the count by one and removes that key from the map |
| Chains.StoredOverwrite | src/hmap/hmap.c:154-161 | an overwrite keeps the ledger: the new pair is taken, the old pair released, and the count is unchanged |
| Chains.StoredInsert | src/hmap/hmap.c:166-175 | an insert of a new key keeps the ledger: the pair is taken and stored, and the count grows by one |
| Chains.StoredUnlink | src/hmap/hmap.c:218-226 | a removal keeps the ledger: the pair is released, and the count drops by one |
| Chains.DistributeLayout | src/hmap/hmap.c:50-86 | moving all entries into fresh buckets gives a valid layout holding exactly those entries, hence the same map |
| Chains.StoredRehash | src/hmap/hmap.c:50-86 | rehashing keeps the count, the ledger and the map |
| Chains.OffsetStep | src/hmap/hmap.c:263-269 | stepping over a bucket advances the visit position by that bucket's length; entry `p` of bucket `b` is visited at position `Offset(b) + p` |
| Chains.KeysListed | src/hmap/smap.c:107-122 | with unique keys, the keys of the entries counted with repetition are the map's keys, each once |
| GenericTable.HashMap.constructor | src/hmap/hmap.c:88-112 | a new table has 16 empty buckets, count 0, the given seed and hash, an empty map and empty ledgers |
| GenericTable.HashMap.Rehash | src/hmap/hmap.c:50-86 | the bucket count doubles; the new buckets are the old entries redistributed in visit order; map and count are unchanged |
| GenericTable.HashMap.Add | src/hmap/hmap.c:137-177 | the table grows iff the count exceeded the threshold before the lookup; the map becomes `old[key := value]`; the count grows iff the key was new; the pair is taken; on overwrite the old pair (key and value) is released; the bucket array is the old one or a freshly allocated one |
| GenericTable.HashMap.Put | src/hmap/hmap.c:147-175 | overwrite or insert after the growth check, with the same effect on map, count and ledger; a new key's entry is prepended to bucket `hash(key, seed) mod n`, and an existing key's entry in that bucket is replaced in place, with every other entry and bucket unchanged |
| GenericTable.HashMap.Overwrite | src/hmap/hmap.c:154-161 | entry `j` of bucket `b` is replaced in place by the new key and value, and nothing else in the buckets changes; the old pair is released; the map changes at that key only |
| GenericTable.HashMap.Insert | src/hmap/hmap.c:166-175 | the new entry is prepended to bucket `b`, and nothing else in the buckets changes; the count grows by one; the map gains the key |
| GenericTable.HashMap.Locate | src/hmap/hmap.c:35-42 | the bucket is `hash(key, seed) mod bucket_count`; the scan stops before the sentinel exactly when the key is present, at its entry |
| GenericTable.HashMap.Get | src/hmap/hmap.c:179-199 | returns the value stored under the key, or NULL when there is none |
| GenericTable.HashMap.Contains | src/hmap/hmap.c:201-206 | true exactly when the key is present with a non-NULL value |
| GenericTable.HashMap.Remove | src/hmap/hmap.c:208-231 | the map loses the key; the count drops and the pair is released iff the key was present; an absent key leaves the buckets unchanged, and a present key's entry is cut out of bucket `hash(key, seed) mod n`, with every other entry and bucket in place |
| GenericTable.HashMap.Unlink | src/hmap/hmap.c:218-226 | entry `j` is cut out of chain `b`, with every other entry and bucket in place; its pair is released, and the count drops by one |
| GenericTable.HashMap.Release | src/hmap/hmap.c:114-135 | every stored pair is released once; afterwards everything ever added has been released exactly once (`Released == Taken`) |
| GenericTable.Spread | src/hmap/hmap.c:53-79 | the loops build exactly the redistribution of the old entries, visited bucket by bucket and head first |
| GenericTable.CountIsSize | src/hmap/hmap.c:174 | `entry_count` equals the number of keys in the map |
| GenericTable.HashMapIter.constructor | src/hmap/hmap.c:233-243 | a new iterator stands before the first entry (position -1) |
| GenericTable.HashMapIter.Next | src/hmap/hmap.c:245-272 | advances to the next entry in visit order, skipping empty buckets; answers true iff it stands on an entry; past the end it stays put |
| GenericTable.HashMapIter.Key | src/hmap/hmap.c:281-286 | the current entry's key, or NULL before the first `next` and at the end |
| GenericTable.HashMapIter.Value | src/hmap/hmap.c:274-279 | the current entry's value, or NULL before the first `next` and at the end |
| GenericTable.Drain | src/hmap/hmap.c:245-286 | a client loop of `next`, `key` and `value` reads the entries in visit order, each once |
| GenericTable.Entries | src/hmap/hmap.c:233-286 | iterating a table yields every key of the map exactly once, each with its value |
| StringTable.KeepCopy | src/hmap/smap.c:145-151 | an overwrite makes no key copy and frees none, and keeps the key ledger |
| StringTable.CopyFresh | src/hmap/smap.c:156-165 | the `strdup` of a new key keeps the key ledger exactly when it held before |
| StringTable.FreeCopy | src/hmap/smap.c:209-217 | freeing the removed key's copy keeps the key ledger exactly when it held before |
| StringTable.BucketOf | src/hmap/smap.c:33-41 | the bucket is the djb2 hash of the key's bytes, with the given seed, mod the bucket count |
| StringTable.StringMap.constructor | src/hmap/smap.c:86-103 | a new table has 16 empty buckets, count 0, the given seed and the djb2 hash, and empty ledgers that balance |
| StringTable.StringMap.Rehash | src/hmap/smap.c:48-83 | the bucket count doubles; the new buckets are the old entries redistributed in visit order; map and count are unchanged |
| StringTable.StringMap.Add | src/hmap/smap.c:128-166 | growth iff the count exceeded the threshold before the lookup; the map becomes `old[key := value]`; the count grows iff the key was new; a copy of the key is made iff it was new; on overwrite only the old value is released; the key ledger is kept; the bucket array is the old one or a freshly allocated one |
| StringTable.StringMap.Put | src/hmap/smap.c:138-165 | the same effect as `Add` after the growth check, including the key ledger; a new key's entry is prepended to its bucket, and an existing key's entry keeps its key copy and gets the new value in place, with every other entry unchanged |
| StringTable.StringMap.Overwrite | src/hmap/smap.c:145-151 | entry `j` of bucket `b` keeps its key copy and gets the new value in place, and nothing else in the buckets changes; the old value is released |
| StringTable.StringMap.Insert | src/hmap/smap.c:156-165 | a new entry holding a copy of the key is prepended to bucket `b`, and nothing else in the buckets changes; one copy is made; the count grows by one |
| StringTable.StringMap.Locate | src/hmap/smap.c:138-154 | the key's bucket, then a scan that stops before the sentinel exactly when an equal key is present, at its entry |
| StringTable.StringMap.Get | src/hmap/smap.c:168-189 | returns the value stored under the key, or NULL when there is none |
| StringTable.StringMap.Contains | src/hmap/smap.c:191-196 | true exactly when the key is present with a non-NULL value |
| StringTable.StringMap.Remove | src/hmap/smap.c:198-223 | the map loses the key; iff it was present, the count drops, its copy is freed and its value released; the key ledger is kept; an absent key leaves the buckets unchanged, and a present key's entry is cut out of its bucket, with every other entry and bucket in place |
| StringTable.StringMap.Unlink | src/hmap/smap.c:209-217 | entry `j` is cut out of chain `b`, with every other entry and bucket in place; its key copy is freed, its value released, and the count drops by one |
| StringTable.StringMap.Release | src/hmap/smap.c:105-126 | every stored key copy is freed and every stored value released, once each; afterwards `Released == Taken`, and every copy ever made has been freed (`Freed == Copies`) iff the key ledger held |
| StringTable.Sweep | src/hmap/smap.c:107-122 | the loops visit exactly the stored entries, bucket by bucket and head first |
| StringTable.Spread | src/hmap/smap.c:53-77 | the loops build exactly the redistribution of the old entries by their djb2 bucket |
| StringTable.CountIsSize | src/hmap/smap.c:164 | `entry_count` equals the number of keys in the map |
| StringTable.StringMapIter.constructor | src/hmap/smap.c:225-232 | a new iterator stands before the first entry (position -1) |
| StringTable.StringMapIter.Next | src/hmap/smap.c:234-261 | advances to the next entry in visit order, finding the end from the last bucket each time; answers true iff it stands on an entry; past the end it stays put |
| StringTable.StringMapIter.Key | src/hmap/smap.c:263-269 | the current entry's key, or NULL before the first `next` and at the end |
| StringTable.StringMapIter.Value | src/hmap/smap.c:271-277 | the current entry's value, or NULL before the first `next` and at the end |
| StringTable.Drain | src/hmap/smap.c:234-277 | a client loop of `next`, `key` and `value` reads the entries in visit order, each once |
| StringTable.Entries | src/hmap/smap.c:225-277 | iterating a table yields every key of the map exactly once, each with its value |

## Left out

- Allocation failure is not modelled: `malloc` and `strdup` always succeed here. The C code does not check their results either.
- `size_t` overflow of the bucket count and the entry count is not modelled; the counts are unbounded naturals. The first product to wrap would be `7 * bucket_count` in `hmap_getthreshold` and `smap_getthreshold`, at 2^62 buckets. `Chains.Threshold` is ⌊7·n/10⌋ only below that size. Doubling the bucket count would wrap only at 2^63 buckets.
- GenericTable.HashMap: the seed is a natural number, and the hash callback is any function of key and seed with a natural-number result. Their 64-bit `size_t` width and the callback's internals are not modelled; `%` on unsigned values agrees with Dafny's `%` on naturals.
- GenericTable.HashMap: the equals callback is modelled as equality of keys. The library assumes, without checking, that it agrees with the hash.
- The release callbacks, `free` and `strdup` are recorded in ghost ledgers rather than performed. Memory, and the sentinel's pointer identity, are not modelled; a position equal to a chain's length stands for its sentinel.
- Changing a table while an iterator is in use is excluded. The iterator's `Valid()` requires the buckets to equal its snapshot; the C code leaves that case undefined.
- The iterators are given a table with at least one bucket, which every table has.
- The iterator's `bucket_id` is `size_t` in the headers, and `init` sets it to -1, that is SIZE_MAX. The model uses the integer -1, which nothing reads before `next` sets the field to 0.
- `smap_djb2` reads `char`, which may be signed, and a signed byte would be sign-extended before `^`. The model takes bytes as unsigned 8-bit values.
- StringTable.StringMap: the bucket hash is the constant `hash`, which the constructor sets to `StrHash` (the djb2 of the key's bytes with the seed). `BucketOf` shows that this is what the byte loop of `smap_djb2` computes. Within the table, a key is the byte content of the C string; a NUL-free key is required only where the hash is computed from a terminated buffer.
- StringTable.StringMap: the key ledger `KeyBooks` is not part of `Valid()`. Each operation instead states that it preserves the ledger (an if-and-only-if between before and after). `Release` turns the ledger into `Freed == Copies`.
- The `hmap.h` header declares `hmap_create` without the `seed` parameter that `hmap.c` takes; the model follows `hmap.c`.
- Helper members without a counterpart of their own in C: `Locate`, `Put`, `Overwrite`, `Insert`, `Unlink`, `Spread`, `Sweep`, `Drain`. They split the C functions' bodies into pieces whose contracts are proved separately.
