/** The string-keyed chained hash table of src/hmap/smap.c.

    The layout is the generic table's: buckets of chains, new entries at the
    head, growth by doubling.  What differs is ownership and hashing.  A key is
    a C string, given here by its contents; the table hashes it with the seeded
    djb2 of src/hmap/djb2.c, which the constructor fixes in the constant
    `hash`, and compares it with `strcmp`, that is, by contents.  A fresh key
    is stored as a copy (`strdup`), which the table frees on `remove` and
    `release`; an overwrite keeps the stored copy.  Values go to the single
    `release_value` callback.

    Two ghost ledgers record ownership.  `Taken` holds every pair handed to
    `add` and `Released` every stored pair whose value went to `release_value`;
    `Copies` holds every key copy made by `strdup` and `Freed` every copy given
    to `free`. */
module StringTable {
  import opened Chains
  import opened Djb2

  /** A key as the table handles it: the bytes of a C string before its NUL.
      The table only hashes, compares and copies keys, so nothing here needs
      the bytes to be free of NUL; `BucketOf` takes the C string itself. */
  type Key = seq<byte>

  /** A chain node of the string table: the key copy and the value pointer. */
  type Slot<V> = Entry<Key, Ptr<V>>

  /** The key-copy ledger: every copy made is either freed or is the stored
      copy of one key of the table, and each exactly once. */
  ghost predicate KeyBooks<V>(m: map<Key, Ptr<V>>, copies: multiset<Key>, freed: multiset<Key>)
  {
    copies == freed + multiset(m.Keys)
  }

  /** A fresh key is copied and the copy is stored. */
  lemma CopyFresh<V>(m: map<Key, Ptr<V>>, copies: multiset<Key>, freed: multiset<Key>, key: Key, value: Ptr<V>)
    requires key !in m
    ensures KeyBooks(m, copies, freed) <==> KeyBooks(m[key := value], copies + multiset{key}, freed)
  {
    assert m[key := value].Keys == m.Keys + {key};
    assert multiset(m.Keys + {key}) == multiset(m.Keys) + multiset{key};
    if KeyBooks(m[key := value], copies + multiset{key}, freed) {
      forall x
        ensures copies[x] == (freed + multiset(m.Keys))[x]
      {
        assert (copies + multiset{key})[x] == (freed + multiset(m.Keys) + multiset{key})[x];
      }
    }
  }

  /** An overwrite makes no copy and frees none: the stored copy stays. */
  lemma KeepCopy<V>(m: map<Key, Ptr<V>>, copies: multiset<Key>, freed: multiset<Key>, key: Key, value: Ptr<V>)
    requires key in m
    ensures KeyBooks(m, copies, freed) <==> KeyBooks(m[key := value], copies, freed)
  {
    assert m[key := value].Keys == m.Keys;
  }

  /** Removing a key frees its stored copy. */
  lemma FreeCopy<V>(m: map<Key, Ptr<V>>, copies: multiset<Key>, freed: multiset<Key>, key: Key)
    requires key in m
    ensures KeyBooks(m, copies, freed) <==> KeyBooks(m - {key}, copies, freed + multiset{key})
  {
    assert m.Keys == (m - {key}).Keys + {key};
    assert multiset(m.Keys) == multiset((m - {key}).Keys) + multiset{key};
  }

  /** The bucket of `key`, as `smap_getbucket` computes it with `smap_djb2`. */
  method BucketOf(key: CString, seed: word, bucketCount: nat) returns (b: nat)
    requires bucketCount > 0
    ensures b == StrHash(key, seed) % bucketCount
  {
    Terminator(key, [], seed);
    assert key + [0] + [] == key + [0];
    var h := Hash(key + [0], seed);
    b := h as nat % bucketCount;
  }

  class StringMap<V> {
    /** `map->seed`. */
    const seed: word
    /** The hash `smap_getbucket` applies: `StrHash`, fixed by the constructor. */
    const hash: (Key, word) -> nat

    var entryCount: nat
    var bucketCount: nat
    var buckets: array<seq<Slot<V>>>

    /** How often the table has grown since it was created. */
    ghost var Growths: nat
    /** Pairs handed to `add`, and stored pairs whose value went to `release_value`. */
    ghost var Taken: multiset<Slot<V>>
    ghost var Released: multiset<Slot<V>>
    /** Key copies made by `strdup` and freed by `free`. */
    ghost var Copies: multiset<Key>
    ghost var Freed: multiset<Key>

    ghost predicate Valid()
      reads `buckets, `bucketCount, `entryCount, `Growths, `Taken, `Released, buckets
    {
      && bucketCount == buckets.Length
      && bucketCount == Capacity(Growths)
      && entryCount <= Threshold(bucketCount) + 1
      && Stored(buckets[..], hash, seed, entryCount, Taken, Released)
    }

    /** The map the table stands for, from key contents to values. */
    ghost function Model(): map<Key, Ptr<V>>
      reads `buckets, buckets
    {
      MapOf(Flatten(buckets[..]))
    }

    /** What `smap_get` answers for `key`. */
    ghost function Lookup(key: Key): Ptr<V>
      reads `buckets, buckets
    {
      if key in Model() then Model()[key] else Null
    }

    /** `smap_create`: an empty table of 16 buckets. */
    constructor (seed: word)
      ensures Valid() && fresh(buckets)
      ensures this.seed == seed && hash == StrHash
      ensures bucketCount == InitialBuckets && entryCount == 0
      ensures Model() == map[]
      ensures Taken == multiset{} && Released == multiset{}
      ensures Copies == multiset{} && Freed == multiset{}
      ensures KeyBooks(Model(), Copies, Freed)
    {
      this.seed := seed;
      this.hash := StrHash;
      entryCount := 0;
      bucketCount := InitialBuckets;
      buckets := new seq<Slot<V>>[InitialBuckets](_ => []);
      Growths := 0;
      Taken, Released := multiset{}, multiset{};
      Copies, Freed := multiset{}, multiset{};
      new;
      FlattenAllEmpty(buckets[..]);
    }

    /** `smap_rehash`: twice as many buckets; every entry, bucket by bucket and
        head first, is moved to the head of its bucket in the new array. */
    method Rehash()
      requires Valid()
      modifies `buckets, `bucketCount, `Growths
      ensures Valid() && fresh(buckets)
      ensures bucketCount == 2 * old(bucketCount)
      ensures buckets[..] == Distribute(EmptyBuckets(bucketCount), old(Flatten(buckets[..])), hash, seed)
      ensures Model() == old(Model()) && entryCount == old(entryCount)
      ensures entryCount <= Threshold(bucketCount)
    {
      var newCount := 2 * bucketCount;
      ThresholdDoubling(bucketCount);
      StoredRehash(buckets[..], hash, seed, entryCount, Taken, Released, newCount);
      var newBuckets := Spread(buckets[..], newCount, hash, seed);
      buckets, bucketCount, Growths := newBuckets, newCount, Growths + 1;
    }

    /** `smap_add`: grow first when the table holds more entries than 70% of
        its buckets; then give the entry with an equal key the new value,
        releasing the old value and keeping the stored key copy, or put a new
        entry with a copy of the key at the head of the key's bucket. */
    method Add(key: Key, value: Ptr<V>)
      requires Valid()
      modifies buckets, `buckets, `bucketCount, `Growths, `entryCount, `Taken, `Released, `Copies
      ensures Valid()
      ensures Model() == old(Model())[key := value]
      ensures bucketCount == if old(entryCount) > Threshold(old(bucketCount)) then 2 * old(bucketCount) else old(bucketCount)
      ensures entryCount == if key in old(Model()) then old(entryCount) else old(entryCount) + 1
      ensures Taken == old(Taken) + multiset{Entry(key, value)}
      ensures Released == if key in old(Model()) then old(Released) + multiset{Entry(key, old(Model())[key])} else old(Released)
      ensures Copies == if key in old(Model()) then old(Copies) else old(Copies) + multiset{key}
      ensures KeyBooks(old(Model()), old(Copies), Freed) <==> KeyBooks(Model(), Copies, Freed)
      ensures buckets == old(buckets) || fresh(buckets)
    {
      if entryCount > Threshold(bucketCount) {
        Rehash();
      }
      Put(key, value);
    }

    /** The part of `smap_add` after the growth check. */
    method Put(key: Key, value: Ptr<V>)
      requires Valid() && entryCount <= Threshold(bucketCount)
      modifies buckets, `entryCount, `Taken, `Released, `Copies
      ensures Valid()
      ensures Model() == old(Model())[key := value]
      ensures entryCount == if key in old(Model()) then old(entryCount) else old(entryCount) + 1
      ensures Taken == old(Taken) + multiset{Entry(key, value)}
      ensures Released == if key in old(Model()) then old(Released) + multiset{Entry(key, old(Model())[key])} else old(Released)
      ensures Copies == if key in old(Model()) then old(Copies) else old(Copies) + multiset{key}
      ensures KeyBooks(old(Model()), old(Copies), Freed) <==> KeyBooks(Model(), Copies, Freed)
      ensures var b := hash(key, seed) % bucketCount;
              key !in old(Model()) ==> buckets[..] == old(buckets[..])[b := [Entry(key, value)] + old(buckets[b])]
      ensures var b := hash(key, seed) % bucketCount;
              key in old(Model()) ==>
                exists j | 0 <= j < |old(buckets[b])| :: old(buckets[b])[j].key == key
                  && buckets[..] == old(buckets[..])[b := old(buckets[b])[j := Entry(old(buckets[b])[j].key, value)]]
    {
      var b, j := Locate(key);
      ghost var m := Model();
      if j < |buckets[b]| {
        Overwrite(key, b, j, value);
        KeepCopy(m, Copies, Freed, key, value);
      } else {
        Insert(key, b, value);
        CopyFresh(m, old(Copies), Freed, key, value);
      }
    }

    /** Give the entry at position `j` of bucket `b`, whose key equals `key`,
        the new value and release the old one; the key copy stays. */
    method Overwrite(key: Key, b: nat, j: nat, value: Ptr<V>)
      requires Valid()
      requires b == hash(key, seed) % bucketCount && b < buckets.Length
      requires j < |buckets[b]| && buckets[b][j].key == key
      modifies buckets, `Taken, `Released
      ensures Valid()
      ensures old(key in Model())
      ensures Model() == old(Model())[key := value]
      ensures Taken == old(Taken) + multiset{Entry(key, value)}
      ensures Released == old(Released) + multiset{Entry(key, old(Model())[key])}
      ensures buckets[..] == old(buckets[..])[b := old(buckets[b])[j := Entry(old(buckets[b][j]).key, value)]]
    {
      var chain := buckets[b];
      ghost var bs := buckets[..];
      StoredOverwrite(bs, hash, seed, entryCount, Taken, Released, j, Entry(key, value));
      buckets[b] := chain[j := Entry(chain[j].key, value)];
      assert buckets[..] == bs[b := chain[j := Entry(key, value)]];
      Taken, Released := Taken + multiset{Entry(key, value)}, Released + multiset{chain[j]};
    }

    /** Put a new entry, holding a copy of the absent key, at the head of its
        bucket `b`. */
    method Insert(key: Key, b: nat, value: Ptr<V>)
      requires Valid() && entryCount <= Threshold(bucketCount)
      requires b == hash(key, seed) % bucketCount && b < buckets.Length
      requires key !in Model()
      modifies buckets, `entryCount, `Taken, `Copies
      ensures Valid()
      ensures Model() == old(Model())[key := value]
      ensures entryCount == old(entryCount) + 1
      ensures Taken == old(Taken) + multiset{Entry(key, value)}
      ensures Copies == old(Copies) + multiset{key}
      ensures buckets[..] == old(buckets[..])[b := [Entry(key, value)] + old(buckets[b])]
    {
      var copy := key;
      var chain := buckets[b];
      ghost var bs := buckets[..];
      StoredInsert(bs, hash, seed, entryCount, Taken, Released, Entry(key, value));
      buckets[b] := [Entry(copy, value)] + chain;
      assert buckets[..] == bs[b := [Entry(key, value)] + chain];
      entryCount, Taken, Copies := entryCount + 1, Taken + multiset{Entry(key, value)}, Copies + multiset{copy};
    }

    /** The search shared by `smap_add`, `smap_get` and `smap_remove`: the
        key's bucket as `smap_getbucket` picks it (the hash `BucketOf` computes),
        then a walk along its chain until the entry whose key `strcmp` finds
        equal, or the sentinel (`j == |buckets[b]|`). */
    method Locate(key: Key) returns (b: nat, j: nat)
      requires Valid()
      ensures b == hash(key, seed) % bucketCount && b < buckets.Length
      ensures j <= |buckets[b]|
      ensures key in Model() <==> j < |buckets[b]|
      ensures j < |buckets[b]| ==> buckets[b][j] == Entry(key, Model()[key])
    {
      b := hash(key, seed) % bucketCount;
      var chain := buckets[b];
      j := 0;
      while j < |chain| && chain[j].key != key
        invariant 0 <= j <= |chain|
        invariant forall i | 0 <= i < j :: chain[i].key != key
      {
        j := j + 1;
      }
      ChainSearch(buckets[..], hash, seed, key, j);
    }

    /** `smap_get`: the value stored under `key`, or `Null` when there is none. */
    method Get(key: Key) returns (value: Ptr<V>)
      requires Valid()
      ensures value == Lookup(key)
      ensures value.Addr? ==> key in Model()
    {
      var b, j := Locate(key);
      value := if j < |buckets[b]| then buckets[b][j].value else Null;
    }

    /** `smap_contains`: whether `smap_get` finds a non-NULL value, so a key
        stored with a NULL value is reported absent. */
    method Contains(key: Key) returns (r: bool)
      requires Valid()
      ensures r <==> key in Model() && Model()[key].Addr?
      ensures r <==> Lookup(key) != Null
    {
      var value := Get(key);
      r := value.Addr?;
    }

    /** `smap_remove`: unlink the entry with an equal key, if any, free its key
        copy and release its value. */
    method Remove(key: Key)
      requires Valid()
      modifies buckets, `entryCount, `Released, `Freed
      ensures Valid()
      ensures Model() == old(Model()) - {key}
      ensures entryCount == if key in old(Model()) then old(entryCount) - 1 else old(entryCount)
      ensures Released == if key in old(Model()) then old(Released) + multiset{Entry(key, old(Model())[key])} else old(Released)
      ensures Freed == if key in old(Model()) then old(Freed) + multiset{key} else old(Freed)
      ensures KeyBooks(old(Model()), Copies, old(Freed)) <==> KeyBooks(Model(), Copies, Freed)
      ensures key !in old(Model()) ==> buckets[..] == old(buckets[..])
      ensures var b := hash(key, seed) % bucketCount;
              key in old(Model()) ==>
                exists j | 0 <= j < |old(buckets[b])| :: old(buckets[b])[j].key == key
                  && buckets[..] == old(buckets[..])[b := old(buckets[b])[..j] + old(buckets[b])[j + 1..]]
    {
      var b, j := Locate(key);
      if j < |buckets[b]| {
        ghost var m := Model();
        Unlink(b, j);
        FreeCopy(m, Copies, old(Freed), key);
      }
    }

    /** Unlink the entry at position `j` of bucket `b`, free its key copy and
        release its value. */
    method Unlink(b: nat, j: nat)
      requires Valid() && b < buckets.Length && j < |buckets[b]|
      modifies buckets, `entryCount, `Released, `Freed
      ensures Valid()
      ensures var gone := old(buckets[b][j]);
              && gone.key in old(Model()) && gone.value == old(Model())[gone.key]
              && Model() == old(Model()) - {gone.key}
              && entryCount == old(entryCount) - 1
              && Released == old(Released) + multiset{gone}
              && Freed == old(Freed) + multiset{gone.key}
      ensures buckets[..] == old(buckets[..])[b := old(buckets[b])[..j] + old(buckets[b])[j + 1..]]
    {
      var chain := buckets[b];
      var rest := chain[..j] + chain[j + 1..];
      ghost var bs := buckets[..];
      ghost var m := Model();
      assert && chain[j].key in m && chain[j].value == m[chain[j].key]
             && Stored(bs[b := rest], hash, seed, entryCount - 1, Taken, Released + multiset{chain[j]})
             && MapOf(Flatten(bs[b := rest])) == m - {chain[j].key} by {
        StoredUnlink(bs, hash, seed, entryCount, Taken, Released, b, j);
      }
      buckets[b] := rest;
      assert buckets[..] == bs[b := rest];
      entryCount, Released, Freed := entryCount - 1, Released + multiset{chain[j]}, Freed + multiset{chain[j].key};
    }

    /** `smap_release`: every stored key copy is freed and every stored value
        released, after which every key copy ever made has been freed and every
        value ever handed over released, exactly once. */
    method Release()
      requires Valid()
      modifies `Released, `Freed
      ensures Released == old(Released) + multiset(Flatten(old(buckets[..])))
      ensures Freed == old(Freed) + multiset(old(Model()).Keys)
      ensures Released == Taken
      ensures KeyBooks(old(Model()), Copies, old(Freed)) <==> Freed == Copies
    {
      var gone := Sweep(buckets);
      KeysListed(gone);
      Released, Freed := Released + multiset(gone), Freed + multiset(Project(gone, KeyOf));
    }
  }

  /** The loops of `smap_release`: every stored pair, bucket by bucket and head
      first, its key copy to `free` and its value to `release_value`.  `gone`
      lists the pairs in the order of those calls. */
  method Sweep<V>(buckets: array<seq<Slot<V>>>) returns (gone: seq<Slot<V>>)
    ensures gone == Flatten(buckets[..])
  {
    gone := [];
    var i := 0;
    while i < buckets.Length
      invariant 0 <= i <= buckets.Length
      invariant gone == Flatten(buckets[..i])
    {
      var chain := buckets[i];
      var front := gone;
      var j := 0;
      while j < |chain|
        invariant 0 <= j <= |chain|
        invariant gone == front + chain[..j]
      {
        assert chain[..j + 1] == chain[..j] + [chain[j]];
        gone := gone + [chain[j]];
        j := j + 1;
      }
      assert chain[..j] == chain;
      FlattenPrefix(buckets[..], i);
      assert buckets[..i + 1] == buckets[..][..i + 1];
      i := i + 1;
    }
    assert buckets[..i] == buckets[..];
  }

  /** The table keeps an exact count: `entry_count` is the number of keys. */
  lemma CountIsSize<V>(m: StringMap<V>)
    requires m.Valid()
    ensures m.entryCount == |m.Model()|
  {
    Listing(Flatten(m.buckets[..]));
  }

  /** The moving loops of `smap_rehash`: every entry of `src`, bucket by bucket
      and head first, is moved to the head of its bucket, chosen by
      `smap_djb2`, in a new array of `n` buckets. */
  method Spread<V>(src: seq<seq<Slot<V>>>, n: nat, hash: (Key, word) -> nat, seed: word) returns (dst: array<seq<Slot<V>>>)
    requires n > 0
    ensures fresh(dst)
    ensures dst[..] == Distribute(EmptyBuckets(n), Flatten(src), hash, seed)
  {
    dst := new seq<Slot<V>>[n](_ => []);
    assert dst[..] == EmptyBuckets(n);
    ghost var moved: seq<Slot<V>> := [];
    var i := 0;
    while i < |src|
      invariant 0 <= i <= |src|
      invariant moved == Flatten(src[..i])
      invariant dst[..] == Distribute(EmptyBuckets(n), moved, hash, seed)
      modifies dst
    {
      var chain := src[i];
      ghost var front := moved;
      var j := 0;
      while j < |chain|
        invariant 0 <= j <= |chain|
        invariant moved == front + chain[..j]
        invariant dst[..] == Distribute(EmptyBuckets(n), moved, hash, seed)
        modifies dst
      {
        var e := chain[j];
        var b := hash(e.key, seed) % n;
        assert (moved + [e])[..|moved|] == moved;
        assert chain[..j + 1] == chain[..j] + [e];
        moved := moved + [e];
        dst[b] := [e] + dst[b];
        j := j + 1;
      }
      assert chain[..j] == chain;
      FlattenPrefix(src, i);
      i := i + 1;
    }
    assert src[..i] == src;
  }

  /** `struct smap_iter`: the table, the current bucket and the current entry.
      Unlike the generic iterator it keeps no end pointer: every call finds the
      end again as the sentinel of bucket `bucket_count - 1`.  The table must
      not change while the iterator is in use: `Snapshot` is its buckets when
      the iterator was initialised. */
  class StringMapIter<V> {
    const table: StringMap<V>
    var bucketId: int
    var entry: Cursor
    ghost const Snapshot: seq<seq<Slot<V>>>

    ghost predicate Valid()
      reads this, table, table.buckets
    {
      && table.buckets[..] == Snapshot
      && table.bucketCount == |Snapshot| > 0
      && (entry.NoEntry? ==> bucketId == -1)
      && (entry.At? ==>
            && 0 <= bucketId < |Snapshot|
            && entry.pos <= |Snapshot[bucketId]|
            && (entry.pos == |Snapshot[bucketId]| ==> bucketId == |Snapshot| - 1))
    }

    /** The entries in the order the iterator visits them. */
    ghost function Visit(): seq<Slot<V>>
    {
      Flatten(Snapshot)
    }

    /** The position of the iterator in `Visit()`: -1 before the first call to
        `Next`, `|Visit()|` once it has passed the last entry. */
    ghost function Index(): int
      reads this, table, table.buckets
      requires Valid()
    {
      if entry.NoEntry? then -1 else Offset(Snapshot, bucketId) + entry.pos
    }

    /** Whether the cursor is on the sentinel of bucket `bucket_count - 1`. */
    predicate AtEnd()
      reads this, table, table.buckets
    {
      && entry.At?
      && bucketId == table.bucketCount - 1
      && 0 <= bucketId < table.buckets.Length
      && entry.pos == |table.buckets[bucketId]|
    }

    /** `smap_iter_init`. */
    constructor (table: StringMap<V>)
      requires table.Valid()
      ensures Valid() && this.table == table && Snapshot == table.buckets[..]
      ensures Index() == -1
    {
      this.table := table;
      bucketId := -1;
      entry := NoEntry;
      Snapshot := table.buckets[..];
    }

    /** `smap_iter_next`: step to the next entry, skipping empty buckets;
        true while there is one.  Past the last entry it stays where it is
        and keeps answering false. */
    method Next() returns (r: bool)
      requires Valid()
      modifies this
      ensures Valid()
      ensures Index() == if old(Index()) < |Visit()| then old(Index()) + 1 else |Visit()|
      ensures r <==> Index() < |Visit()|
    {
      OffsetBounds(Snapshot);
      ghost var want := if Index() < |Visit()| then Index() + 1 else |Visit()|;
      if entry.NoEntry? {
        bucketId, entry := 0, At(0);
      } else {
        OffsetStep(Snapshot, bucketId);
        if entry.pos != |table.buckets[bucketId]| {
          entry := At(entry.pos + 1);
        }
      }
      while !AtEnd() && entry.pos == |table.buckets[bucketId]|
        invariant entry.At? && 0 <= bucketId < |Snapshot| && entry.pos <= |Snapshot[bucketId]|
        invariant Offset(Snapshot, bucketId) + entry.pos == want
        decreases |Snapshot| - bucketId
      {
        OffsetStep(Snapshot, bucketId);
        bucketId, entry := bucketId + 1, At(0);
      }
      OffsetStep(Snapshot, bucketId);
      r := !AtEnd();
    }

    /** `smap_iter_key`: the current entry's key, or `Null` when the iterator
        is not on an entry. */
    method Key() returns (key: Ptr<Key>)
      requires Valid()
      ensures key == if 0 <= Index() < |Visit()| then Addr(Visit()[Index()].key) else Null
    {
      OffsetBounds(Snapshot);
      if entry.At? {
        OffsetStep(Snapshot, bucketId);
      }
      if entry.At? && !AtEnd() {
        key := Addr(table.buckets[bucketId][entry.pos].key);
      } else {
        key := Null;
      }
    }

    /** `smap_iter_value`: the current entry's value, or `Null` when the
        iterator is not on an entry. */
    method Value() returns (value: Ptr<V>)
      requires Valid()
      ensures value == if 0 <= Index() < |Visit()| then Visit()[Index()].value else Null
    {
      OffsetBounds(Snapshot);
      if entry.At? {
        OffsetStep(Snapshot, bucketId);
      }
      if entry.At? && !AtEnd() {
        value := table.buckets[bucketId][entry.pos].value;
      } else {
        value := Null;
      }
    }
  }

  /** The iteration protocol of a client: from a freshly initialised iterator,
      read key and value after each `Next` that answers true.  The pairs come
      out in `Visit()` order, each entry once. */
  method Drain<V>(it: StringMapIter<V>) returns (keys: seq<Key>, values: seq<Ptr<V>>)
    requires it.Valid() && it.Index() == -1
    modifies it
    ensures |keys| == |values| == |it.Visit()|
    ensures forall i | 0 <= i < |keys| :: keys[i] == it.Visit()[i].key && values[i] == it.Visit()[i].value
  {
    ghost var es := it.Visit();
    keys, values := [], [];
    var more := it.Next();
    while more
      invariant it.Valid() && it.Visit() == es
      invariant 0 <= it.Index() <= |es| && |keys| == |values| == it.Index()
      invariant more <==> it.Index() < |es|
      invariant forall i | 0 <= i < |keys| :: keys[i] == es[i].key && values[i] == es[i].value
      decreases |es| - it.Index()
    {
      var k := it.Key();
      var v := it.Value();
      keys, values := keys + [k.target], values + [v];
      more := it.Next();
    }
  }

  /** Iterating over a table visits every key exactly once, each with the
      value stored under it. */
  method Entries<V>(m: StringMap<V>) returns (keys: seq<Key>, values: seq<Ptr<V>>)
    requires m.Valid()
    ensures |keys| == |values| == |m.Model()|
    ensures forall i | 0 <= i < |keys| :: keys[i] in m.Model() && m.Model()[keys[i]] == values[i]
    ensures forall i, j | 0 <= i < j < |keys| :: keys[i] != keys[j]
    ensures forall k | k in m.Model() :: k in keys
  {
    var it := new StringMapIter(m);
    keys, values := Drain(it);
    Enumerated(Flatten(m.buckets[..]), keys, values);
  }
}
