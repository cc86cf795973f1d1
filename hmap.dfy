/** The generic chained hash table of src/hmap/hmap.c.

    Each bucket is a singly linked chain closed by a sentinel head; a chain is
    modelled as the sequence of its entries from the head on, so "insert at the
    head" is `[e] + chain` and the sentinel is the position just past the last
    entry.  Keys and values are opaque pointers: a key is any value of `K`
    compared by the equality callback (here `==`), a value is a `Ptr<V>`, which
    may be `Null`.  The hash callback and its seed are fields of the table.
    The release callbacks are recorded in the ghost multisets `Taken` and
    `Released`: one element `Entry(k, v)` stands for `release_key(k)` followed
    by `release_value(v)`. */
module GenericTable {
  import opened Chains

  class HashMap<K(==), V> {
    /** `map->seed` and `map->hash`. */
    const seed: nat
    const hash: (K, nat) -> nat

    var entryCount: nat
    var bucketCount: nat
    var buckets: array<seq<Entry<K, Ptr<V>>>>

    /** How often the table has grown since it was created. */
    ghost var Growths: nat
    /** Every pair handed to `add`, and every pair handed to the release callbacks. */
    ghost var Taken: multiset<Entry<K, Ptr<V>>>
    ghost var Released: multiset<Entry<K, Ptr<V>>>

    ghost predicate Valid()
      reads `buckets, `bucketCount, `entryCount, `Growths, `Taken, `Released, buckets
    {
      && bucketCount == buckets.Length
      && bucketCount == Capacity(Growths)
      && entryCount <= Threshold(bucketCount) + 1
      && Stored(buckets[..], hash, seed, entryCount, Taken, Released)
    }

    /** The map the table stands for. */
    ghost function Model(): map<K, Ptr<V>>
      reads `buckets, buckets
    {
      MapOf(Flatten(buckets[..]))
    }

    /** What `hmap_get` answers for `key`. */
    ghost function Lookup(key: K): Ptr<V>
      reads `buckets, buckets
    {
      if key in Model() then Model()[key] else Null
    }

    /** `hmap_create`: an empty table of 16 buckets. */
    constructor (seed: nat, hash: (K, nat) -> nat)
      ensures Valid() && fresh(buckets)
      ensures this.seed == seed && this.hash == hash
      ensures bucketCount == InitialBuckets && entryCount == 0
      ensures Model() == map[]
      ensures Taken == multiset{} && Released == multiset{}
    {
      this.seed := seed;
      this.hash := hash;
      entryCount := 0;
      bucketCount := InitialBuckets;
      buckets := new seq<Entry<K, Ptr<V>>>[InitialBuckets](_ => []);
      Growths := 0;
      Taken := multiset{};
      Released := multiset{};
      new;
      FlattenAllEmpty(buckets[..]);
    }

    /** `hmap_rehash`: twice as many buckets; every entry, bucket by bucket and
        head first, is moved to the head of its bucket in the new array. */
    method Rehash()
      requires Valid()
      modifies `buckets, `bucketCount, `Growths
      ensures Valid() && fresh(buckets)
      ensures bucketCount == 2 * old(bucketCount)
      ensures buckets[..] == Distribute(EmptyBuckets(bucketCount), old(Flatten(buckets[..])), hash, seed)
      ensures Model() == old(Model()) && entryCount == old(entryCount)
      ensures entryCount <= Threshold(bucketCount)
    {
      var newCount := 2 * bucketCount;
      var newBuckets := Spread(buckets[..], newCount, hash, seed);
      ThresholdDoubling(bucketCount);
      StoredRehash(buckets[..], hash, seed, entryCount, Taken, Released, newCount);
      buckets, bucketCount, Growths := newBuckets, newCount, Growths + 1;
    }

    /** `hmap_add`: grow first when the table holds more entries than 70% of
        its buckets; then overwrite the entry with an equal key, releasing its
        old key and value, or put a new entry at the head of the key's bucket. */
    method Add(key: K, value: Ptr<V>)
      requires Valid()
      modifies this, buckets
      ensures Valid()
      ensures Model() == old(Model())[key := value]
      ensures bucketCount == if old(entryCount) > Threshold(old(bucketCount)) then 2 * old(bucketCount) else old(bucketCount)
      ensures entryCount == if key in old(Model()) then old(entryCount) else old(entryCount) + 1
      ensures Taken == old(Taken) + multiset{Entry(key, value)}
      ensures Released == if key in old(Model()) then old(Released) + multiset{Entry(key, old(Model())[key])} else old(Released)
      ensures buckets == old(buckets) || fresh(buckets)
    {
      if entryCount > Threshold(bucketCount) {
        Rehash();
      }
      Put(key, value);
    }

    /** The part of `hmap_add` after the growth check, on a table that has room
        for one more entry. */
    method Put(key: K, value: Ptr<V>)
      requires Valid() && entryCount <= Threshold(bucketCount)
      modifies buckets, `entryCount, `Taken, `Released
      ensures Valid()
      ensures Model() == old(Model())[key := value]
      ensures entryCount == if key in old(Model()) then old(entryCount) else old(entryCount) + 1
      ensures Taken == old(Taken) + multiset{Entry(key, value)}
      ensures Released == if key in old(Model()) then old(Released) + multiset{Entry(key, old(Model())[key])} else old(Released)
      ensures var b := hash(key, seed) % bucketCount;
              key !in old(Model()) ==> buckets[..] == old(buckets[..])[b := [Entry(key, value)] + old(buckets[b])]
      ensures var b := hash(key, seed) % bucketCount;
              key in old(Model()) ==>
                exists j | 0 <= j < |old(buckets[b])| :: old(buckets[b])[j].key == key
                  && buckets[..] == old(buckets[..])[b := old(buckets[b])[j := Entry(key, value)]]
    {
      var b, j := Locate(key);
      if j < |buckets[b]| {
        Overwrite(b, j, Entry(key, value));
      } else {
        Insert(b, Entry(key, value));
      }
    }

    /** Overwrite the entry at position `j` of bucket `b`, whose key is the new
        entry's, and release the old key and value. */
    method Overwrite(b: nat, j: nat, e: Entry<K, Ptr<V>>)
      requires Valid()
      requires b == hash(e.key, seed) % bucketCount && b < buckets.Length
      requires j < |buckets[b]| && buckets[b][j].key == e.key
      modifies buckets, `Taken, `Released
      ensures Valid()
      ensures old(e.key in Model())
      ensures Model() == old(Model())[e.key := e.value]
      ensures Taken == old(Taken) + multiset{e}
      ensures Released == old(Released) + multiset{Entry(e.key, old(Model())[e.key])}
      ensures buckets[..] == old(buckets[..])[b := old(buckets[b])[j := e]]
    {
      var chain := buckets[b];
      ghost var bs := buckets[..];
      StoredOverwrite(bs, hash, seed, entryCount, Taken, Released, j, e);
      buckets[b] := chain[j := e];
      assert buckets[..] == bs[b := chain[j := e]];
      Released, Taken := Released + multiset{chain[j]}, Taken + multiset{e};
    }

    /** Put a new entry, whose key is absent, at the head of its bucket `b`. */
    method Insert(b: nat, e: Entry<K, Ptr<V>>)
      requires Valid() && entryCount <= Threshold(bucketCount)
      requires b == hash(e.key, seed) % bucketCount && b < buckets.Length
      requires e.key !in Model()
      modifies buckets, `entryCount, `Taken
      ensures Valid()
      ensures Model() == old(Model())[e.key := e.value]
      ensures entryCount == old(entryCount) + 1
      ensures Taken == old(Taken) + multiset{e}
      ensures buckets[..] == old(buckets[..])[b := [e] + old(buckets[b])]
    {
      var chain := buckets[b];
      ghost var bs := buckets[..];
      StoredInsert(bs, hash, seed, entryCount, Taken, Released, e);
      buckets[b] := [e] + chain;
      assert buckets[..] == bs[b := [e] + chain];
      entryCount, Taken := entryCount + 1, Taken + multiset{e};
    }

    /** The search loop shared by `hmap_add`, `hmap_get` and `hmap_remove`: walk
        the chain of the key's bucket until the entry with an equal key or the
        sentinel.  `j` is that entry's position, `|buckets[b]|` for the sentinel. */
    method Locate(key: K) returns (b: nat, j: nat)
      requires Valid()
      ensures b == hash(key, seed) % bucketCount && b < buckets.Length
      ensures j <= |buckets[b]|
      ensures key in Model() <==> j < |buckets[b]|
      ensures j < |buckets[b]| ==> buckets[b][j] == Entry(key, Model()[key])
    {
      b := hash(key, seed) % bucketCount;
      var chain := buckets[b];
      j := 0;
      while j < |chain| && chain[j].key != key
        invariant 0 <= j <= |chain|
        invariant forall i | 0 <= i < j :: chain[i].key != key
      {
        j := j + 1;
      }
      ChainSearch(buckets[..], hash, seed, key, j);
    }

    /** `hmap_get`: the value stored under `key`, or `Null` when there is none. */
    method Get(key: K) returns (value: Ptr<V>)
      requires Valid()
      ensures value == Lookup(key)
      ensures value.Addr? ==> key in Model()
    {
      var b, j := Locate(key);
      value := if j < |buckets[b]| then buckets[b][j].value else Null;
    }

    /** `hmap_contains`: whether `hmap_get` finds a non-NULL value, so a key
        stored with a NULL value is reported absent. */
    method Contains(key: K) returns (r: bool)
      requires Valid()
      ensures r <==> key in Model() && Model()[key].Addr?
      ensures r <==> Lookup(key) != Null
    {
      var value := Get(key);
      r := value.Addr?;
    }

    /** `hmap_remove`: unlink the entry with an equal key, if any, and release
        its key and value. */
    method Remove(key: K)
      requires Valid()
      modifies buckets, `entryCount, `Released
      ensures Valid()
      ensures Model() == old(Model()) - {key}
      ensures entryCount == if key in old(Model()) then old(entryCount) - 1 else old(entryCount)
      ensures Released == if key in old(Model()) then old(Released) + multiset{Entry(key, old(Model())[key])} else old(Released)
      ensures key !in old(Model()) ==> buckets[..] == old(buckets[..])
      ensures var b := hash(key, seed) % bucketCount;
              key in old(Model()) ==>
                exists j | 0 <= j < |old(buckets[b])| :: old(buckets[b])[j].key == key
                  && buckets[..] == old(buckets[..])[b := old(buckets[b])[..j] + old(buckets[b])[j + 1..]]
    {
      var b, j := Locate(key);
      if j < |buckets[b]| {
        Unlink(b, j);
      }
    }

    /** Unlink the entry at position `j` of bucket `b` and release its key and
        value. */
    method Unlink(b: nat, j: nat)
      requires Valid() && b < buckets.Length && j < |buckets[b]|
      modifies buckets, `entryCount, `Released
      ensures Valid()
      ensures var gone := old(buckets[b][j]);
              && gone.key in old(Model()) && gone.value == old(Model())[gone.key]
              && Model() == old(Model()) - {gone.key}
              && entryCount == old(entryCount) - 1
              && Released == old(Released) + multiset{gone}
      ensures buckets[..] == old(buckets[..])[b := old(buckets[b])[..j] + old(buckets[b])[j + 1..]]
    {
      var chain := buckets[b];
      var rest := chain[..j] + chain[j + 1..];
      ghost var bs := buckets[..];
      ghost var m := Model();
      assert && chain[j].key in m && chain[j].value == m[chain[j].key]
             && Stored(bs[b := rest], hash, seed, entryCount - 1, Taken, Released + multiset{chain[j]})
             && MapOf(Flatten(bs[b := rest])) == m - {chain[j].key} by {
        StoredUnlink(bs, hash, seed, entryCount, Taken, Released, b, j);
      }
      buckets[b] := rest;
      assert buckets[..] == bs[b := rest];
      entryCount, Released := entryCount - 1, Released + multiset{chain[j]};
    }

    /** `hmap_release`: every stored key and value goes to the release
        callbacks, after which everything ever added has been released
        exactly once. */
    method Release()
      requires Valid()
      modifies `Released
      ensures Released == old(Released) + multiset(Flatten(old(buckets[..])))
      ensures Released == Taken
    {
      ghost var bs := buckets[..];
      ghost var freed: seq<Entry<K, Ptr<V>>> := [];
      var i := 0;
      while i < bucketCount
        invariant 0 <= i <= bucketCount
        invariant freed == Flatten(bs[..i])
        modifies {}
      {
        var chain := buckets[i];
        ghost var front := freed;
        var j := 0;
        while j < |chain|
          invariant 0 <= j <= |chain|
          invariant freed == front + chain[..j]
          modifies {}
        {
          assert chain[..j + 1] == chain[..j] + [chain[j]];
          freed := freed + [chain[j]];
          j := j + 1;
        }
        assert chain[..j] == chain;
        FlattenPrefix(bs, i);
        i := i + 1;
      }
      assert bs[..i] == bs;
      Released := Released + multiset(freed);
    }
  }

  /** The moving loops of `hmap_rehash`: every entry of `src`, bucket by bucket
      and head first, is moved to the head of its bucket in a new array of `n`
      buckets. */
  method Spread<K, V>(src: seq<seq<Entry<K, V>>>, n: nat, hash: (K, nat) -> nat, seed: nat)
    returns (dst: array<seq<Entry<K, V>>>)
    requires n > 0
    ensures fresh(dst)
    ensures dst[..] == Distribute(EmptyBuckets(n), Flatten(src), hash, seed)
  {
    dst := new seq<Entry<K, V>>[n](_ => []);
    assert dst[..] == EmptyBuckets(n);
    ghost var moved: seq<Entry<K, V>> := [];
    var i := 0;
    while i < |src|
      invariant 0 <= i <= |src|
      invariant moved == Flatten(src[..i])
      invariant dst[..] == Distribute(EmptyBuckets(n), moved, hash, seed)
      modifies dst
    {
      var chain := src[i];
      ghost var front := moved;
      var j := 0;
      while j < |chain|
        invariant 0 <= j <= |chain|
        invariant moved == front + chain[..j]
        invariant dst[..] == Distribute(EmptyBuckets(n), moved, hash, seed)
        modifies dst
      {
        var e := chain[j];
        var b := hash(e.key, seed) % n;
        assert (moved + [e])[..|moved|] == moved;
        assert chain[..j + 1] == chain[..j] + [e];
        moved := moved + [e];
        dst[b] := [e] + dst[b];
        j := j + 1;
      }
      assert chain[..j] == chain;
      FlattenPrefix(src, i);
      i := i + 1;
    }
    assert src[..i] == src;
  }

  /** The table keeps an exact count: `entry_count` is the number of keys. */
  lemma CountIsSize<K, V>(m: HashMap<K, V>)
    requires m.Valid()
    ensures m.entryCount == |m.Model()|
  {
    Listing(Flatten(m.buckets[..]));
  }

  /** `struct hmap_iter`: the table, the current bucket, the current entry and
      the sentinel of the last bucket, where iteration ends.  The table must not
      change while the iterator is in use: `Snapshot` is its buckets when the
      iterator was initialised. */
  class HashMapIter<K(==), V> {
    const table: HashMap<K, V>
    var bucketId: int
    var entry: Cursor
    const endBucket: nat
    ghost const Snapshot: seq<seq<Entry<K, Ptr<V>>>>

    ghost predicate Valid()
      reads this, table, table.buckets
    {
      && table.buckets[..] == Snapshot
      && endBucket + 1 == |Snapshot|
      && (entry.NoEntry? ==> bucketId == -1)
      && (entry.At? ==>
            && 0 <= bucketId < |Snapshot|
            && entry.pos <= |Snapshot[bucketId]|
            && (entry.pos == |Snapshot[bucketId]| ==> bucketId == endBucket))
    }

    /** The entries in the order the iterator visits them. */
    ghost function Visit(): seq<Entry<K, Ptr<V>>>
    {
      Flatten(Snapshot)
    }

    /** The position of the iterator in `Visit()`: -1 before the first call to
        `Next`, `|Visit()|` once it has passed the last entry. */
    ghost function Index(): int
      reads this, table, table.buckets
      requires Valid()
    {
      if entry.NoEntry? then -1 else Offset(Snapshot, bucketId) + entry.pos
    }

    /** Whether the cursor is on `iter->end`, the last bucket's sentinel. */
    predicate AtEnd()
      reads this, table, table.buckets
    {
      && entry.At?
      && bucketId == endBucket
      && bucketId < table.buckets.Length
      && entry.pos == |table.buckets[bucketId]|
    }

    /** `hmap_iter_init`. */
    constructor (table: HashMap<K, V>)
      requires table.Valid()
      ensures Valid() && this.table == table && Snapshot == table.buckets[..]
      ensures Index() == -1
    {
      this.table := table;
      bucketId := -1;
      entry := NoEntry;
      endBucket := table.bucketCount - 1;
      Snapshot := table.buckets[..];
    }

    /** `hmap_iter_next`: step to the next entry, skipping empty buckets;
        true while there is one.  Past the last entry it stays where it is
        and keeps answering false. */
    method Next() returns (r: bool)
      requires Valid()
      modifies this
      ensures Valid()
      ensures Index() == if old(Index()) < |Visit()| then old(Index()) + 1 else |Visit()|
      ensures r <==> Index() < |Visit()|
    {
      OffsetBounds(Snapshot);
      ghost var want := if Index() < |Visit()| then Index() + 1 else |Visit()|;
      if entry.NoEntry? {
        bucketId, entry := 0, At(0);
      } else {
        OffsetStep(Snapshot, bucketId);
        if entry.pos != |table.buckets[bucketId]| {
          entry := At(entry.pos + 1);
        }
      }
      while !AtEnd() && entry.pos == |table.buckets[bucketId]|
        invariant entry.At? && 0 <= bucketId <= endBucket && entry.pos <= |Snapshot[bucketId]|
        invariant Offset(Snapshot, bucketId) + entry.pos == want
        decreases endBucket - bucketId
      {
        OffsetStep(Snapshot, bucketId);
        bucketId, entry := bucketId + 1, At(0);
      }
      OffsetStep(Snapshot, bucketId);
      r := !AtEnd();
    }

    /** `hmap_iter_key`: the current entry's key, or `Null` when the iterator
        is not on an entry. */
    method Key() returns (key: Ptr<K>)
      requires Valid()
      ensures key == if 0 <= Index() < |Visit()| then Addr(Visit()[Index()].key) else Null
    {
      OffsetBounds(Snapshot);
      if entry.At? {
        OffsetStep(Snapshot, bucketId);
      }
      if entry.At? && !AtEnd() {
        key := Addr(table.buckets[bucketId][entry.pos].key);
      } else {
        key := Null;
      }
    }

    /** `hmap_iter_value`: the current entry's value, or `Null` when the
        iterator is not on an entry. */
    method Value() returns (value: Ptr<V>)
      requires Valid()
      ensures value == if 0 <= Index() < |Visit()| then Visit()[Index()].value else Null
    {
      OffsetBounds(Snapshot);
      if entry.At? {
        OffsetStep(Snapshot, bucketId);
      }
      if entry.At? && !AtEnd() {
        value := table.buckets[bucketId][entry.pos].value;
      } else {
        value := Null;
      }
    }
  }

  /** The iteration protocol of a client: from a freshly initialised iterator,
      read key and value after each `Next` that answers true.  The pairs come
      out in `Visit()` order, each entry once. */
  method Drain<K(==), V>(it: HashMapIter<K, V>) returns (keys: seq<K>, values: seq<Ptr<V>>)
    requires it.Valid() && it.Index() == -1
    modifies it
    ensures |keys| == |values| == |it.Visit()|
    ensures forall i | 0 <= i < |keys| :: keys[i] == it.Visit()[i].key && values[i] == it.Visit()[i].value
  {
    ghost var es := it.Visit();
    keys, values := [], [];
    var more := it.Next();
    while more
      invariant it.Valid() && it.Visit() == es
      invariant 0 <= it.Index() <= |es| && |keys| == |values| == it.Index()
      invariant more <==> it.Index() < |es|
      invariant forall i | 0 <= i < |keys| :: keys[i] == es[i].key && values[i] == es[i].value
      decreases |es| - it.Index()
    {
      var k := it.Key();
      var v := it.Value();
      keys, values := keys + [k.target], values + [v];
      more := it.Next();
    }
  }

  /** Iterating over a table visits every key exactly once, each with the
      value stored under it. */
  method Entries<K(==), V>(m: HashMap<K, V>) returns (keys: seq<K>, values: seq<Ptr<V>>)
    requires m.Valid()
    ensures |keys| == |values| == |m.Model()|
    ensures forall i | 0 <= i < |keys| :: keys[i] in m.Model() && m.Model()[keys[i]] == values[i]
    ensures forall i, j | 0 <= i < j < |keys| :: keys[i] != keys[j]
    ensures forall k | k in m.Model() :: k in keys
  {
    var it := new HashMapIter(m);
    keys, values := Drain(it);
    Enumerated(Flatten(m.buckets[..]), keys, values);
  }
}
