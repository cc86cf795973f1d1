/** The value-level picture of a chained hash table, shared by the generic table
    (src/hmap/hmap.c) and the string table (src/hmap/smap.c), which implement the
    same layout independently.

    A table is a sequence of buckets; a bucket is the sequence of entries its
    chain links, head first.  The self-pointing sentinel that ends each chain
    becomes the end of the sequence.  The hash callback is `hash(key, seed)`;
    key equality is `==`. */
module Chains {

  /** A C pointer to an object of type T: NULL, or the address of an object. */
  datatype Ptr<+T> = Null | Addr(target: T)

  datatype Option<+T> = None | Some(value: T)

  /** Where an iterator stands inside its bucket: nowhere yet (`entry` is NULL),
      or at position `pos` of the bucket's chain, the chain's length being the
      bucket's sentinel head. */
  datatype Cursor = NoEntry | At(pos: nat)

  /** One chain node without its `next` link: the chain order is the sequence order. */
  datatype Entry<K, V> = Entry(key: K, value: V)

  /** The number of buckets a table is created with (HMAP_INITIAL_BUCKETS, SMAP_INITIAL_BUCKETS). */
  const InitialBuckets: nat := 16

  /** The fill level above which the next `add` grows the table: ⌊7·n/10⌋. */
  function Threshold(bucketCount: nat): (t: nat)
    ensures 10 * t <= 7 * bucketCount < 10 * t + 10
    ensures bucketCount > 0 ==> t < bucketCount
  {
    (7 * bucketCount) / 10
  }

  /** Doubling the bucket count raises the threshold by at least one, so an
      `add` right after a rehash keeps the fill level within one entry of the
      threshold. */
  lemma ThresholdDoubling(n: nat)
    requires n >= 2
    ensures Threshold(n) + 1 <= Threshold(2 * n)
  {
  }

  /** The bucket count after `g` growths: 16 doubled `g` times. */
  function Capacity(g: nat): (n: nat)
    ensures n >= InitialBuckets
  {
    if g == 0 then InitialBuckets else 2 * Capacity(g - 1)
  }

  // ---------------------------------------------------------------------------
  // Flattening the buckets into one sequence, bucket by bucket

  function Flatten<K, V>(bs: seq<seq<Entry<K, V>>>): seq<Entry<K, V>>
  {
    if bs == [] then [] else bs[0] + Flatten(bs[1..])
  }

  lemma {:induction false} FlattenConcat<K, V>(a: seq<seq<Entry<K, V>>>, b: seq<seq<Entry<K, V>>>)
    ensures Flatten(a + b) == Flatten(a) + Flatten(b)
  {
    if a == [] {
      assert a + b == b;
    } else {
      assert (a + b)[1..] == a[1..] + b;
      FlattenConcat(a[1..], b);
    }
  }

  /** The entries of bucket `b` sit between those of the buckets before and after it. */
  lemma FlattenSplit<K, V>(bs: seq<seq<Entry<K, V>>>, b: nat)
    requires b < |bs|
    ensures Flatten(bs) == Flatten(bs[..b]) + bs[b] + Flatten(bs[b + 1..])
  {
    assert bs == bs[..b] + bs[b..];
    FlattenConcat(bs[..b], bs[b..]);
    assert bs[b..][1..] == bs[b + 1..];
  }

  /** The buckets up to and including `b` flatten to those before `b`, then bucket `b`. */
  lemma FlattenPrefix<K, V>(bs: seq<seq<Entry<K, V>>>, b: nat)
    requires b < |bs|
    ensures Flatten(bs[..b + 1]) == Flatten(bs[..b]) + bs[b]
  {
    assert bs[..b + 1] == bs[..b] + [bs[b]];
    FlattenConcat(bs[..b], [bs[b]]);
    assert Flatten([bs[b]]) == bs[b] + Flatten([]);
  }

  /** Replacing bucket `b` replaces its part of the flattened sequence and nothing else. */
  lemma FlattenReplace<K, V>(bs: seq<seq<Entry<K, V>>>, b: nat, c: seq<Entry<K, V>>)
    requires b < |bs|
    ensures Flatten(bs) == Flatten(bs[..b]) + bs[b] + Flatten(bs[b + 1..])
    ensures Flatten(bs[b := c]) == Flatten(bs[..b]) + c + Flatten(bs[b + 1..])
    ensures multiset(Flatten(bs[b := c])) == multiset(Flatten(bs)) - multiset(bs[b]) + multiset(c)
  {
    FlattenSplit(bs, b);
    FlattenSplit(bs[b := c], b);
    assert bs[b := c][..b] == bs[..b];
    assert bs[b := c][b + 1..] == bs[b + 1..];
  }

  /** An entry is in the flattened sequence exactly when it is in one of the buckets. */
  lemma {:induction false} FlattenMember<K, V>(bs: seq<seq<Entry<K, V>>>, e: Entry<K, V>)
    ensures e in Flatten(bs) <==> exists b :: 0 <= b < |bs| && e in bs[b]
  {
    if bs != [] {
      FlattenMember(bs[1..], e);
      if e in Flatten(bs[1..]) {
        var b :| 0 <= b < |bs[1..]| && e in bs[1..][b];
        assert e in bs[b + 1];
      }
      if exists b :: 0 <= b < |bs| && e in bs[b] {
        var b :| 0 <= b < |bs| && e in bs[b];
        if b > 0 {
          assert e in bs[1..][b - 1];
        }
      }
    }
  }

  lemma {:induction false} FlattenAllEmpty<K, V>(bs: seq<seq<Entry<K, V>>>)
    requires forall b | 0 <= b < |bs| :: bs[b] == []
    ensures Flatten(bs) == []
  {
    if bs != [] {
      FlattenAllEmpty(bs[1..]);
    }
  }

  function EmptyBuckets<K, V>(n: nat): (bs: seq<seq<Entry<K, V>>>)
    ensures |bs| == n && forall b | 0 <= b < n :: bs[b] == []
  {
    seq(n, _ => [])
  }

  // ---------------------------------------------------------------------------
  // Looking a key up in a chain: the first entry whose key is equal

  ghost function KeySet<K, V>(es: seq<Entry<K, V>>): set<K>
  {
    set e | e in es :: e.key
  }

  /** The scan `get`, `add` and `remove` perform over one chain. */
  ghost function Find<K, V>(es: seq<Entry<K, V>>, k: K): (r: Option<V>)
    ensures r.None? <==> k !in KeySet(es)
    ensures r.Some? ==> Entry(k, r.value) in es
  {
    if es == [] then None
    else if es[0].key == k then Some(es[0].value)
    else
      assert forall e | e in es :: e == es[0] || e in es[1..];
      Find(es[1..], k)
  }

  /** A scan that has passed `j` entries without a match has the result of the rest. */
  lemma {:induction false} FindFirst<K, V>(es: seq<Entry<K, V>>, k: K, j: nat)
    requires j <= |es|
    requires forall i | 0 <= i < j :: es[i].key != k
    ensures Find(es, k) == Find(es[j..], k)
    ensures j < |es| && es[j].key == k ==> Find(es, k) == Some(es[j].value)
    ensures j == |es| ==> Find(es, k) == None
  {
    if j > 0 {
      FindFirst(es[1..], k, j - 1);
      assert es[1..][j - 1..] == es[j..];
    }
  }

  lemma {:induction false} FindConcat<K, V>(a: seq<Entry<K, V>>, b: seq<Entry<K, V>>, k: K)
    ensures Find(a + b, k) == if Find(a, k).Some? then Find(a, k) else Find(b, k)
  {
    if a == [] {
      assert a + b == b;
    } else {
      assert (a + b)[1..] == a[1..] + b;
      FindConcat(a[1..], b, k);
    }
  }

  /** The finite map a sequence of entries stands for: each key to its first entry's value. */
  ghost function MapOf<K, V>(es: seq<Entry<K, V>>): (m: map<K, V>)
    ensures m.Keys == KeySet(es)
  {
    map k | k in KeySet(es) :: Find(es, k).value
  }

  /** Two entry sequences that answer every lookup alike but for one key give
      maps that differ at that key only. */
  lemma MapOfPointwise<K, V>(a: seq<Entry<K, V>>, b: seq<Entry<K, V>>, key: K, r: Option<V>)
    requires forall k :: Find(a, k) == if k == key then r else Find(b, k)
    ensures MapOf(a) == if r.Some? then MapOf(b)[key := r.value] else MapOf(b) - {key}
  {
    var want := if r.Some? then MapOf(b)[key := r.value] else MapOf(b) - {key};
    forall k ensures k in MapOf(a) <==> k in want {
      assert Find(a, k) == if k == key then r else Find(b, k);
    }
    forall k | k in MapOf(a) ensures MapOf(a)[k] == want[k] {
      assert Find(a, k) == if k == key then r else Find(b, k);
    }
  }

  // ---------------------------------------------------------------------------
  // Unique keys, stated on the multiset of entries so that it survives reordering

  /** Two entries whose keys the equality callback calls equal. */
  ghost predicate SameKey<K, V>(e: Entry<K, V>, f: Entry<K, V>)
  {
    e.key == f.key
  }

  /** Every entry occurs once and no two entries share a key.  The second
      quantifier fires only on `SameKey` terms, so that the invariant stays
      cheap wherever it is merely carried along. */
  ghost predicate UniqueBag<K, V>(m: multiset<Entry<K, V>>)
  {
    && (forall e | e in m :: m[e] == 1)
    && (forall e, f {:trigger SameKey(e, f)} | e in m && f in m && SameKey(e, f) :: e == f)
  }

  ghost predicate UniqueKeys<K, V>(es: seq<Entry<K, V>>)
  {
    UniqueBag(multiset(es))
  }

  lemma UniqueSub<K, V>(m: multiset<Entry<K, V>>, n: multiset<Entry<K, V>>)
    requires UniqueBag(m) && n <= m
    ensures UniqueBag(n)
  {
  }

  /** Adding an entry keeps the keys unique exactly when its key is new. */
  lemma UniqueAdd<K, V>(m: multiset<Entry<K, V>>, e: Entry<K, V>)
    requires UniqueBag(m)
    ensures UniqueBag(m + multiset{e}) <==> forall f | f in m :: f.key != e.key
  {
    var m' := m + multiset{e};
    if forall f | f in m :: f.key != e.key {
      assert e !in m;
      forall f | f in m' ensures m'[f] == 1 {
        if f == e { assert m[f] == 0; } else { assert m'[f] == m[f]; }
      }
    } else {
      var f :| f in m && f.key == e.key;
      if f == e {
        assert m'[e] == m[e] + 1 == 2;
      } else {
        assert SameKey(f, e);
      }
    }
  }

  /** In a sequence with unique keys, the lookup finds exactly the stored pairs. */
  lemma FindUnique<K, V>(es: seq<Entry<K, V>>, k: K, v: V)
    requires UniqueKeys(es)
    ensures Find(es, k) == Some(v) <==> Entry(k, v) in es
  {
    if Entry(k, v) in es {
      var r := Find(es, k);
      assert k in KeySet(es);
      assert Entry(k, r.value) in multiset(es);
      assert SameKey(Entry(k, r.value), Entry(k, v));
    }
  }

  /** Sequences holding the same entries, keys unique, stand for the same map. */
  lemma MapOfPerm<K, V>(a: seq<Entry<K, V>>, b: seq<Entry<K, V>>)
    requires multiset(a) == multiset(b) && UniqueKeys(a)
    ensures UniqueKeys(b) && MapOf(a) == MapOf(b)
  {
    assert forall e :: e in a <==> e in b by {
      forall e ensures e in a <==> e in b {
        assert e in a <==> e in multiset(a);
        assert e in b <==> e in multiset(b);
      }
    }
    assert KeySet(a) == KeySet(b);
    forall k | k in KeySet(a) ensures Find(a, k) == Find(b, k) {
      var v := Find(a, k).value;
      FindUnique(a, k, v);
      FindUnique(b, k, v);
    }
  }

  /** The head of a sequence with unique keys has a key the rest lacks. */
  lemma UniqueCons<K, V>(es: seq<Entry<K, V>>)
    requires UniqueKeys(es) && es != []
    ensures UniqueKeys(es[1..]) && es[0].key !in KeySet(es[1..])
    ensures KeySet(es) == {es[0].key} + KeySet(es[1..])
  {
    var x, r := es[0], es[1..];
    assert es == [x] + r;
    assert multiset(es) == multiset{x} + multiset(r);
    UniqueSub(multiset(es), multiset(r));
    assert multiset(es)[x] == 1;
    assert x !in r;
    forall f | f in r ensures f.key != x.key {
      assert f in multiset(es);
      assert SameKey(f, x) ==> f == x;
    }
    assert KeySet(es) == {x.key} + KeySet(r) by {
      forall e | e in es ensures e == x || e in r { }
    }
  }

  /** With unique keys, the number of distinct keys is the number of entries. */
  lemma {:induction false} UniqueKeySetSize<K, V>(es: seq<Entry<K, V>>)
    requires UniqueKeys(es)
    ensures |KeySet(es)| == |es|
  {
    if es != [] {
      UniqueCons(es);
      UniqueKeySetSize(es[1..]);
    }
  }

  /** The occurrences of `es[j]` in `es`: those before it, itself, those after it. */
  lemma CountAt<K, V>(es: seq<Entry<K, V>>, j: nat)
    requires j < |es|
    ensures multiset(es)[es[j]] == multiset(es[..j])[es[j]] + 1 + multiset(es[j + 1..])[es[j]]
  {
    assert es == es[..j] + [es[j]] + es[j + 1..];
  }

  /** Listing: a sequence with unique keys lists its map, every pair exactly
      once.  The iterator walks the flattened buckets, so it visits each stored
      pair once and nothing else. */
  lemma Listing<K, V>(es: seq<Entry<K, V>>)
    requires UniqueKeys(es)
    ensures |MapOf(es)| == |es|
    ensures forall i | 0 <= i < |es| :: es[i].key in MapOf(es) && MapOf(es)[es[i].key] == es[i].value
    ensures forall i, j | 0 <= i < j < |es| :: es[i].key != es[j].key
  {
    UniqueKeySetSize(es);
    assert |MapOf(es).Keys| == |MapOf(es)|;
    forall i | 0 <= i < |es| ensures es[i].key in MapOf(es) && MapOf(es)[es[i].key] == es[i].value {
      assert es[i] in es;
      FindUnique(es, es[i].key, es[i].value);
    }
    forall i, j | 0 <= i < j < |es| ensures es[i].key != es[j].key {
      CountAt(es, j);
      assert es[i] in es[..j];
    }
  }

  /** A listing of the entries' keys and values, position by position, lists
      every key of the map exactly once, each with its value. */
  lemma Enumerated<K, V>(es: seq<Entry<K, V>>, keys: seq<K>, values: seq<V>)
    requires UniqueKeys(es)
    requires |keys| == |values| == |es|
    requires forall i | 0 <= i < |es| :: keys[i] == es[i].key && values[i] == es[i].value
    ensures |keys| == |MapOf(es)|
    ensures forall i | 0 <= i < |keys| :: keys[i] in MapOf(es) && MapOf(es)[keys[i]] == values[i]
    ensures forall i, j | 0 <= i < j < |keys| :: keys[i] != keys[j]
    ensures forall k | k in MapOf(es) :: k in keys
  {
    Listing(es);
    forall k | k in MapOf(es) ensures k in keys {
      var e :| e in es && e.key == k;
      var i :| 0 <= i < |es| && es[i] == e;
      assert keys[i] == k;
    }
  }

  // ---------------------------------------------------------------------------
  // The table layout: every entry in the bucket its hash selects, keys unique

  /** Every entry sits in bucket `hash(key, seed) mod bucket_count`. */
  ghost predicate WellPlaced<K, V, S>(bs: seq<seq<Entry<K, V>>>, hash: (K, S) -> nat, seed: S)
  {
    forall b, e | 0 <= b < |bs| && e in bs[b] :: hash(e.key, seed) % |bs| == b
  }

  /** The layout invariant both tables keep: at least one bucket, every entry in
      its own bucket, and no two entries with equal keys. */
  ghost predicate Layout<K, V, S>(bs: seq<seq<Entry<K, V>>>, hash: (K, S) -> nat, seed: S)
  {
    && |bs| > 0
    && WellPlaced(bs, hash, seed)
    && UniqueKeys(Flatten(bs))
  }

  /** A lookup needs to scan only the key's own bucket: the whole table answers
      as that one chain does. */
  lemma FindLocal<K, V, S>(bs: seq<seq<Entry<K, V>>>, hash: (K, S) -> nat, seed: S, k: K)
    requires |bs| > 0 && WellPlaced(bs, hash, seed)
    ensures Find(Flatten(bs), k) == Find(bs[hash(k, seed) % |bs|], k)
  {
    var b := hash(k, seed) % |bs|;
    FlattenSplit(bs, b);
    var front, back := Flatten(bs[..b]), Flatten(bs[b + 1..]);
    forall e | e in front ensures e.key != k {
      FlattenMember(bs[..b], e);
      var b' :| 0 <= b' < b && e in bs[..b][b'];
      assert e in bs[b'];
    }
    forall e | e in back ensures e.key != k {
      FlattenMember(bs[b + 1..], e);
      var b' :| 0 <= b' < |bs| - b - 1 && e in bs[b + 1..][b'];
      assert e in bs[b + 1 + b'];
    }
    assert k !in KeySet(front) && k !in KeySet(back);
    FindConcat(front + bs[b], back, k);
    FindConcat(front, bs[b], k);
  }

  /** The search every operation makes: walking the key's bucket from its head
      up to the first entry with an equal key, or to the sentinel, tells
      whether the table holds the key and which value it maps it to. */
  lemma ChainSearch<K, V, S>(bs: seq<seq<Entry<K, V>>>, hash: (K, S) -> nat, seed: S, key: K, j: nat)
    requires |bs| > 0 && WellPlaced(bs, hash, seed)
    requires j <= |bs[hash(key, seed) % |bs|]|
    requires forall i | 0 <= i < j :: bs[hash(key, seed) % |bs|][i].key != key
    requires j < |bs[hash(key, seed) % |bs|]| ==> bs[hash(key, seed) % |bs|][j].key == key
    ensures key in MapOf(Flatten(bs)) <==> j < |bs[hash(key, seed) % |bs|]|
    ensures j < |bs[hash(key, seed) % |bs|]| ==> MapOf(Flatten(bs))[key] == bs[hash(key, seed) % |bs|][j].value
  {
    var c := bs[hash(key, seed) % |bs|];
    FindFirst(c, key, j);
    FindLocal(bs, hash, seed, key);
  }

  /** Overwriting the first entry with a given key changes only that key's lookup. */
  lemma {:induction false} FindUpdate<K, V>(c: seq<Entry<K, V>>, j: nat, e: Entry<K, V>, k: K)
    requires j < |c| && c[j].key == e.key
    requires forall i | 0 <= i < j :: c[i].key != e.key
    ensures Find(c[j := e], k) == if k == e.key then Some(e.value) else Find(c, k)
  {
    if j > 0 {
      assert c[j := e][1..] == c[1..][j - 1 := e];
      FindUpdate(c[1..], j - 1, e, k);
    }
  }

  /** Unlinking the only entry with a key removes that key's lookup and nothing else. */
  lemma FindRemove<K, V>(c: seq<Entry<K, V>>, j: nat, k: K)
    requires j < |c|
    requires forall i | 0 <= i < |c| && i != j :: c[i].key != c[j].key
    ensures Find(c[..j] + c[j + 1..], k) == if k == c[j].key then None else Find(c, k)
  {
    var front, back := c[..j], c[j + 1..];
    var rest := [c[j]] + back;
    assert c == front + rest;
    FindConcat(front, rest, k);
    FindConcat(front, back, k);
    assert rest[0] == c[j] && rest[1..] == back;
    if k == c[j].key {
      forall i | 0 <= i < |front| ensures front[i].key != k {
        assert front[i] == c[i];
      }
      FindFirst(front, k, |front|);
      forall i | 0 <= i < |back| ensures back[i].key != k {
        assert back[i] == c[j + 1 + i];
      }
      FindFirst(back, k, |back|);
    }
  }

  /** Replacing a bucket by a chain whose entries all belong there keeps every
      entry in its own bucket. */
  lemma ReplacePlaced<K, V, S>(bs: seq<seq<Entry<K, V>>>, hash: (K, S) -> nat, seed: S, b: nat, c: seq<Entry<K, V>>)
    requires WellPlaced(bs, hash, seed) && b < |bs|
    requires forall x | x in c :: hash(x.key, seed) % |bs| == b
    ensures WellPlaced(bs[b := c], hash, seed)
  {
  }

  /** After such a replacement, only the keys of bucket `b` look up differently. */
  lemma ReplaceFind<K, V, S>(bs: seq<seq<Entry<K, V>>>, hash: (K, S) -> nat, seed: S, b: nat, c: seq<Entry<K, V>>, k: K)
    requires WellPlaced(bs, hash, seed) && b < |bs|
    requires forall x | x in c :: hash(x.key, seed) % |bs| == b
    ensures Find(Flatten(bs[b := c]), k) == if hash(k, seed) % |bs| == b then Find(c, k) else Find(Flatten(bs), k)
  {
    ReplacePlaced(bs, hash, seed, b, c);
    FindLocal(bs, hash, seed, k);
    FindLocal(bs[b := c], hash, seed, k);
  }

  /** `add` of a key the table does not hold: the entry is prepended to its bucket. */
  lemma InsertFresh<K, V, S>(bs: seq<seq<Entry<K, V>>>, hash: (K, S) -> nat, seed: S, e: Entry<K, V>)
    requires Layout(bs, hash, seed)
    requires Find(bs[hash(e.key, seed) % |bs|], e.key) == None
    ensures e.key !in MapOf(Flatten(bs))
    ensures var b := hash(e.key, seed) % |bs|;
            var bs' := bs[b := [e] + bs[b]];
            && Layout(bs', hash, seed)
            && multiset(Flatten(bs')) == multiset(Flatten(bs)) + multiset{e}
            && MapOf(Flatten(bs')) == MapOf(Flatten(bs))[e.key := e.value]
  {
    InsertFreshBag(bs, hash, seed, e);
    InsertFreshPlaced(bs, hash, seed, e);
    InsertFreshMap(bs, hash, seed, e);
  }

  lemma InsertFreshBag<K, V, S>(bs: seq<seq<Entry<K, V>>>, hash: (K, S) -> nat, seed: S, e: Entry<K, V>)
    requires Layout(bs, hash, seed)
    requires Find(bs[hash(e.key, seed) % |bs|], e.key) == None
    ensures e.key !in MapOf(Flatten(bs))
    ensures var b := hash(e.key, seed) % |bs|;
            var bs' := bs[b := [e] + bs[b]];
            && multiset(Flatten(bs')) == multiset(Flatten(bs)) + multiset{e}
            && UniqueKeys(Flatten(bs'))
  {
    var b := hash(e.key, seed) % |bs|;
    var c := [e] + bs[b];
    var m := multiset(Flatten(bs));
    FindLocal(bs, hash, seed, e.key);
    assert multiset(Flatten(bs[b := c])) == m + multiset{e} by {
      FlattenReplace(bs, b, c);
      assert multiset(c) == multiset{e} + multiset(bs[b]);
    }
    assert UniqueBag(m + multiset{e}) by {
      forall f | f in m ensures f.key != e.key {
        assert f in Flatten(bs);
      }
      UniqueAdd(m, e);
    }
  }

  lemma InsertFreshPlaced<K, V, S>(bs: seq<seq<Entry<K, V>>>, hash: (K, S) -> nat, seed: S, e: Entry<K, V>)
    requires |bs| > 0 && WellPlaced(bs, hash, seed)
    ensures var b := hash(e.key, seed) % |bs|;
            WellPlaced(bs[b := [e] + bs[b]], hash, seed)
  {
    var b := hash(e.key, seed) % |bs|;
    assert forall x | x in [e] + bs[b] :: x == e || x in bs[b];
    ReplacePlaced(bs, hash, seed, b, [e] + bs[b]);
  }

  lemma InsertFreshMap<K, V, S>(bs: seq<seq<Entry<K, V>>>, hash: (K, S) -> nat, seed: S, e: Entry<K, V>)
    requires |bs| > 0 && WellPlaced(bs, hash, seed)
    ensures var b := hash(e.key, seed) % |bs|;
            MapOf(Flatten(bs[b := [e] + bs[b]])) == MapOf(Flatten(bs))[e.key := e.value]
  {
    var b := hash(e.key, seed) % |bs|;
    var c := [e] + bs[b];
    forall x: Entry<K, V> | x in c ensures hash(x.key, seed) % |bs| == b {
      if x != e {
        assert x in bs[b];
      }
    }
    var after, before := Flatten(bs[b := c]), Flatten(bs);
    forall k ensures Find(after, k) == if k == e.key then Some(e.value) else Find(before, k) {
      ReplaceFind(bs, hash, seed, b, c, k);
      if hash(k, seed) % |bs| == b {
        FindLocal(bs, hash, seed, k);
        assert c[0] == e && c[1..] == bs[b];
        assert Find(c, k) == if k == e.key then Some(e.value) else Find(bs[b], k);
      }
    }
    MapOfPointwise(after, before, e.key, Some(e.value));
  }

  /** Inside one bucket of a valid layout, keys are pairwise distinct, and each
      entry is the one the table maps its key to. */
  lemma BucketListing<K, V, S>(bs: seq<seq<Entry<K, V>>>, hash: (K, S) -> nat, seed: S, b: nat, j: nat)
    requires Layout(bs, hash, seed) && b < |bs| && j < |bs[b]|
    ensures forall i | 0 <= i < |bs[b]| && i != j :: bs[b][i].key != bs[b][j].key
    ensures bs[b][j].key in MapOf(Flatten(bs)) && MapOf(Flatten(bs))[bs[b][j].key] == bs[b][j].value
    ensures bs[b][j] in multiset(Flatten(bs))
  {
    FlattenSplit(bs, b);
    UniqueSub(multiset(Flatten(bs)), multiset(bs[b]));
    Listing(bs[b]);
    assert bs[b][j] in bs[b];
    FlattenMember(bs, bs[b][j]);
    FindUnique(Flatten(bs), bs[b][j].key, bs[b][j].value);
  }
  /** `add` of a key the table holds: the entry found in the key's bucket gets
      the new key and value in place. */
  lemma OverwriteAt<K, V, S>(bs: seq<seq<Entry<K, V>>>, hash: (K, S) -> nat, seed: S, j: nat, e: Entry<K, V>)
    requires Layout(bs, hash, seed)
    requires j < |bs[hash(e.key, seed) % |bs|]|
    requires bs[hash(e.key, seed) % |bs|][j].key == e.key
    ensures var b := hash(e.key, seed) % |bs|;
            var gone := bs[b][j];
            var bs' := bs[b := bs[b][j := e]];
            && e.key in MapOf(Flatten(bs)) && gone == Entry(e.key, MapOf(Flatten(bs))[e.key])
            && gone in multiset(Flatten(bs))
            && Layout(bs', hash, seed)
            && |Flatten(bs')| == |Flatten(bs)|
            && multiset(Flatten(bs')) == multiset(Flatten(bs)) - multiset{gone} + multiset{e}
            && MapOf(Flatten(bs')) == MapOf(Flatten(bs))[e.key := e.value]
  {
    var b := hash(e.key, seed) % |bs|;
    BucketListing(bs, hash, seed, b, j);
    OverwriteBag(bs, b, j, e);
    OverwriteMap(bs, hash, seed, b, j, e);
    FlattenReplace(bs, b, bs[b][j := e]);
  }

  lemma OverwriteBag<K, V>(bs: seq<seq<Entry<K, V>>>, b: nat, j: nat, e: Entry<K, V>)
    requires UniqueKeys(Flatten(bs)) && b < |bs| && j < |bs[b]| && bs[b][j].key == e.key
    requires bs[b][j] in multiset(Flatten(bs))
    ensures var gone := bs[b][j];
            var bs' := bs[b := bs[b][j := e]];
            && multiset(Flatten(bs')) == multiset(Flatten(bs)) - multiset{gone} + multiset{e}
            && UniqueKeys(Flatten(bs'))
  {
    var c := bs[b];
    FlattenReplace(bs, b, c[j := e]);
    UniqueSwap(multiset(Flatten(bs)), c[j], e);
  }

  /** Exchanging an entry for one with the same key keeps the keys unique. */
  lemma UniqueSwap<K, V>(m: multiset<Entry<K, V>>, gone: Entry<K, V>, e: Entry<K, V>)
    requires UniqueBag(m) && gone in m && gone.key == e.key
    ensures UniqueBag(m - multiset{gone} + multiset{e})
  {
    var rest := m - multiset{gone};
    UniqueSub(m, rest);
    assert rest[gone] == 0;
    forall f | f in rest ensures f.key != e.key {
      assert SameKey(f, gone) ==> f == gone;
    }
    UniqueAdd(rest, e);
  }

  lemma OverwriteMap<K, V, S>(bs: seq<seq<Entry<K, V>>>, hash: (K, S) -> nat, seed: S, b: nat, j: nat, e: Entry<K, V>)
    requires |bs| > 0 && WellPlaced(bs, hash, seed) && b == hash(e.key, seed) % |bs|
    requires j < |bs[b]| && bs[b][j].key == e.key
    requires forall i | 0 <= i < |bs[b]| && i != j :: bs[b][i].key != bs[b][j].key
    ensures WellPlaced(bs[b := bs[b][j := e]], hash, seed)
    ensures MapOf(Flatten(bs[b := bs[b][j := e]])) == MapOf(Flatten(bs))[e.key := e.value]
  {
    var c := bs[b];
    var c' := c[j := e];
    forall x: Entry<K, V> | x in c' ensures hash(x.key, seed) % |bs| == b {
      if x != e {
        assert x in c;
      }
    }
    assert forall i | 0 <= i < j :: c[i].key != e.key;
    ReplacePlaced(bs, hash, seed, b, c');
    var after, before := Flatten(bs[b := c']), Flatten(bs);
    forall k ensures Find(after, k) == if k == e.key then Some(e.value) else Find(before, k) {
      ReplaceFind(bs, hash, seed, b, c', k);
      if hash(k, seed) % |bs| == b {
        FindLocal(bs, hash, seed, k);
        FindUpdate(c, j, e, k);
      }
    }
    MapOfPointwise(after, before, e.key, Some(e.value));
  }
  /** `remove` of a key the table holds: its entry is unlinked from its bucket. */
  lemma UnlinkAt<K, V, S>(bs: seq<seq<Entry<K, V>>>, hash: (K, S) -> nat, seed: S, b: nat, j: nat)
    requires Layout(bs, hash, seed)
    requires b < |bs| && j < |bs[b]|
    ensures var gone := bs[b][j];
            var bs' := bs[b := bs[b][..j] + bs[b][j + 1..]];
            && gone.key in MapOf(Flatten(bs)) && MapOf(Flatten(bs))[gone.key] == gone.value
            && gone in multiset(Flatten(bs))
            && Layout(bs', hash, seed)
            && |Flatten(bs')| + 1 == |Flatten(bs)|
            && multiset(Flatten(bs')) == multiset(Flatten(bs)) - multiset{gone}
            && MapOf(Flatten(bs')) == MapOf(Flatten(bs)) - {gone.key}
  {
    BucketListing(bs, hash, seed, b, j);
    UnlinkBag(bs, b, j);
    UniqueSub(multiset(Flatten(bs)), multiset(Flatten(bs[b := bs[b][..j] + bs[b][j + 1..]])));
    UnlinkMap(bs, hash, seed, b, j);
    FlattenReplace(bs, b, bs[b][..j] + bs[b][j + 1..]);
  }

  lemma UnlinkBag<K, V>(bs: seq<seq<Entry<K, V>>>, b: nat, j: nat)
    requires b < |bs| && j < |bs[b]|
    ensures var bs' := bs[b := bs[b][..j] + bs[b][j + 1..]];
            && multiset(bs[b][..j] + bs[b][j + 1..]) == multiset(bs[b]) - multiset{bs[b][j]}
            && multiset(Flatten(bs')) == multiset(Flatten(bs)) - multiset{bs[b][j]}
  {
    var c := bs[b];
    assert c == c[..j] + [c[j]] + c[j + 1..];
    assert multiset(c[..j] + c[j + 1..]) == multiset(c) - multiset{c[j]};
    FlattenReplace(bs, b, c[..j] + c[j + 1..]);
  }

  lemma UnlinkMap<K, V, S>(bs: seq<seq<Entry<K, V>>>, hash: (K, S) -> nat, seed: S, b: nat, j: nat)
    requires |bs| > 0 && WellPlaced(bs, hash, seed) && b < |bs| && j < |bs[b]|
    requires multiset(bs[b][..j] + bs[b][j + 1..]) == multiset(bs[b]) - multiset{bs[b][j]}
    requires forall i | 0 <= i < |bs[b]| && i != j :: bs[b][i].key != bs[b][j].key
    ensures WellPlaced(bs[b := bs[b][..j] + bs[b][j + 1..]], hash, seed)
    ensures MapOf(Flatten(bs[b := bs[b][..j] + bs[b][j + 1..]])) == MapOf(Flatten(bs)) - {bs[b][j].key}
  {
    var c := bs[b];
    var c' := c[..j] + c[j + 1..];
    forall x: Entry<K, V> | x in c' ensures hash(x.key, seed) % |bs| == b {
      assert x in multiset(c');
      assert x in c;
    }
    ReplacePlaced(bs, hash, seed, b, c');
    var after, before := Flatten(bs[b := c']), Flatten(bs);
    forall k ensures Find(after, k) == if k == c[j].key then None else Find(before, k) {
      ReplaceFind(bs, hash, seed, b, c', k);
      if hash(k, seed) % |bs| == b {
        FindLocal(bs, hash, seed, k);
        FindRemove(c, j, k);
      }
    }
    MapOfPointwise(after, before, c[j].key, None);
  }

  // ---------------------------------------------------------------------------
  // The whole table state: the layout, the entry count, and the ownership ledger
  // (every pair ever handed to the table is released or still stored, once)

  ghost predicate Stored<K, V, S>(bs: seq<seq<Entry<K, V>>>, hash: (K, S) -> nat, seed: S,
                                  count: nat, taken: multiset<Entry<K, V>>, released: multiset<Entry<K, V>>)
  {
    && Layout(bs, hash, seed)
    && count == |Flatten(bs)|
    && taken == released + multiset(Flatten(bs))
  }

  /** Overwriting keeps the count, takes the new pair and releases the old one. */
  lemma StoredOverwrite<K, V, S>(bs: seq<seq<Entry<K, V>>>, hash: (K, S) -> nat, seed: S,
                                 count: nat, taken: multiset<Entry<K, V>>, released: multiset<Entry<K, V>>,
                                 j: nat, e: Entry<K, V>)
    requires Stored(bs, hash, seed, count, taken, released)
    requires j < |bs[hash(e.key, seed) % |bs|]|
    requires bs[hash(e.key, seed) % |bs|][j].key == e.key
    ensures var b := hash(e.key, seed) % |bs|;
            var bs' := bs[b := bs[b][j := e]];
            && e.key in MapOf(Flatten(bs)) && bs[b][j] == Entry(e.key, MapOf(Flatten(bs))[e.key])
            && Stored(bs', hash, seed, count, taken + multiset{e}, released + multiset{bs[b][j]})
            && MapOf(Flatten(bs')) == MapOf(Flatten(bs))[e.key := e.value]
  {
    OverwriteAt(bs, hash, seed, j, e);
  }

  /** Inserting a pair with a fresh key counts it and takes it. */
  lemma StoredInsert<K, V, S>(bs: seq<seq<Entry<K, V>>>, hash: (K, S) -> nat, seed: S,
                              count: nat, taken: multiset<Entry<K, V>>, released: multiset<Entry<K, V>>,
                              e: Entry<K, V>)
    requires Stored(bs, hash, seed, count, taken, released)
    requires e.key !in MapOf(Flatten(bs))
    ensures var b := hash(e.key, seed) % |bs|;
            var bs' := bs[b := [e] + bs[b]];
            && Stored(bs', hash, seed, count + 1, taken + multiset{e}, released)
            && MapOf(Flatten(bs')) == MapOf(Flatten(bs))[e.key := e.value]
  {
    var b := hash(e.key, seed) % |bs|;
    var bs' := bs[b := [e] + bs[b]];
    FindLocal(bs, hash, seed, e.key);
    InsertFresh(bs, hash, seed, e);
    assert |Flatten(bs')| == |multiset(Flatten(bs'))| == |multiset(Flatten(bs))| + 1;
  }

  /** Unlinking an entry uncounts it and releases it. */
  lemma StoredUnlink<K, V, S>(bs: seq<seq<Entry<K, V>>>, hash: (K, S) -> nat, seed: S,
                              count: nat, taken: multiset<Entry<K, V>>, released: multiset<Entry<K, V>>,
                              b: nat, j: nat)
    requires Stored(bs, hash, seed, count, taken, released)
    requires b < |bs| && j < |bs[b]|
    ensures count > 0
    ensures var bs' := bs[b := bs[b][..j] + bs[b][j + 1..]];
            && bs[b][j].key in MapOf(Flatten(bs)) && bs[b][j] == Entry(bs[b][j].key, MapOf(Flatten(bs))[bs[b][j].key])
            && Stored(bs', hash, seed, count - 1, taken, released + multiset{bs[b][j]})
            && MapOf(Flatten(bs')) == MapOf(Flatten(bs)) - {bs[b][j].key}
  {
    UnlinkAt(bs, hash, seed, b, j);
  }

  // ---------------------------------------------------------------------------
  // Rehash: every entry, taken bucket by bucket and head first, is prepended to
  // its bucket in the new array

  function Place<K, V, S>(bs: seq<seq<Entry<K, V>>>, e: Entry<K, V>, hash: (K, S) -> nat, seed: S): (r: seq<seq<Entry<K, V>>>)
    requires |bs| > 0
    ensures |r| == |bs|
  {
    var b := hash(e.key, seed) % |bs|;
    bs[b := [e] + bs[b]]
  }

  function Distribute<K, V, S>(bs: seq<seq<Entry<K, V>>>, es: seq<Entry<K, V>>, hash: (K, S) -> nat, seed: S): (r: seq<seq<Entry<K, V>>>)
    requires |bs| > 0
    ensures |r| == |bs|
    decreases |es|
  {
    if es == [] then bs
    else Place(Distribute(bs, es[..|es| - 1], hash, seed), es[|es| - 1], hash, seed)
  }

  /** Distributing entries with unique keys over fresh empty buckets yields a
      valid layout holding exactly those entries, hence the same map. */
  lemma {:induction false} DistributeLayout<K, V, S>(n: nat, es: seq<Entry<K, V>>, hash: (K, S) -> nat, seed: S)
    requires n > 0 && UniqueKeys(es)
    ensures var bs := Distribute(EmptyBuckets(n), es, hash, seed);
            && Layout(bs, hash, seed)
            && multiset(Flatten(bs)) == multiset(es)
            && MapOf(Flatten(bs)) == MapOf(es)
    decreases |es|
  {
    var bs := Distribute(EmptyBuckets(n), es, hash, seed);
    if es == [] {
      FlattenAllEmpty(bs);
    } else {
      var p, e := es[..|es| - 1], es[|es| - 1];
      assert es == p + [e];
      UniqueSub(multiset(es), multiset(p));
      DistributeLayout(n, p, hash, seed);
      var bp := Distribute(EmptyBuckets(n), p, hash, seed);
      MapOfPerm(Flatten(bp), p);
      assert multiset(es) == multiset(p) + multiset{e};
      assert multiset(es)[e] == 1;
      assert e !in multiset(p);
      forall f | f in p ensures f.key != e.key {
        assert f in multiset(es);
        assert SameKey(f, e) ==> f == e;
      }
      assert e.key !in KeySet(p);
      FindLocal(bp, hash, seed, e.key);
      InsertFresh(bp, hash, seed, e);
      MapOfPerm(Flatten(bs), es);
    }
  }

  // ---------------------------------------------------------------------------
  // Positions of the iterator: bucket `b`, entry `p` of its chain

  /** How many entries precede bucket `b` in bucket order. */
  function Offset<K, V>(bs: seq<seq<Entry<K, V>>>, b: nat): nat
    requires b <= |bs|
  {
    |Flatten(bs[..b])|
  }

  /** Stepping over bucket `b` advances the position by its length, and entry
      `p` of bucket `b` is entry `Offset(b) + p` of the flattened table. */
  lemma OffsetStep<K, V>(bs: seq<seq<Entry<K, V>>>, b: nat)
    requires b < |bs|
    ensures Offset(bs, b + 1) == Offset(bs, b) + |bs[b]| <= |Flatten(bs)|
    ensures forall p | 0 <= p < |bs[b]| :: Flatten(bs)[Offset(bs, b) + p] == bs[b][p]
  {
    var c := bs[b];
    FlattenPrefix(bs, b);
    FlattenSplit(bs, b);
    var front := Flatten(bs[..b]);
    var fc := front + c;
    assert Flatten(bs) == fc + Flatten(bs[b + 1..]);
    forall p | 0 <= p < |c| ensures Flatten(bs)[|front| + p] == c[p] {
      assert fc[|front| + p] == c[p];
    }
  }

  lemma OffsetBounds<K, V>(bs: seq<seq<Entry<K, V>>>)
    ensures Offset(bs, 0) == 0
    ensures Offset(bs, |bs|) == |Flatten(bs)|
  {
    assert bs[..|bs|] == bs;
  }

  // ---------------------------------------------------------------------------
  // Projections, for the log of freed key copies

  /** `f` applied to every entry, in order. */
  function Project<K, V, T>(es: seq<Entry<K, V>>, f: Entry<K, V> -> T): (r: seq<T>)
    ensures |r| == |es|
  {
    if es == [] then [] else [f(es[0])] + Project(es[1..], f)
  }

  function KeyOf<K, V>(e: Entry<K, V>): K
  {
    e.key
  }

  /** With unique keys, the keys of the entries, counted with repetition, are
      the keys of the map they stand for, each once. */
  lemma {:induction false} KeysListed<K, V>(es: seq<Entry<K, V>>)
    requires UniqueKeys(es)
    ensures multiset(Project(es, KeyOf)) == multiset(MapOf(es).Keys)
  {
    if es == [] {
      assert MapOf(es).Keys == {};
    } else {
      var x, r := es[0], es[1..];
      UniqueCons(es);
      KeysListed(r);
      assert Project(es, KeyOf) == [x.key] + Project(r, KeyOf);
      assert multiset(MapOf(es).Keys) == multiset{x.key} + multiset(MapOf(r).Keys) by {
        forall k ensures multiset(MapOf(es).Keys)[k] == (multiset{x.key} + multiset(MapOf(r).Keys))[k] {
          if k == x.key {
            assert k !in MapOf(r).Keys;
          }
        }
      }
    }
  }

  /** Rehashing into `n` fresh buckets keeps the count, the ledger and the map. */
  lemma StoredRehash<K, V, S>(bs: seq<seq<Entry<K, V>>>, hash: (K, S) -> nat, seed: S,
                              count: nat, taken: multiset<Entry<K, V>>, released: multiset<Entry<K, V>>,
                              n: nat)
    requires Stored(bs, hash, seed, count, taken, released) && n > 0
    ensures var bs' := Distribute(EmptyBuckets(n), Flatten(bs), hash, seed);
            && Stored(bs', hash, seed, count, taken, released)
            && MapOf(Flatten(bs')) == MapOf(Flatten(bs))
  {
    var bs' := Distribute(EmptyBuckets(n), Flatten(bs), hash, seed);
    DistributeLayout(n, Flatten(bs), hash, seed);
    assert |Flatten(bs')| == |multiset(Flatten(bs'))| == |multiset(Flatten(bs))| == |Flatten(bs)|;
  }
}
