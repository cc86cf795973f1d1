/** The seeded djb2 string hash of src/hmap/djb2.c.

    Bytes are unsigned 8-bit values and `size_t` is a 64-bit word, so the
    multiplication and the addition of the seed wrap modulo 2^64 exactly as the
    C code does.  A key is a NUL-terminated byte buffer; only the bytes before
    the first NUL take part in the hash. */
module Djb2 {

  type byte = bv8

  /** `size_t` on an LP64 platform. */
  type word = bv64

  /** The contents of a C string: a byte sequence without a NUL byte. */
  type CString = s: seq<byte> | NoNul(s)

  predicate NoNul(s: seq<byte>)
  {
    forall i | 0 <= i < |s| :: s[i] != 0
  }

  /** The initial accumulator of djb2, before the seed is added. */
  const Basis: word := 5381

  /** One round of djb2: multiply by 33, then XOR in the next byte. */
  function Step(h: word, c: byte): word
  {
    (h * 33) ^ (c as word)
  }

  /** The djb2 rounds over `s`, starting from the accumulator `h`. */
  function Fold(h: word, s: seq<byte>): word
    decreases |s|
  {
    if s == [] then h else Fold(Step(h, s[0]), s[1..])
  }

  /** The length of the C string stored in `buf`: the index of its first NUL. */
  function StrLen(buf: seq<byte>): (n: nat)
    requires 0 in buf
    ensures n < |buf| && buf[n] == 0
    ensures NoNul(buf[..n])
  {
    if buf[0] == 0 then 0 else StrLen(buf[1..]) + 1
  }

  /** What `smap_djb2(key, seed)` returns for the buffer `buf`. */
  function HashOf(buf: seq<byte>, seed: word): word
    requires 0 in buf
  {
    Fold(Basis + seed, buf[..StrLen(buf)])
  }

  /** The hash of a C string's contents, as the string table uses it: the
      djb2 rounds over the bytes before the terminating NUL (see `Terminator`). */
  function StrHash(key: seq<byte>, seed: word): nat
  {
    Fold(Basis + seed, key) as nat
  }

  /** The loop of `smap_djb2`: the pointer walk over `key` becomes the index `i`. */
  method Hash(key: seq<byte>, seed: word) returns (hash: word)
    requires 0 in key
    ensures hash == HashOf(key, seed)
  {
    hash := Basis + seed;
    var i := 0;
    while key[i] != 0
      invariant i <= StrLen(key)
      invariant hash == Fold(Basis + seed, key[..i])
      decreases StrLen(key) - i
    {
      FoldSnoc(Basis + seed, key[..i], key[i]);
      assert key[..i + 1] == key[..i] + [key[i]];
      hash := Step(hash, key[i]);
      i := i + 1;
    }
  }

  /** Appending one byte to the input performs one more round on the result. */
  lemma {:induction false} FoldSnoc(h: word, s: seq<byte>, c: byte)
    ensures Fold(h, s + [c]) == Step(Fold(h, s), c)
    decreases |s|
  {
    if s == [] {
      assert [c][1..] == [];
    } else {
      assert (s + [c])[1..] == s[1..] + [c];
      FoldSnoc(Step(h, s[0]), s[1..], c);
    }
  }

  /** The first NUL of `s + [0] + rest` is the one right after `s`. */
  lemma {:induction false} StrLenOfTerminated(s: seq<byte>, rest: seq<byte>)
    requires NoNul(s)
    ensures 0 in s + [0] + rest
    ensures StrLen(s + [0] + rest) == |s|
    decreases |s|
  {
    assert (s + [0] + rest)[|s|] == 0;
    if s != [] {
      assert (s + [0] + rest)[1..] == s[1..] + [0] + rest;
      StrLenOfTerminated(s[1..], rest);
    }
  }

  /** The empty string hashes to 5381 + seed, wrapped to the word size. */
  lemma EmptyKey(seed: word)
    ensures HashOf([0], seed) == Basis + seed
    ensures StrHash([], seed) == (Basis + seed) as nat
  {
    assert [0][..0] == [];
    var empty: seq<byte> := [];
    assert empty + [0] == [0];
  }

  /** Terminator: whatever follows the first NUL does not affect the hash, and
      the seed only moves the starting accumulator. */
  lemma Terminator(s: CString, rest: seq<byte>, seed: word)
    ensures 0 in s + [0] + rest
    ensures HashOf(s + [0] + rest, seed) == Fold(Basis + seed, s)
    ensures HashOf(s + [0] + rest, seed) as nat == StrHash(s, seed)
  {
    StrLenOfTerminated(s, rest);
    StrLenOfTerminated(s, []);
    assert (s + [0] + rest)[..|s|] == s;
    assert (s + [0] + [])[..|s|] == s;
    assert s + [0] + [] == s + [0];
  }

  /** Step rule: hash(s . c) = (hash(s) * 33) XOR c for a non-NUL byte c. */
  lemma AppendByte(s: CString, c: byte, seed: word)
    requires c != 0
    ensures NoNul(s + [c])
    ensures StrHash(s + [c], seed) == Step(StrHash(s, seed) as word, c) as nat
  {
    assert forall i | 0 <= i < |s + [c]| :: (s + [c])[i] == if i < |s| then s[i] else c;
    Terminator(s, [], seed);
    Terminator(s + [c], [], seed);
    FoldSnoc(Basis + seed, s, c);
  }
}
