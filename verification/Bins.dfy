/** Which bin a key belongs to: the hash, the mask and the level bit of
    sequential/hash.c:10-12, and what doubling the number of bins does to them. */
module Bins {
  import opened Trie
  import opened Slots
  import Murmur

  // ------------------------------------------------------------ bin numbers

  /** a & b. */
  function And(a: nat, b: nat): nat {
    if a == 0 || b == 0 then 0 else 2 * And(a / 2, b / 2) + (if a % 2 == 1 && b % 2 == 1 then 1 else 0)
  }

  predicate PowerOfTwo(n: nat) { n == 1 || (n > 0 && n % 2 == 0 && PowerOfTwo(n / 2)) }

  /** Masking with a power of two less one is the remainder. */
  lemma {:induction false} AndMask(a: nat, n: nat)
    requires PowerOfTwo(n)
    ensures And(a, n - 1) == a % n
    decreases n
  {
    if n > 1 {
      AndMask(a / 2, n / 2);
      assert (n - 1) / 2 == n / 2 - 1 && (n - 1) % 2 == 1;
      HalfRemainder(a, n / 2);
    } else {
      assert n == 1 && n - 1 == 0;
    }
  }

  lemma HalfRemainder(a: nat, m: nat)
    requires m > 0
    ensures a % (2 * m) == 2 * (a / 2 % m) + a % 2
  {
    var q, r := a / 2 / m, a / 2 % m;
    assert a == 2 * (q * m + r) + a % 2;
    assert a == q * (2 * m) + (2 * r + a % 2);
    Remainder(a, 2 * m, q, 2 * r + a % 2);
  }

  lemma Remainder(a: int, n: nat, q: int, r: int)
    requires a == q * n + r && 0 <= r < n
    ensures a % n == r && a / n == q
  {
    var d := a / n - q;
    Quotient(a, n);
    assert d * n == r - a % n;
    NoMultiple(d, n);
  }

  lemma Quotient(a: int, n: nat)
    requires n > 0
    ensures a / n * n + a % n == a && 0 <= a % n < n
  {
  }

  lemma NoMultiple(d: int, n: int)
    requires -n < d * n < n
    ensures d == 0
  {
    if d >= 1 { AtLeast(d, n); }
    if d <= -1 { AtLeast(-d, n); }
  }

  lemma AtLeast(d: int, n: int)
    requires d >= 1 && n > 0
    ensures d * n >= n
  {
  }

  lemma {:induction false} AndSelf(n: nat)
    ensures And(n, n) == n
  {
    if n > 0 { AndSelf(n / 2); }
  }

  /** The test `size & (size - 1)` finds out the powers of two. */
  lemma {:induction false} PowerTest(n: nat)
    requires n > 0
    ensures And(n, n - 1) == 0 <==> PowerOfTwo(n)
    decreases n
  {
    var m := n / 2;
    if n % 2 == 0 {
      assert (n - 1) / 2 == m - 1 && (n - 1) % 2 == 1;
      PowerTest(m);
    } else if n > 1 {
      assert (n - 1) / 2 == m && (n - 1) % 2 == 0;
      AndSelf(m);
    }
  }

  /** Testing the bit above the mask tells the two halves of the doubled range apart. */
  lemma {:induction false} AndBit(a: nat, n: nat)
    requires PowerOfTwo(n)
    ensures a % (2 * n) == a % n + (if And(a, n) != 0 then n else 0)
    decreases n
  {
    if n == 1 {
      assert And(a / 2, 0) == 0;
    } else {
      AndBit(a / 2, n / 2);
      HalfRemainder(a, n);
      HalfRemainder(a, n / 2);
      assert n == 2 * (n / 2);
    }
  }

  // ------------------------------------------------------------------ hashing

  function KeyBytes(key: Key): (b: seq<bv8>)
    ensures |b| == KEY_LEN
  {
    seq(KEY_LEN, i requires 0 <= i < KEY_LEN => key[i] as bv8)
  }

  type Seed = s: nat | s < 0x1_0000_0000

  /** What MurmurHash3_x64_64() returns, and MurmurHash3_x64_128() puts in h[1]. */
  function Hash(key: Key, seed: Seed): nat {
    Murmur.Digest(KeyBytes(key), seed as bv32).h2 as nat
  }

  /** The hash function of one table. */
  function HashOf(seed: Seed): Key -> nat { key => Hash(key, seed) }

  function BinOf(h: nat, size: nat): (bin: nat)
    requires PowerOfTwo(size)
    ensures bin < size
  {
    AndMask(h, size);
    And(h, size - 1)
  }

  /** The mask keeps the low bits of the hash. */
  lemma BinIsRemainder(h: nat, size: nat)
    requires PowerOfTwo(size)
    ensures size > 0 && BinOf(h, size) == h % size
  {
    AndMask(h, size);
  }

  /** HASH_COMP_IDX and HASH_IDX. */
  function Home(key: Key, seed: Seed, size: nat): (bin: nat)
    requires PowerOfTwo(size)
    ensures bin < size
  {
    hide Hash;
    BinOf(Hash(key, seed), size)
  }

  /** HASH_LEVEL, for a key with hash h. */
  predicate LevelOf(h: nat, size: nat) { And(h, size) != 0 }

  /** Doubling sends the keys of a bin to one of two bins. */
  lemma HomeSplits(h: nat, size: nat)
    requires PowerOfTwo(size)
    ensures PowerOfTwo(2 * size)
    ensures BinOf(h, 2 * size) == BinOf(h, size) + (if LevelOf(h, size) then size else 0)
  {
    hide And;
    AndMask(h, size);
    AndMask(h, 2 * size);
    AndBit(h, size);
  }

  /** MurmurHash3_x64_64() of a key. */
  method Murmur64(key: Key, seed: Seed) returns (h: nat)
    ensures h == Hash(key, seed)
  {
    var word := Murmur.MurmurHash3_x64_64(KeyBytes(key), seed as bv32);
    h := word as nat;
  }

  /** HASH_COMP_IDX. */
  method CompIdx(key: Key, seed: Seed, size: nat) returns (idx: nat)
    requires PowerOfTwo(size)
    ensures idx == Home(key, seed, size)
  {
    hide And, Hash;
    var h := Murmur64(key, seed);
    AndMask(h, size);
    idx := And(h, size - 1);
  }

  /** HASH_IDX, after MurmurHash3_x64_128(). */
  method Idx(key: Key, seed: Seed, size: nat) returns (idx: nat)
    requires PowerOfTwo(size)
    ensures idx == Home(key, seed, size)
  {
    hide And;
    var h := Murmur.MurmurHash3_x64_128(KeyBytes(key), seed as bv32);
    idx := And(h.1 as nat, size - 1);
  }
}
