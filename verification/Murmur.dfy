/** sequential/murmur3.c: the 64-bit and the 128-bit hash, the bijection they end
    with, and why two keys never share their 128 bits. */
module Murmur {
  type Word = bv64
  datatype State = State(h1: Word, h2: Word)

  function Rotl64(x: Word, r: nat): Word
    requires r <= 64
  {
    (x << r) | (x >> (64 - r))
  }

  function TimesC1(k: Word): Word { k * 0x87c37b91114253d5 }
  function TimesC2(k: Word): Word { k * 0x4cf5ad432745937f }

  // ---------------------------------------------------------------- fmix64

  function Xorshift(k: Word): Word { k ^ (k >> 33) }
  function TimesM1(k: Word): Word { k * 0xff51afd7ed558ccd }
  function TimesM2(k: Word): Word { k * 0xc4ceb9fe1a85ec53 }

  function Fmix64(k: Word): Word {
    Xorshift(TimesM2(Xorshift(TimesM1(Xorshift(k)))))
  }

  /** The multipliers are odd, so they have inverses modulo 2^64. */
  function OverM1(k: Word): Word { k * 0x4f74430c22a54005 }
  function OverM2(k: Word): Word { k * 0x9cb4b2f8129337db }
  function OverC1(k: Word): Word { k * 0xa98409e882ce4d7d }
  function OverC2(k: Word): Word { k * 0xa81e14edd9de2c7f }

  function Unfmix64(k: Word): Word {
    Xorshift(OverM1(Xorshift(OverM2(Xorshift(k)))))
  }

  lemma XorshiftTwice(k: Word)
    ensures Xorshift(Xorshift(k)) == k
  {
    assert Xorshift(k ^ (k >> 33)) == k;
  }

  lemma TimesOver(k: Word)
    ensures OverM1(TimesM1(k)) == k && OverM2(TimesM2(k)) == k
    ensures OverC1(TimesC1(k)) == k && OverC2(TimesC2(k)) == k
  {
    assert OverM1(k * 0xff51afd7ed558ccd) == k;
    assert OverM2(k * 0xc4ceb9fe1a85ec53) == k;
    assert OverC1(k * 0x87c37b91114253d5) == k;
    assert OverC2(k * 0x4cf5ad432745937f) == k;
  }

  lemma OverTimes(k: Word)
    ensures TimesM1(OverM1(k)) == k && TimesM2(OverM2(k)) == k
  {
    assert TimesM1(k * 0x4f74430c22a54005) == k;
    assert TimesM2(k * 0x9cb4b2f8129337db) == k;
  }

  /** fmix64() is a bijection on 64-bit words. */
  lemma Fmix64Bijective(k: Word)
    ensures Unfmix64(Fmix64(k)) == k && Fmix64(Unfmix64(k)) == k
  {
    hide Xorshift, TimesM1, TimesM2, OverM1, OverM2;
    var a := Xorshift(k);
    var b := Xorshift(TimesM1(a));
    XorshiftTwice(k);
    TimesOver(a);
    XorshiftTwice(TimesM1(a));
    TimesOver(b);
    XorshiftTwice(TimesM2(b));
    var c := Xorshift(OverM2(a));
    OverTimes(a);
    XorshiftTwice(OverM2(a));
    OverTimes(c);
    XorshiftTwice(OverM1(c));
  }

  lemma Fmix64Injective(j: Word, k: Word)
    requires Fmix64(j) == Fmix64(k)
    ensures j == k
  {
    hide Fmix64, Unfmix64;
    Fmix64Bijective(j);
    Fmix64Bijective(k);
  }

  // ------------------------------------------------------- what is computed

  /** The bytes as a little-endian word. */
  function LittleEndian(b: seq<bv8>): Word {
    if b == [] then 0 else Lower(b[0], LittleEndian(b[1..]))
  }

  function Lower(b: bv8, w: Word): Word { (b as Word) ^ (w << 8) }

  function Scramble1(k: Word): Word { TimesC2(Rotl64(TimesC1(k), 31)) }
  function Scramble2(k: Word): Word { TimesC1(Rotl64(TimesC2(k), 33)) }

  function Absorb(s: State, k1: Word, k2: Word): State {
    var h1 := (Rotl64(s.h1 ^ Scramble1(k1), 27) + s.h2) * 5 + 0x52dce729;
    var h2 := (Rotl64(s.h2 ^ Scramble2(k2), 31) + h1) * 5 + 0x38495ab5;
    State(h1, h2)
  }

  /** The state after the first n blocks of 16 bytes. */
  function Body(data: seq<bv8>, n: nat, seed: bv32): State
    requires 16 * n <= |data|
  {
    if n == 0 then State(seed as Word, seed as Word)
    else
      var i := 16 * (n - 1);
      Absorb(Body(data, n - 1, seed), LittleEndian(data[i..i + 8]), LittleEndian(data[i + 8..i + 16]))
  }

  /** Up to 15 bytes: the first eight go to one half, the rest to the other. */
  function Tail(s: State, tail: seq<bv8>): State
    requires |tail| < 16
  {
    if tail == [] then s
    else if |tail| <= 8 then State(Xor(s.h1, Scramble1(LittleEndian(tail))), s.h2)
    else State(Xor(s.h1, Scramble1(LittleEndian(tail[..8]))), Xor(s.h2, Scramble2(LittleEndian(tail[8..]))))
  }

  /** h1 += h2; h2 += h1. */
  function Cross(s: State): State { State(Plus(s.h1, s.h2), Plus(s.h2, Plus(s.h1, s.h2))) }

  function Plus(a: Word, b: Word): Word { a + b }
  function Minus(a: Word, b: Word): Word { a - b }
  function Xor(a: Word, b: Word): Word { a ^ b }

  function Both(s: State): State { State(Fmix64(s.h1), Fmix64(s.h2)) }

  function Length(s: State, len: Word): State { State(Xor(s.h1, len), Xor(s.h2, len)) }

  function Finish(s: State, len: Word): State { Cross(Both(Cross(Length(s, len)))) }

  /** What both hash functions compute, for every length. */
  function Digest(data: seq<bv8>, seed: bv32): State
    requires |data| < 0x8000_0000
  {
    var n := |data| / 16;
    Finish(Tail(Body(data, n, seed), data[16 * n..]), |data| as Word)
  }

  // ------------------------------------------------------------- injectivity

  lemma PlusMinus(a: Word, b: Word)
    ensures Minus(Plus(a, b), b) == a
  {
    assert Minus(a + b, b) == a;
  }

  lemma XorTwice(a: Word, b: Word)
    ensures Xor(Xor(a, b), b) == a && Xor(b, Xor(b, a)) == a
  {
    assert Xor(a ^ b, b) == a && Xor(b, b ^ a) == a;
  }

  lemma CrossInjective(s: State, t: State)
    requires Cross(s) == Cross(t)
    ensures s == t
  {
    hide Plus, Minus;
    PlusMinus(s.h2, Plus(s.h1, s.h2));
    PlusMinus(t.h2, Plus(t.h1, t.h2));
    PlusMinus(s.h1, s.h2);
    PlusMinus(t.h1, t.h2);
  }

  lemma LengthInjective(s: State, t: State, len: Word)
    requires Length(s, len) == Length(t, len)
    ensures s == t
  {
    hide Xor;
    XorTwice(s.h1, len);
    XorTwice(t.h1, len);
    XorTwice(s.h2, len);
    XorTwice(t.h2, len);
  }

  /** The finalisation loses nothing of the 128 bits of the state. */
  lemma FinishInjective(s: State, t: State, len: Word)
    requires Finish(s, len) == Finish(t, len)
    ensures s == t
  {
    hide Cross, Fmix64, Length;
    var (u, v) := (Cross(Length(s, len)), Cross(Length(t, len)));
    CrossInjective(Both(u), Both(v));
    Fmix64Injective(u.h1, v.h1);
    Fmix64Injective(u.h2, v.h2);
    CrossInjective(Length(s, len), Length(t, len));
    LengthInjective(s, t, len);
  }

  lemma RotateBack(k: Word)
    ensures Rotl64(Rotl64(k, 31), 33) == k
  {
    assert Rotl64((k << 31) | (k >> 33), 33) == k;
  }

  lemma Scramble1Injective(j: Word, k: Word)
    requires Scramble1(j) == Scramble1(k)
    ensures j == k
  {
    hide TimesC1, TimesC2, OverC1, OverC2, Rotl64;
    TimesOver(Rotl64(TimesC1(j), 31));
    TimesOver(Rotl64(TimesC1(k), 31));
    RotateBack(TimesC1(j));
    RotateBack(TimesC1(k));
    TimesOver(j);
    TimesOver(k);
  }

  lemma Unfold(b: seq<bv8>, i: nat)
    requires i < |b|
    ensures LittleEndian(b[i..]) == Lower(b[i], LittleEndian(b[i + 1..]))
  {
    assert b[i..][1..] == b[i + 1..] && b[i..][0] == b[i];
  }

  /** Eight bytes can be read off the word they make. */
  lemma EightBytes(a: seq<bv8>, b: seq<bv8>)
    requires |a| == |b| == 8 && LittleEndian(a) == LittleEndian(b)
    ensures a == b
  {
    hide LittleEndian;
    AsWord(a);
    AsWord(b);
    Apart(a[0], a[1], a[2], a[3], a[4], a[5], a[6], a[7], b[0], b[1], b[2], b[3], b[4], b[5], b[6], b[7]);
  }

  function Join(b0: bv8, b1: bv8, b2: bv8, b3: bv8, b4: bv8, b5: bv8, b6: bv8, b7: bv8): Word {
    (b0 as Word) ^ (b1 as Word << 8) ^ (b2 as Word << 16) ^ (b3 as Word << 24)
    ^ (b4 as Word << 32) ^ (b5 as Word << 40) ^ (b6 as Word << 48) ^ (b7 as Word << 56)
  }

  lemma Apart(a0: bv8, a1: bv8, a2: bv8, a3: bv8, a4: bv8, a5: bv8, a6: bv8, a7: bv8,
              b0: bv8, b1: bv8, b2: bv8, b3: bv8, b4: bv8, b5: bv8, b6: bv8, b7: bv8)
    requires Join(a0, a1, a2, a3, a4, a5, a6, a7) == Join(b0, b1, b2, b3, b4, b5, b6, b7)
    ensures a0 == b0 && a1 == b1 && a2 == b2 && a3 == b3 && a4 == b4 && a5 == b5 && a6 == b6 && a7 == b7
  {
  }

  lemma AsWord(b: seq<bv8>)
    requires |b| == 8
    ensures LittleEndian(b) == Join(b[0], b[1], b[2], b[3], b[4], b[5], b[6], b[7])
  {
    hide LittleEndian, Join, Lower;
    assert b[0..] == b;
    Unfold(b, 0); Unfold(b, 1); Unfold(b, 2); Unfold(b, 3);
    Unfold(b, 4); Unfold(b, 5); Unfold(b, 6); Unfold(b, 7);
    NoBytes(b[8..]);
    Horner(b[0], b[1], b[2], b[3], b[4], b[5], b[6], b[7],
           LittleEndian(b[0..]), LittleEndian(b[1..]), LittleEndian(b[2..]), LittleEndian(b[3..]),
           LittleEndian(b[4..]), LittleEndian(b[5..]), LittleEndian(b[6..]), LittleEndian(b[7..]));
  }

  lemma NoBytes(b: seq<bv8>)
    requires b == []
    ensures LittleEndian(b) == 0
  {
  }

  lemma Horner(b0: bv8, b1: bv8, b2: bv8, b3: bv8, b4: bv8, b5: bv8, b6: bv8, b7: bv8,
               w0: Word, w1: Word, w2: Word, w3: Word, w4: Word, w5: Word, w6: Word, w7: Word)
    requires w0 == Lower(b0, w1) && w1 == Lower(b1, w2) && w2 == Lower(b2, w3)
    requires w3 == Lower(b3, w4) && w4 == Lower(b4, w5) && w5 == Lower(b5, w6)
    requires w6 == Lower(b6, w7) && w7 == Lower(b7, 0)
    ensures w0 == Join(b0, b1, b2, b3, b4, b5, b6, b7)
  {
  }

  /** With one seed, no two keys of the index have the same 128-bit hash. */
  lemma KeysDoNotCollide(a: seq<bv8>, b: seq<bv8>, seed: bv32)
    requires |a| == |b| == 8 && Digest(a, seed) == Digest(b, seed)
    ensures a == b
  {
    hide Finish, Scramble1, LittleEndian, Xor;
    assert a[0..] == a && b[0..] == b;
    var s: State := Body(a, 0, seed);
    FinishInjective(Tail(s, a), Tail(s, b), 8);
    XorTwice(Scramble1(LittleEndian(a)), s.h1);
    XorTwice(Scramble1(LittleEndian(b)), s.h1);
    Scramble1Injective(LittleEndian(a), LittleEndian(b));
    EightBytes(a, b);
  }

  // -------------------------------------------------------------- the code

  /** w << 8*i. */
  function Up(w: Word, i: nat): Word {
    match i
    case 0 => w << 0
    case 1 => w << 8
    case 2 => w << 16
    case 3 => w << 24
    case 4 => w << 32
    case 5 => w << 40
    case 6 => w << 48
    case 7 => w << 56
    case _ => 0
  }

  /** The bytes from i on, moved up by their distance from byte 0. */
  function From(b: seq<bv8>, i: nat): Word {
    if i < |b| <= 8 then Up(LittleEndian(b[i..]), i) else 0
  }

  /** One case of the switch: k ^= (uint64_t)(b[i]) << 8*i. */
  function OrIn(k: Word, b: seq<bv8>, i: nat): (r: Word)
    requires i < |b| <= 8 && k == From(b, i + 1)
    ensures r == From(b, i)
  {
    hide LittleEndian, Lower, Up, Xor;
    Unfold(b, i);
    NoBytes([]);
    assert b[|b|..] == [];
    UpLower(b[i], LittleEndian(b[i + 1..]), i);
    Xor(k, Up(b[i] as Word, i))
  }

  lemma UpLower(x: bv8, w: Word, i: nat)
    requires i < 8
    ensures Up(Lower(x, w), i) == Xor(Up(w, i + 1), Up(x as Word, i))
    ensures Up(0, i + 1) == 0
  {
    hide Up, Lower, Xor;
    UpZero(i + 1);
    match i {
      case 0 => UpLower0(x, w);
      case 1 => UpLower1(x, w);
      case 2 => UpLower2(x, w);
      case 3 => UpLower3(x, w);
      case 4 => UpLower4(x, w);
      case 5 => UpLower5(x, w);
      case 6 => UpLower6(x, w);
      case 7 => UpLower7(x, w);
    }
  }

  lemma UpZero(i: nat)
    ensures Up(0, i) == 0
  {
  }

  lemma UpLower0(x: bv8, w: Word)
    ensures Up(Lower(x, w), 0) == Xor(Up(w, 1), Up(x as Word, 0))
  {
  }

  lemma UpLower1(x: bv8, w: Word)
    ensures Up(Lower(x, w), 1) == Xor(Up(w, 2), Up(x as Word, 1))
  {
  }

  lemma UpLower2(x: bv8, w: Word)
    ensures Up(Lower(x, w), 2) == Xor(Up(w, 3), Up(x as Word, 2))
  {
  }

  lemma UpLower3(x: bv8, w: Word)
    ensures Up(Lower(x, w), 3) == Xor(Up(w, 4), Up(x as Word, 3))
  {
  }

  lemma UpLower4(x: bv8, w: Word)
    ensures Up(Lower(x, w), 4) == Xor(Up(w, 5), Up(x as Word, 4))
  {
  }

  lemma UpLower5(x: bv8, w: Word)
    ensures Up(Lower(x, w), 5) == Xor(Up(w, 6), Up(x as Word, 5))
  {
  }

  lemma UpLower6(x: bv8, w: Word)
    ensures Up(Lower(x, w), 6) == Xor(Up(w, 7), Up(x as Word, 6))
  {
  }

  lemma UpLower7(x: bv8, w: Word)
    ensures Up(Lower(x, w), 7) == Xor(Up(w, 8), Up(x as Word, 7))
  {
  }

  /** The switch over the bytes after the last block, every case falling through to
      the next one. */
  method SwitchTail(s: State, tail: seq<bv8>) returns (r: State)
    requires |tail| < 16
    ensures r == Tail(s, tail)
  {
    hide LittleEndian, OrIn, Up, Scramble1, Scramble2, Xor;
    var n := |tail|;
    var low, high := tail[..if n < 8 then n else 8], tail[if n < 8 then n else 8..];
    var k1, k2, h1, h2 := 0, 0, s.h1, s.h2;
    if n >= 15 { k2 := OrIn(k2, high, 6); }
    if n >= 14 { k2 := OrIn(k2, high, 5); }
    if n >= 13 { k2 := OrIn(k2, high, 4); }
    if n >= 12 { k2 := OrIn(k2, high, 3); }
    if n >= 11 { k2 := OrIn(k2, high, 2); }
    if n >= 10 { k2 := OrIn(k2, high, 1); }
    if n >= 9 { k2 := OrIn(k2, high, 0); }
    if n >= 9 { h2 := Xor(h2, Scramble2(k2)); }
    if n >= 8 { k1 := OrIn(k1, low, 7); }
    if n >= 7 { k1 := OrIn(k1, low, 6); }
    if n >= 6 { k1 := OrIn(k1, low, 5); }
    if n >= 5 { k1 := OrIn(k1, low, 4); }
    if n >= 4 { k1 := OrIn(k1, low, 3); }
    if n >= 3 { k1 := OrIn(k1, low, 2); }
    if n >= 2 { k1 := OrIn(k1, low, 1); }
    if n >= 1 { k1 := OrIn(k1, low, 0); }
    if n >= 1 { h1 := Xor(h1, Scramble1(k1)); }
    FromStart(low);
    FromStart(high);
    assert n <= 8 ==> low == tail;
    r := State(h1, h2);
  }

  lemma FromStart(b: seq<bv8>)
    requires |b| <= 8
    ensures From(b, 0) == LittleEndian(b)
  {
    if b != [] { assert b[0..] == b; ShiftZero(LittleEndian(b)); }
  }

  lemma ShiftZero(w: Word)
    ensures Up(w, 0) == w
  {
  }

  /** The loop over the blocks of 16 bytes. */
  method Blocks(data: seq<bv8>, seed: bv32) returns (s: State)
    ensures s == Body(data, |data| / 16, seed)
  {
    hide LittleEndian, Scramble1, Scramble2, Absorb;
    s := State(seed as Word, seed as Word);
    for i := 0 to |data| / 16
      invariant s == Body(data, i, seed)
    {
      var j := 16 * i;
      s := Absorb(s, LittleEndian(data[j..j + 8]), LittleEndian(data[j + 8..j + 16]));
    }
  }

  /** MurmurHash3_x64_128(): both words. */
  method MurmurHash3_x64_128(data: seq<bv8>, seed: bv32) returns (out: (Word, Word))
    requires |data| < 0x8000_0000
    ensures State(out.0, out.1) == Digest(data, seed)
  {
    hide Body, Tail, Xor, Plus, Fmix64;
    var s := Blocks(data, seed);
    s := SwitchTail(s, data[16 * (|data| / 16)..]);
    var h1, h2 := s.h1, s.h2;
    h1 := Xor(h1, |data| as Word);
    h2 := Xor(h2, |data| as Word);
    h1 := Plus(h1, h2);
    h2 := Plus(h2, h1);
    h1 := Fmix64(h1);
    h2 := Fmix64(h2);
    h1 := Plus(h1, h2);
    h2 := Plus(h2, h1);
    out := (h1, h2);
  }

  /** MurmurHash3_x64_64(): the second word. */
  method MurmurHash3_x64_64(data: seq<bv8>, seed: bv32) returns (out: Word)
    requires |data| < 0x8000_0000
    ensures out == Digest(data, seed).h2
  {
    hide Body, Tail, Xor, Plus, Fmix64;
    var s := Blocks(data, seed);
    s := SwitchTail(s, data[16 * (|data| / 16)..]);
    var h1, h2 := s.h1, s.h2;
    h1 := Xor(h1, |data| as Word);
    h2 := Xor(h2, |data| as Word);
    h1 := Plus(h1, h2);
    h2 := Plus(h2, h1);
    h1 := Fmix64(h1);
    h2 := Fmix64(h2);
    h1 := Plus(h1, h2);
    h2 := Plus(h2, h1);
    out := h2;
  }
}
