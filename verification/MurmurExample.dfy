/** The published value of MurmurHash3_x64_128 for the 43 letters of the pangram "The
    quick brown fox jumps over the lazy dog" and seed 0: two blocks and a tail that
    reaches both halves, so that every constant and every rotation takes part. */
module MurmurExample {
  import opened Murmur

  const LETTERS0: seq<bv8> := [84, 104, 101, 32, 113, 117, 105, 99]
  const LETTERS1: seq<bv8> := [107, 32, 98, 114, 111, 119, 110, 32]
  const LETTERS2: seq<bv8> := [102, 111, 120, 32, 106, 117, 109, 112]
  const LETTERS3: seq<bv8> := [115, 32, 111, 118, 101, 114, 32, 116]
  const LETTERS4: seq<bv8> := [104, 101, 32, 108, 97, 122, 121, 32]
  const LETTERS5: seq<bv8> := [100, 111, 103]
  const PANGRAM := LETTERS0 + LETTERS1 + LETTERS2 + LETTERS3 + LETTERS4 + LETTERS5

  lemma BlockWords1()
    ensures TimesC1(0x6369757120656854) == 0x88afee474edb09e4
    ensures Rotl64(0x88afee474edb09e4, 31) == 0xa76d84f24457f723
    ensures TimesC2(0xa76d84f24457f723) == 0xede938f35bfbb35d
    ensures TimesC2(0x206e776f7262206b) == 0xbad6d15c21228615
    ensures Rotl64(0xbad6d15c21228615, 33) == 0x42450c2b75ada2b8
    ensures TimesC1(0x42450c2b75ada2b8) == 0x9b19a81a60aa0b18
    ensures Rotl64(0xede938f35bfbb35d, 27) == 0x9adfdd9aef6f49c7
    ensures Rotl64(0x9b19a81a60aa0b18, 31) == 0x3055058c4d8cd40d
  {
  }

  lemma Block1()
    ensures Absorb(State(0x0000000000000000, 0x0000000000000000), 0x6369757120656854, 0x206e776f7262206b) ==
            State(0x065f54070009580c, 0x1185bfe0bc383732)
  {
    hide TimesC1, TimesC2, Rotl64;
    BlockWords1();
    assert 0x0000000000000000 as Word ^ 0xede938f35bfbb35d == 0xede938f35bfbb35d;
    assert 0x0000000000000000 as Word ^ 0x9b19a81a60aa0b18 == 0x9b19a81a60aa0b18;
    assert (0x9adfdd9aef6f49c7 as Word + 0x0000000000000000) * 5 + 0x52dce729 == 0x065f54070009580c;
    assert (0x3055058c4d8cd40d as Word + 0x065f54070009580c) * 5 + 0x38495ab5 == 0x1185bfe0bc383732;
  }

  lemma BlockWords2()
    ensures TimesC1(0x706d756a20786f66) == 0x4017930c8e9ec1de
    ensures Rotl64(0x4017930c8e9ec1de, 31) == 0x474f60ef200bc986
    ensures TimesC2(0x474f60ef200bc986) == 0x82e320fa65aeeb7a
    ensures TimesC2(0x74207265766f2073) == 0xd23f1255d4c2220d
    ensures Rotl64(0xd23f1255d4c2220d, 33) == 0xa984441ba47e24ab
    ensures TimesC1(0xa984441ba47e24ab) == 0x3480582491edf347
    ensures Rotl64(0x84bc74fd65a7b376, 27) == 0xeb2d3d9bb425e3a7
    ensures Rotl64(0x2505e7c42dd5c475, 31) == 0x16eae23a9282f3e2
  {
  }

  lemma Block2()
    ensures Absorb(State(0x065f54070009580c, 0x1185bfe0bc383732), 0x706d756a20786f66, 0x74207265766f2073) ==
            State(0xef7ef36e84b36d66, 0x20112c4dac59411d)
  {
    hide TimesC1, TimesC2, Rotl64;
    BlockWords2();
    assert 0x065f54070009580c as Word ^ 0x82e320fa65aeeb7a == 0x84bc74fd65a7b376;
    assert 0x1185bfe0bc383732 as Word ^ 0x3480582491edf347 == 0x2505e7c42dd5c475;
    assert (0xeb2d3d9bb425e3a7 as Word + 0x1185bfe0bc383732) * 5 + 0x52dce729 == 0xef7ef36e84b36d66;
    assert (0x16eae23a9282f3e2 as Word + 0xef7ef36e84b36d66) * 5 + 0x38495ab5 == 0x20112c4dac59411d;
  }

  lemma TailWords()
    ensures TimesC1(0x20797a616c206568) == 0x5256d81b84a51788
    ensures Rotl64(0x5256d81b84a51788, 31) == 0xc2528bc4292b6c0d
    ensures TimesC2(0xc2528bc4292b6c0d) == 0xbe2cc08576171173
    ensures TimesC2(0x0000000000676f64) == 0x4c1c9940da3aae9c
    ensures Rotl64(0x4c1c9940da3aae9c, 33) == 0xb4755d3898393281
    ensures TimesC1(0xb4755d3898393281) == 0x307f8a9bc938d855
    ensures Xor(0xef7ef36e84b36d66, 0xbe2cc08576171173) == 0x515233ebf2a47c15
    ensures Xor(0x20112c4dac59411d, 0x307f8a9bc938d855) == 0x106ea6d665619948
  {
  }

  lemma FinishWords()
    ensures Xor(0x515233ebf2a47c15, 43) == 0x515233ebf2a47c3e
    ensures Xor(0x106ea6d665619948, 43) == 0x106ea6d665619963
    ensures Plus(0x515233ebf2a47c3e, 0x106ea6d665619963) == 0x61c0dac2580615a1
    ensures Plus(0x106ea6d665619963, 0x61c0dac2580615a1) == 0x722f8198bd67af04
    ensures Xorshift(0x61c0dac2580615a1) == 0x61c0dac268e678c0
    ensures TimesM1(0x61c0dac268e678c0) == 0x77965a9be257b1c0
    ensures Xorshift(0x77965a9be257b1c0) == 0x77965a9bd99c9c8d
    ensures TimesM2(0x77965a9bd99c9c8d) == 0x4c543c4d9559bdb7
    ensures Xorshift(0x4c543c4d9559bdb7) == 0x4c543c4db373a391
    ensures Xorshift(0x722f8198bd67af04) == 0x722f819884706fc8
    ensures TimesM1(0x722f819884706fc8) == 0x5249d958d092e328
    ensures Xorshift(0x5249d958d092e328) == 0x5249d958f9b60f84
    ensures TimesM2(0x5249d958f9b60f84) == 0x96f7802e43e8b7cc
    ensures Xorshift(0x96f7802e43e8b7cc) == 0x96f7802e089377db
    ensures Plus(0x4c543c4db373a391, 0x96f7802e089377db) == 0xe34bbc7bbc071b6c
    ensures Plus(0x96f7802e089377db, 0xe34bbc7bbc071b6c) == 0x7a433ca9c49a9347
  {
  }

  lemma InputWords()
    ensures Join(84, 104, 101, 32, 113, 117, 105, 99) == 0x6369757120656854
    ensures Join(107, 32, 98, 114, 111, 119, 110, 32) == 0x206e776f7262206b
    ensures Join(102, 111, 120, 32, 106, 117, 109, 112) == 0x706d756a20786f66
    ensures Join(115, 32, 111, 118, 101, 114, 32, 116) == 0x74207265766f2073
    ensures Join(104, 101, 32, 108, 97, 122, 121, 32) == 0x20797a616c206568
    ensures Join(100, 111, 103, 0, 0, 0, 0, 0) == 0x0000000000676f64
  {
  }

  /** Three bytes at the end of the input. */
  lemma ThreeBytes(b: seq<bv8>)
    requires |b| == 3
    ensures LittleEndian(b) == Join(b[0], b[1], b[2], 0, 0, 0, 0, 0)
  {
    hide LittleEndian, Join, Lower;
    assert b[0..] == b;
    Unfold(b, 0);
    Unfold(b, 1);
    Unfold(b, 2);
    NoBytes(b[3..]);
    Zero();
    Horner(b[0], b[1], b[2], 0, 0, 0, 0, 0,
           LittleEndian(b[0..]), LittleEndian(b[1..]), LittleEndian(b[2..]), 0, 0, 0, 0, 0);
  }

  lemma Zero()
    ensures Lower(0, 0) == 0
  {
  }

  lemma Word0()
    ensures |PANGRAM| == 43 && LittleEndian(PANGRAM[0..8]) == 0x6369757120656854
  {
    hide LittleEndian, Join;
    assert PANGRAM[0..8] == LETTERS0;
    AsWord(LETTERS0);
    InputWords();
  }

  lemma Word8()
    ensures |PANGRAM| == 43 && LittleEndian(PANGRAM[8..16]) == 0x206e776f7262206b
  {
    hide LittleEndian, Join;
    assert PANGRAM[8..16] == LETTERS1;
    AsWord(LETTERS1);
    InputWords();
  }

  lemma Word16()
    ensures |PANGRAM| == 43 && LittleEndian(PANGRAM[16..24]) == 0x706d756a20786f66
  {
    hide LittleEndian, Join;
    assert PANGRAM[16..24] == LETTERS2;
    AsWord(LETTERS2);
    InputWords();
  }

  lemma Word24()
    ensures |PANGRAM| == 43 && LittleEndian(PANGRAM[24..32]) == 0x74207265766f2073
  {
    hide LittleEndian, Join;
    assert PANGRAM[24..32] == LETTERS3;
    AsWord(LETTERS3);
    InputWords();
  }

  lemma LastWords()
    ensures |PANGRAM| == 43
    ensures LittleEndian(PANGRAM[32..][..8]) == 0x20797a616c206568
    ensures LittleEndian(PANGRAM[32..][8..]) == 0x0000000000676f64
  {
    hide LittleEndian, Join;
    assert PANGRAM[32..][..8] == LETTERS4 && PANGRAM[32..][8..] == LETTERS5;
    AsWord(LETTERS4);
    ThreeBytes(LETTERS5);
    InputWords();
  }

  lemma OneBlock(data: seq<bv8>, n: nat, seed: bv32)
    requires 16 * (n + 1) <= |data|
    ensures Body(data, n + 1, seed) ==
            Absorb(Body(data, n, seed), LittleEndian(data[16 * n..16 * n + 8]),
                   LittleEndian(data[16 * n + 8..16 * n + 16]))
  {
    hide LittleEndian, Absorb;
  }

  lemma TheBlocks()
    ensures |PANGRAM| == 43 && Body(PANGRAM, 2, 0) == State(0xef7ef36e84b36d66, 0x20112c4dac59411d)
  {
    hide LittleEndian, Absorb, Body;
    Word0();
    Word8();
    Word16();
    Word24();
    Start(PANGRAM);
    OneBlock(PANGRAM, 0, 0);
    Block1();
    OneBlock(PANGRAM, 1, 0);
    Block2();
  }

  lemma Start(data: seq<bv8>)
    ensures Body(data, 0, 0) == State(0, 0)
  {
  }

  lemma WithTail(data: seq<bv8>, s: State)
    requires |data| == 43 && Body(data, 2, 0) == s
    ensures Digest(data, 0) ==
            Finish(State(Xor(s.h1, Scramble1(LittleEndian(data[32..][..8]))),
                         Xor(s.h2, Scramble2(LittleEndian(data[32..][8..])))), 43)
  {
    hide LittleEndian, Scramble1, Scramble2, Xor, Finish, Body;
    var tail := data[32..];
    assert |tail| == 11;
  }

  lemma KnownAnswer()
    ensures |PANGRAM| == 43 && Digest(PANGRAM, 0) == State(0xe34bbc7bbc071b6c, 0x7a433ca9c49a9347)
  {
    hide LittleEndian, TimesC1, TimesC2, Rotl64, Xor, Plus, Xorshift, TimesM1, TimesM2, Body, Digest;
    TheBlocks();
    LastWords();
    WithTail(PANGRAM, State(0xef7ef36e84b36d66, 0x20112c4dac59411d));
    TailWords();
    FinishWords();
  }
}
