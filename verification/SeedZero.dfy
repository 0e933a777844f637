/** hash_construct() takes seed 0 to mean "draw a seed", and hash_expand_*() hand it
    the seed of the old table.  A table whose own seed is 0 is therefore expanded
    under another seed, and its keys need not be where they are looked for: an
    example, one key and one draw. */
module SeedZero {
  import opened Trie
  import opened Murmur
  import opened Slots
  import opened Bins
  import opened Hash

  const FOUR: Key := [4, 0, 0, 0, 0, 0, 0, 0]

  lemma JoinLow(b: bv8)
    ensures Join(b, 0, 0, 0, 0, 0, 0, 0) == b as Word
  {
  }

  /** The words MurmurHash3_x64_64() goes through for the key 4 and seed 0. */
  lemma Words0()
    ensures TimesC1(4) == 0x1f0dee4445094f54
    ensures Rotl64(0x1f0dee4445094f54, 31) == 0x2284a7aa0f86f722
    ensures TimesC2(0x2284a7aa0f86f722) == 0x46283b34fe071fde
    ensures Xor(0, 0x46283b34fe071fde) == 0x46283b34fe071fde
    ensures Xor(0x46283b34fe071fde, 8) == 0x46283b34fe071fd6
    ensures Xor(0, 8) == 0x8
    ensures Plus(0x46283b34fe071fd6, 0x8) == 0x46283b34fe071fde
    ensures Plus(0x8, 0x46283b34fe071fde) == 0x46283b34fe071fe6
    ensures Xorshift(0x46283b34fe071fde) == 0x46283b34dd130244
    ensures TimesM1(0x46283b34dd130244) == 0xe4d7b5c0220a0074
    ensures Xorshift(0xe4d7b5c0220a0074) == 0xe4d7b5c05061da94
    ensures TimesM2(0xe4d7b5c05061da94) == 0xadb4bd55dc1e4dfc
    ensures Xorshift(0xadb4bd55dc1e4dfc) == 0xadb4bd558ac41356
    ensures Xorshift(0x46283b34fe071fe6) == 0x46283b34dd13027c
    ensures TimesM1(0x46283b34dd13027c) == 0xbeb62cfc0cc0cd4c
    ensures Xorshift(0xbeb62cfc0cc0cd4c) == 0xbeb62cfc539bdb32
    ensures TimesM2(0xbeb62cfc539bdb32) == 0x66514babe942936
    ensures Xorshift(0x66514babe942936) == 0x66514babda6a36b
    ensures Plus(0xadb4bd558ac41356, 0x66514babda6a36b) == 0xb419d210486ab6c1
    ensures Plus(0x66514babda6a36b, 0xb419d210486ab6c1) == 0xba7ee6cb06115a2c
  {
  }

  lemma Digest0()
    ensures Digest([4, 0, 0, 0, 0, 0, 0, 0], 0).h2 == 0xba7ee6cb06115a2c
  {
    hide LittleEndian, Join, TimesC1, TimesC2, Rotl64, Xor, Plus, Xorshift, TimesM1, TimesM2;
    var data: seq<bv8> := [4, 0, 0, 0, 0, 0, 0, 0];
    assert data[0..] == data;
    AsWord(data);
    JoinLow(4);
    Words0();
  }

  /** The same with seed 1. */
  lemma Words1()
    ensures TimesC1(4) == 0x1f0dee4445094f54
    ensures Rotl64(0x1f0dee4445094f54, 31) == 0x2284a7aa0f86f722
    ensures TimesC2(0x2284a7aa0f86f722) == 0x46283b34fe071fde
    ensures Xor(1, 0x46283b34fe071fde) == 0x46283b34fe071fdf
    ensures Xor(0x46283b34fe071fdf, 8) == 0x46283b34fe071fd7
    ensures Xor(1, 8) == 0x9
    ensures Plus(0x46283b34fe071fd7, 0x9) == 0x46283b34fe071fe0
    ensures Plus(0x9, 0x46283b34fe071fe0) == 0x46283b34fe071fe9
    ensures Xorshift(0x46283b34fe071fe0) == 0x46283b34dd13027a
    ensures TimesM1(0x46283b34dd13027a) == 0xc012cd4c3215b3b2
    ensures Xorshift(0xc012cd4c3215b3b2) == 0xc012cd4c521cd514
    ensures TimesM2(0xc012cd4c521cd514) == 0x19075fe7ef2b857c
    ensures Xorshift(0x19075fe7ef2b857c) == 0x19075fe7e3a82a8f
    ensures Xorshift(0x46283b34fe071fe9) == 0x46283b34dd130273
    ensures TimesM1(0x46283b34dd130273) == 0xc4d6fe64b4beda17
    ensures Xorshift(0xc4d6fe64b4beda17) == 0xc4d6fe64d6d5a525
    ensures TimesM2(0xc4d6fe64d6d5a525) == 0x3086583929bba6ff
    ensures Xorshift(0x3086583929bba6ff) == 0x3086583931f88ae3
    ensures Plus(0x19075fe7e3a82a8f, 0x3086583931f88ae3) == 0x498db82115a0b572
    ensures Plus(0x3086583931f88ae3, 0x498db82115a0b572) == 0x7a14105a47994055
  {
  }

  lemma Digest1()
    ensures Digest([4, 0, 0, 0, 0, 0, 0, 0], 1).h2 == 0x7a14105a47994055
  {
    hide LittleEndian, Join, TimesC1, TimesC2, Rotl64, Xor, Plus, Xorshift, TimesM1, TimesM2;
    var data: seq<bv8> := [4, 0, 0, 0, 0, 0, 0, 0];
    assert data[0..] == data;
    AsWord(data);
    JoinLow(4);
    Words1();
  }

  lemma FourBytes()
    ensures KeyBytes(FOUR) == [4, 0, 0, 0, 0, 0, 0, 0]
  {
  }

  lemma Homes()
    ensures PowerOfTwo(2) && Home(FOUR, 0, 2) == 0 && Home(FOUR, 1, 2) == 1
  {
    hide Digest, KeyBytes, And;
    FourBytes();
    Digest0();
    Digest1();
    assert PowerOfTwo(2);
    AndMask(Bins.Hash(FOUR, 0), 2);
    AndMask(Bins.Hash(FOUR, 1), 2);
  }

  /** Split under seed 0, a table of two bins has the key in the one where seed 1 does
      not look for it. */
  lemma NotWhereItIsSought(r: seq<Entry>)
    requires PowerOfTwo(2) && |r| == 2 * BIN_CAPACITY && Homed(r, HashOf(0), 2)
    ensures NotInBin(r, Home(FOUR, 1, 2), FOUR)
  {
    hide BinOf, Bins.Hash;
    Homes();
    assert forall p :: Used(r, p) && r[p].key == FOUR ==> p / BIN_CAPACITY == 0;
    assert forall p :: 8 <= p < 16 && r[p].key == FOUR ==> Used(r, p);
  }

  /** The calls: a table of one bin whose drawn seed is 0 is given the key and expanded,
      the seed drawn for it being 1.  The pair is still in some slot, but the result is
      no table: the key's own bin does not have it. */
  method ExpansionLosesTheKey(v: Value) returns (t: HashSys, h: HashSys)
    ensures t.Valid() && t.seed == 0 && t.M() == map[FOUR := v]
    ensures h.size == 2 && h.seed == 1 && h.M() == map[FOUR := v]
    ensures !h.Valid() && NotInBin(h.entries[..], Home(FOUR, h.seed, h.size), FOUR)
  {
    hide BinOf, Bins.Hash, Home, Pairs, NotInBin;
    Homes();
    assert PowerOfTwo(1) && PowerOfTwo(2);
    t := new HashSys(1, 0, 0);
    EmptyHasRoom(t, FOUR);
    var status := t.Modify(FOUR, v, INSERT);
    h := t.ExpandCopy(1);
    NotWhereItIsSought(h.entries[..]);
  }

  lemma EmptyHasRoom(t: HashSys, key: Key)
    requires t.Valid() && t.M() == map[]
    ensures t.HasRoom(key)
  {
    hide BinOf, Bins.Hash, PowerOfTwo, Pairs;
    RoomIs(t.entries[..], HashOf(t.seed), t.size, Home(key, t.seed, t.size));
    assert OfBin({}, Home(key, t.seed, t.size), HashOf(t.seed), t.size) == {};
  }
}
