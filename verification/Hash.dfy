/** sequential/hash.c: bins of eight slots, filled and searched in place, and the two
    ways of doubling the number of bins. */
module Hash {
  import opened Trie
  import opened Slots
  import opened Bins

  // -------------------------------------------------------- the table as a value

  ghost predicate Homed(s: seq<Entry>, hash: Key -> nat, size: nat)
    requires PowerOfTwo(size)
  {
    forall p :: Used(s, p) ==> p / BIN_CAPACITY == BinOf(hash(s[p].key), size)
  }

  ghost predicate Table(s: seq<Entry>, hash: Key -> nat, size: nat) {
    PowerOfTwo(size) && |s| == BIN_CAPACITY * size && Homed(s, hash, size) && Distinct(s)
  }

  /** Some slot of bin b is free. */
  ghost predicate Room(s: seq<Entry>, b: nat)
    requires BIN_CAPACITY * (b + 1) <= |s|
  {
    exists p :: BIN_CAPACITY * b <= p < BIN_CAPACITY * (b + 1) && !Used(s, p)
  }

  ghost predicate NotInBin(s: seq<Entry>, b: nat, key: Key) {
    BIN_CAPACITY * (b + 1) <= |s| && forall p :: BIN_CAPACITY * b <= p < BIN_CAPACITY * (b + 1) ==> s[p].key != key
  }

  ghost predicate FirstFree(s: seq<Entry>, b: nat, p: nat) {
    && BIN_CAPACITY * b <= p < BIN_CAPACITY * (b + 1) && p < |s| && !Used(s, p)
    && forall q :: BIN_CAPACITY * b <= q < p ==> Used(s, q)
  }

  lemma UsedKept(s: seq<Entry>, r: seq<Entry>, p: nat, e: Entry)
    requires r == s || (p < |s| && e.key != ZERO && r == s[p := e])
    ensures forall q :: Used(s, q) ==> Used(r, q)
  {
  }

  /** A key that is not in its bin is not in the table. */
  lemma Absent(s: seq<Entry>, hash: Key -> nat, size: nat, key: Key)
    requires Table(s, hash, size) && key != ZERO
    requires NotInBin(s, BinOf(hash(key), size), key)
    ensures key !in Pairs(s)
  {
    hide BinOf, PowerOfTwo;
    if key in Pairs(s) {
      var p := SlotOf(s, key);
    }
  }

  lemma Present(s: seq<Entry>, hash: Key -> nat, size: nat, p: nat)
    requires Table(s, hash, size) && Used(s, p)
    ensures s[p].key in Pairs(s) && Pairs(s)[s[p].key] == s[p].value
  {
    InPairs(s, p);
  }

  /** Writing to a slot of the key's own bin. */
  lemma WriteHome(s: seq<Entry>, hash: Key -> nat, size: nat, p: nat, e: Entry)
    requires PowerOfTwo(size) && Homed(s, hash, size) && p < |s|
    requires e.key != ZERO ==> BinOf(hash(e.key), size) == p / BIN_CAPACITY
    ensures Homed(s[p := e], hash, size)
  {
    hide BinOf, PowerOfTwo;
    forall q | Used(s[p := e], q) ensures q / BIN_CAPACITY == BinOf(hash(s[p := e][q].key), size) {
      assert q != p ==> Used(s, q);
    }
  }

  // --------------------------------------------------------- how full bins are

  /** The keys in the first t slots of bin b. */
  ghost function FirstKeys(s: seq<Entry>, b: nat, t: nat): (keys: set<Key>)
    requires BIN_CAPACITY * b + t <= |s|
    ensures |keys| <= t
  {
    if t == 0 then {}
    else
      var p := BIN_CAPACITY * b + t - 1;
      if Used(s, p) then FirstKeys(s, b, t - 1) + {s[p].key} else FirstKeys(s, b, t - 1)
  }

  /** One of the slots from low up to high holds the key. */
  ghost predicate KeyWithin(s: seq<Entry>, low: nat, high: nat, key: Key) {
    exists p :: low <= p < high && Used(s, p) && s[p].key == key
  }

  lemma KeyWithinStep(s: seq<Entry>, low: nat, high: nat, key: Key)
    requires low < high
    ensures KeyWithin(s, low, high, key) <==>
            KeyWithin(s, low, high - 1, key) || (Used(s, high - 1) && s[high - 1].key == key)
  {
  }

  lemma {:induction false} InFirstKeys(s: seq<Entry>, b: nat, t: nat, key: Key)
    requires BIN_CAPACITY * b + t <= |s|
    ensures key in FirstKeys(s, b, t) <==> KeyWithin(s, BIN_CAPACITY * b, BIN_CAPACITY * b + t, key)
  {
    hide Used, KeyWithin;
    if t > 0 {
      InFirstKeys(s, b, t - 1, key);
      KeyWithinStep(s, BIN_CAPACITY * b, BIN_CAPACITY * b + t, key);
    } else {
      NoneWithin(s, BIN_CAPACITY * b, key);
    }
  }

  lemma NoneWithin(s: seq<Entry>, low: nat, key: Key)
    ensures !KeyWithin(s, low, low, key)
  {
  }

  lemma {:induction false} FullBin(s: seq<Entry>, b: nat, t: nat)
    requires BIN_CAPACITY * b + t <= |s| && Distinct(s)
    requires forall p :: BIN_CAPACITY * b <= p < BIN_CAPACITY * b + t ==> Used(s, p)
    ensures |FirstKeys(s, b, t)| == t
  {
    if t > 0 {
      FullBin(s, b, t - 1);
      InFirstKeys(s, b, t - 1, s[BIN_CAPACITY * b + t - 1].key);
    }
  }

  ghost function OfBin(keys: set<Key>, b: nat, hash: Key -> nat, size: nat): set<Key>
    requires PowerOfTwo(size)
  {
    set k | k in keys && BinOf(hash(k), size) == b
  }

  /** No bin gets more than eight of the keys. */
  ghost predicate Fits(keys: set<Key>, hash: Key -> nat, size: nat)
    requires PowerOfTwo(size)
  {
    forall b :: 0 <= b < size ==> |OfBin(keys, b, hash, size)| <= BIN_CAPACITY
  }

  lemma BinKeys(s: seq<Entry>, hash: Key -> nat, size: nat, b: nat)
    requires Table(s, hash, size) && b < size
    ensures OfBin(Pairs(s).Keys, b, hash, size) == FirstKeys(s, b, BIN_CAPACITY)
    ensures !Room(s, b) ==> |OfBin(Pairs(s).Keys, b, hash, size)| == BIN_CAPACITY
  {
    hide BinOf, PowerOfTwo, FirstKeys;
    forall k: Key ensures k in OfBin(Pairs(s).Keys, b, hash, size) <==> k in FirstKeys(s, b, BIN_CAPACITY) {
      InFirstKeys(s, b, BIN_CAPACITY, k);
      if k in Pairs(s) { var p := SlotOf(s, k); }
    }
    if !Room(s, b) { FullBin(s, b, BIN_CAPACITY); }
  }

  lemma {:induction false} NotAllUsed(s: seq<Entry>, b: nat, t: nat)
    requires BIN_CAPACITY * b + t <= |s|
    requires exists p :: BIN_CAPACITY * b <= p < BIN_CAPACITY * b + t && !Used(s, p)
    ensures |FirstKeys(s, b, t)| < t
  {
    hide Used;
    var p :| BIN_CAPACITY * b <= p < BIN_CAPACITY * b + t && !Used(s, p);
    if p < BIN_CAPACITY * b + t - 1 { NotAllUsed(s, b, t - 1); }
  }

  /** A bin has a free slot exactly if less than eight keys belong to it. */
  lemma RoomIs(s: seq<Entry>, hash: Key -> nat, size: nat, b: nat)
    requires Table(s, hash, size) && b < size
    ensures Room(s, b) <==> |OfBin(Pairs(s).Keys, b, hash, size)| < 8
  {
    hide BinOf, PowerOfTwo, FirstKeys, OfBin, Pairs, Homed, Distinct;
    BinKeys(s, hash, size, b);
    if Room(s, b) { NotAllUsed(s, b, BIN_CAPACITY); }
  }

  /** What a table stores fits its bins. */
  lemma TableFits(s: seq<Entry>, hash: Key -> nat, size: nat)
    requires Table(s, hash, size)
    ensures Fits(Pairs(s).Keys, hash, size)
  {
    hide BinOf, PowerOfTwo, Distinct, Homed, Pairs;
    forall b | 0 <= b < size ensures |OfBin(Pairs(s).Keys, b, hash, size)| <= BIN_CAPACITY {
      Fit(s, hash, size, b);
    }
  }

  lemma Fit(s: seq<Entry>, hash: Key -> nat, size: nat, b: nat)
    requires Table(s, hash, size) && b < size
    ensures |OfBin(Pairs(s).Keys, b, hash, size)| <= BIN_CAPACITY
  {
    BinKeys(s, hash, size, b);
  }

  /** With the same hash each new bin draws on one old bin only. */
  lemma FitsTwice(keys: set<Key>, hash: Key -> nat, size: nat)
    requires PowerOfTwo(size) && Fits(keys, hash, size)
    ensures PowerOfTwo(2 * size) && Fits(keys, hash, 2 * size)
  {
    hide BinOf, PowerOfTwo, LevelOf;
    assert PowerOfTwo(2 * size) by { HomeSplits(hash(ZERO), size); }
    forall b | 0 <= b < 2 * size ensures |OfBin(keys, b, hash, 2 * size)| <= BIN_CAPACITY {
      var c := if b < size then b else b - size;
      forall k | k in OfBin(keys, b, hash, 2 * size) ensures k in OfBin(keys, c, hash, size) {
        HomeSplits(hash(k), size);
      }
      Subset(OfBin(keys, b, hash, 2 * size), OfBin(keys, c, hash, size));
    }
  }

  datatype Mode = UPDATE | INSERT | STRICT_UPDATE | STRICT_INSERT
  datatype Status = OK | ELEMENT_NOT_FOUND | HASH_BIN_FULL | ELEMENT_ALREADY_EXISTS

  const SIZE_MAX := 0xffff_ffff_ffff_ffff

  class HashSys {
    const seed: Seed
    const size: nat
    var count: nat
    const entries: array<Entry>

    ghost function M(): map<Key, Value>
      reads this, entries
    {
      Pairs(entries[..])
    }

    /** Every key once, in its own bin, and count right. */
    ghost predicate Valid()
      reads this, entries
    {
      Table(entries[..], HashOf(seed), size) && count == |M()|
    }

    ghost predicate HasRoom(key: Key)
      requires Valid()
      reads this, entries
    {
      Room(entries[..], Home(key, seed, size))
    }

    /** hash_construct(), for a size that it accepts; `drawn` stands for what rand()
        gives.  A table of size 0 has no bins and is no table to work with. */
    constructor (size: nat, seed: Seed, drawn: Seed)
      requires size == 0 || PowerOfTwo(size)
      ensures fresh(entries) && entries.Length == BIN_CAPACITY * size && count == 0 && M() == map[]
      ensures size > 0 ==> Valid()
      ensures this.size == size && this.seed == (if seed == 0 then drawn else seed)
      ensures forall p :: 0 <= p < entries.Length ==> entries[p].key == ZERO
    {
      this.seed := if seed == 0 then drawn else seed;
      this.size := size;
      count := 0;
      entries := new Entry[BIN_CAPACITY * size](_ => Entry(ZERO, 0));
      new;
      NothingStored(entries[..]);
    }

    /** hash_construct() with its test of the size, in which size - 1 wraps for 0. */
    static method Construct(size: nat, seed: Seed, drawn: Seed) returns (h: Option<HashSys>)
      ensures h.None? <==> size > 0 && !PowerOfTwo(size)
      ensures h.Some? ==> fresh(h.value) && fresh(h.value.entries) && h.value.M() == map[]
      ensures h.Some? && size > 0 ==> h.value.Valid()
      ensures h.Some? ==> h.value.size == size && h.value.seed == (if seed == 0 then drawn else seed)
    {
      hide PowerOfTwo, And, Pairs;
      if size > 0 { PowerTest(size); } else { AndZero(SIZE_MAX); }
      if And(size, if size == 0 then SIZE_MAX else size - 1) != 0 { return None; }
      var table := new HashSys(size, seed, drawn);
      h := Some(table);
    }

    static lemma AndZero(n: nat)
      ensures And(0, n) == 0
    {
    }

    static lemma NothingStored(s: seq<Entry>)
      requires forall p :: 0 <= p < |s| ==> s[p].key == ZERO
      ensures Distinct(s) && Pairs(s) == map[]
    {
    }

    /** hash_modify(): a key that is there gets the new value, unless the mode is
        STRICT_INSERT; another one is put into its bin if there is a free slot, unless
        the mode is STRICT_UPDATE. */
    method Modify(key: Key, value: Value, mode: Mode) returns (status: Status)
      requires Valid() && key != ZERO
      modifies this`count, entries
      ensures Valid()
      ensures key in old(M()) ==> status == if mode == STRICT_INSERT then ELEMENT_ALREADY_EXISTS else OK
      ensures key !in old(M()) && mode == STRICT_UPDATE ==> status == ELEMENT_NOT_FOUND
      ensures key !in old(M()) && mode != STRICT_UPDATE ==>
                status == if old(HasRoom(key)) then OK else HASH_BIN_FULL
      ensures M() == if status == OK then old(M())[key := value] else old(M())
    {
      hide PowerOfTwo, BinOf, Bins.Hash, Pairs, Used, Homed, Distinct, NotInBin, FreeIn;
      var b := Idx(key, seed, size);
      InRange(entries[..], HashOf(seed), size, b);
      var at, available := ScanBin(key, b);
      if at != -1 {
        IsUsed(entries[..], at);
        Present(entries[..], HashOf(seed), size, at);
        if mode == STRICT_INSERT { return ELEMENT_ALREADY_EXISTS; }
        Replace(at, value);
        return OK;
      }
      Absent(entries[..], HashOf(seed), size, key);
      if mode == STRICT_UPDATE { return ELEMENT_NOT_FOUND; }
      RoomFound(entries[..], b, available);
      if available == -1 { return HASH_BIN_FULL; }
      Occupy(available, key, value);
      return OK;
    }

    static lemma InRange(s: seq<Entry>, hash: Key -> nat, size: nat, b: nat)
      requires Table(s, hash, size) && b < size
      ensures BIN_CAPACITY * (b + 1) <= |s|
    {
    }

    /** The loop of hash_modify(): the slot of the key, or the first free one. */
    method ScanBin(key: Key, b: nat) returns (at: int, available: int)
      requires BIN_CAPACITY * (b + 1) <= entries.Length
      ensures at == -1 || (BIN_CAPACITY * b <= at < BIN_CAPACITY * (b + 1) && entries[at].key == key)
      ensures at == -1 ==> NotInBin(entries[..], b, key) && FreeIn(entries[..], b, available)
    {
      var base := BIN_CAPACITY * b;
      at, available := -1, -1;
      for j := 0 to BIN_CAPACITY
        invariant at == -1 && forall p :: base <= p < base + j ==> entries[p].key != key
        invariant available == -1 ==> forall p :: base <= p < base + j ==> entries[p].key != ZERO
        invariant available != -1 ==> base <= available < base + j && entries[available].key == ZERO
      {
        var keyH := entries[base + j].key;
        if keyH == key { return base + j, available; }
        if keyH == ZERO && available == -1 { available := base + j; }
      }
    }

    /** The value of a used slot is overwritten. */
    method Replace(p: nat, value: Value)
      requires Valid() && p < entries.Length && entries[p].key != ZERO
      modifies entries
      ensures Valid() && M() == old(M())[old(entries[p].key) := value]
    {
      hide PowerOfTwo, BinOf, Bins.Hash, Pairs, Used, Homed, Distinct, HashOf;
      ghost var s := entries[..];
      IsUsed(s, p);
      Overwriting(s, HashOf(seed), size, p, value);
      entries[p] := Entry(entries[p].key, value);
      assert entries[..] == s[p := Entry(s[p].key, value)];
    }

    /** A free slot of the key's bin takes a new key. */
    method Occupy(p: nat, key: Key, value: Value)
      requires Valid() && p < entries.Length && entries[p].key == ZERO && key != ZERO && key !in M()
      requires p / BIN_CAPACITY == Home(key, seed, size)
      modifies this`count, entries
      ensures Valid() && M() == old(M())[key := value]
    {
      hide PowerOfTwo, BinOf, Bins.Hash, Pairs, Used, Homed, Distinct;
      ghost var s := entries[..];
      Filling(s, HashOf(seed), size, p, Entry(key, value));
      entries[p] := Entry(key, value);
      count := count + 1;
      assert entries[..] == s[p := Entry(key, value)];
    }

    static lemma IsUsed(s: seq<Entry>, p: nat)
      requires p < |s|
      ensures Used(s, p) <==> s[p].key != ZERO
    {
    }

    /** available is a free slot of the bin, or -1 if there is none. */
    ghost static predicate FreeIn(s: seq<Entry>, b: nat, available: int) {
      && BIN_CAPACITY * (b + 1) <= |s|
      && if available == -1 then forall p :: BIN_CAPACITY * b <= p < BIN_CAPACITY * (b + 1) ==> s[p].key != ZERO
         else BIN_CAPACITY * b <= available < BIN_CAPACITY * (b + 1) && s[available].key == ZERO
    }

    static lemma RoomFound(s: seq<Entry>, b: nat, available: int)
      requires BIN_CAPACITY * (b + 1) <= |s| && FreeIn(s, b, available)
      ensures Room(s, b) <==> available != -1
      ensures available != -1 ==> 0 <= available < |s| && s[available].key == ZERO && available / BIN_CAPACITY == b
    {
      if available != -1 { assert !Used(s, available); }
    }

    static lemma Overwriting(s: seq<Entry>, hash: Key -> nat, size: nat, p: nat, value: Value)
      requires Table(s, hash, size) && p < |s| && Used(s, p)
      ensures var r := s[p := Entry(s[p].key, value)];
              && Table(r, hash, size) && Pairs(r) == Pairs(s)[s[p].key := value] && |Pairs(r)| == |Pairs(s)|
    {
      hide BinOf, PowerOfTwo;
      Overwrite(s, p, value);
      Present(s, hash, size, p);
      WriteHome(s, hash, size, p, Entry(s[p].key, value));
      var m := Pairs(s)[s[p].key := value];
      assert m.Keys == Pairs(s).Keys;
      assert |m.Keys| == |m| && |Pairs(s).Keys| == |Pairs(s)|;
    }

    static lemma Filling(s: seq<Entry>, hash: Key -> nat, size: nat, p: nat, e: Entry)
      requires Table(s, hash, size) && p < |s| && s[p].key == ZERO && e.key != ZERO && e.key !in Pairs(s)
      requires p / BIN_CAPACITY == BinOf(hash(e.key), size)
      ensures Table(s[p := e], hash, size) && Pairs(s[p := e]) == Pairs(s)[e.key := e.value]
      ensures |Pairs(s[p := e])| == |Pairs(s)| + 1
    {
      hide BinOf, PowerOfTwo;
      Fill(s, p, e);
      WriteHome(s, hash, size, p, e);
    }

    /** hash_search(), mode HASH_QUERY. */
    method Query(key: Key) returns (result: Option<Value>)
      requires Valid() && key != ZERO
      ensures result == At(M(), key)
    {
      hide PowerOfTwo, BinOf, Bins.Hash, Pairs, Used, Homed, Distinct;
      ghost var s := entries[..];
      var b := Idx(key, seed, size);
      for j := 0 to BIN_CAPACITY
        invariant forall p :: BIN_CAPACITY * b <= p < BIN_CAPACITY * b + j ==> s[p].key != key
      {
        var p := BIN_CAPACITY * b + j;
        if entries[p].key == key {
          IsUsed(s, p);
          Present(s, HashOf(seed), size, p);
          return Some(entries[p].value);
        }
      }
      Absent(s, HashOf(seed), size, key);
      return None;
    }

    /** hash_search(), mode HASH_DELETE. */
    method Delete(key: Key) returns (found: bool)
      requires Valid() && key != ZERO
      modifies this`count, entries
      ensures Valid()
      ensures found == (key in old(M())) && M() == old(M()) - {key}
    {
      hide PowerOfTwo, BinOf, Bins.Hash, Pairs, Used, Homed, Distinct;
      ghost var s := entries[..];
      var b := Idx(key, seed, size);
      for j := 0 to BIN_CAPACITY
        invariant entries[..] == s && count == old(count)
        invariant forall p :: BIN_CAPACITY * b <= p < BIN_CAPACITY * b + j ==> s[p].key != key
      {
        var p := BIN_CAPACITY * b + j;
        if entries[p].key == key {
          Clearing(s, HashOf(seed), size, p);
          entries[p] := Entry(ZERO, entries[p].value);
          count := count - 1;
          return true;
        }
      }
      Absent(s, HashOf(seed), size, key);
      assert Pairs(s) - {key} == Pairs(s);
      return false;
    }

    static lemma Clearing(s: seq<Entry>, hash: Key -> nat, size: nat, p: nat)
      requires Table(s, hash, size) && p < |s| && s[p].key != ZERO
      ensures s[p].key in Pairs(s) && |Pairs(s)| > 0
      ensures var r := s[p := Entry(ZERO, s[p].value)];
              && Table(r, hash, size) && Pairs(r) == Pairs(s) - {s[p].key} && |Pairs(r)| == |Pairs(s)| - 1
    {
      hide BinOf, PowerOfTwo;
      InPairs(s, p);
      Clear(s, p);
      WriteHome(s, hash, size, p, Entry(ZERO, s[p].value));
    }

    /** hash_insert_nocheck_nosafe(): the first free slot of the bin, if any, whether
        or not the key is there already. */
    method InsertNocheck(key: Key, value: Value) returns (status: Status, ghost slot: nat)
      requires Valid() && key != ZERO
      modifies this`count, entries
      ensures status == (if old(HasRoom(key)) then OK else HASH_BIN_FULL)
      ensures status != OK ==> entries[..] == old(entries[..]) && count == old(count)
      ensures status == OK ==>
                && FirstFree(old(entries[..]), Home(key, seed, size), slot)
                && entries[..] == old(entries[..])[slot := Entry(key, value)] && count == old(count) + 1
      ensures key !in old(M()) ==> Valid() && M() == if status == OK then old(M())[key := value] else old(M())
    {
      hide PowerOfTwo, BinOf, Bins.Hash, Pairs, Homed, Distinct;
      ghost var s := entries[..];
      var b := CompIdx(key, seed, size);
      slot := 0;
      for j := 0 to BIN_CAPACITY
        invariant entries[..] == s && count == old(count)
        invariant forall p :: BIN_CAPACITY * b <= p < BIN_CAPACITY * b + j ==> s[p].key != ZERO
      {
        var p := BIN_CAPACITY * b + j;
        if entries[p].key == ZERO {
          RoomFound(s, b, p);
          if key !in Pairs(s) { Filling(s, HashOf(seed), size, p, Entry(key, value)); }
          entries[p] := Entry(key, value);
          count := count + 1;
          return OK, p;
        }
      }
      RoomFound(s, b, -1);
      return HASH_BIN_FULL, 0;
    }

    /** hash_expand_reinsert().  The results of the insertions are ignored; nothing
        is lost exactly if the keys fit the new bins, which they do when the seed is
        kept, that is, unless it is 0. */
    method ExpandReinsert(drawn: Seed) returns (h: HashSys)
      requires Valid()
      ensures fresh(h) && fresh(h.entries) && h.Valid()
      ensures h.size == 2 * size && h.seed == (if seed == 0 then drawn else seed)
      ensures h.M() == M() <==> Fits(M().Keys, HashOf(h.seed), h.size)
      ensures seed != 0 ==> h.M() == M() && h.count == count
      ensures forall k :: k in h.M() ==> k in M() && h.M()[k] == M()[k]
    {
      hide PowerOfTwo, BinOf, Bins.Hash, Pairs, Homed, Distinct, Used, Carried, Fits;
      ghost var s := entries[..];
      Doubles(size);
      h := new HashSys(2 * size, seed, drawn);
      CarriedNone(s, h.entries[..], HashOf(h.seed), h.size);
      for i := 0 to size
        invariant h.Valid() && h.size == 2 * size && h.seed == (if seed == 0 then drawn else seed)
        invariant fresh(h) && fresh(h.entries)
        invariant Carried(s, BIN_CAPACITY * i, h.entries[..], HashOf(h.seed), h.size)
      {
        for j := 0 to BIN_CAPACITY
          invariant h.Valid() && h.size == 2 * size && h.seed == (if seed == 0 then drawn else seed)
          invariant fresh(h) && fresh(h.entries)
          invariant Carried(s, BIN_CAPACITY * i + j, h.entries[..], HashOf(h.seed), h.size)
        {
          var p := BIN_CAPACITY * i + j;
          ghost var r := h.entries[..];
          IsUsed(s, p);
          if entries[p].key != ZERO {
            CarriedNext(s, p, r, HashOf(h.seed), h.size);
            var ignored, slot := h.InsertNocheck(entries[p].key, entries[p].value);
            UsedKept(r, h.entries[..], slot, Entry(entries[p].key, entries[p].value));
            CarriedStep(s, p, r, h.entries[..], HashOf(h.seed), h.size);
          } else {
            CarriedEmpty(s, p, r, HashOf(h.seed), h.size);
          }
        }
      }
      CarriedAll(s, HashOf(seed), size, h.entries[..], HashOf(h.seed), h.size);
    }

    /** The first p slots of s have been reinserted into r. */
    ghost static predicate Carried(s: seq<Entry>, p: nat, r: seq<Entry>, hash: Key -> nat, size: nat)
      requires Table(r, hash, size)
    {
      && (forall k :: k in Pairs(r) ==> k in Pairs(s) && Pairs(r)[k] == Pairs(s)[k])
      && (forall q :: p <= q && Used(s, q) ==> s[q].key !in Pairs(r))
      && (forall q :: q < p && Used(s, q) ==> s[q].key in Pairs(r) || !Room(r, BinOf(hash(s[q].key), size)))
    }

    static lemma Doubles(n: nat)
      requires PowerOfTwo(n)
      ensures PowerOfTwo(2 * n)
    {
    }

    static lemma CarriedNone(s: seq<Entry>, r: seq<Entry>, hash: Key -> nat, size: nat)
      requires Table(r, hash, size) && Pairs(r) == map[]
      ensures Carried(s, 0, r, hash, size)
    {
      hide BinOf, PowerOfTwo, Pairs;
    }

    static lemma CarriedNext(s: seq<Entry>, p: nat, r: seq<Entry>, hash: Key -> nat, size: nat)
      requires Table(r, hash, size) && Carried(s, p, r, hash, size) && Used(s, p)
      ensures s[p].key !in Pairs(r)
    {
      hide BinOf, PowerOfTwo, Pairs;
    }

    static lemma CarriedEmpty(s: seq<Entry>, p: nat, r: seq<Entry>, hash: Key -> nat, size: nat)
      requires Table(r, hash, size) && Carried(s, p, r, hash, size) && !Used(s, p)
      ensures Carried(s, p + 1, r, hash, size)
    {
      hide BinOf, PowerOfTwo, Pairs, Room, Table;
    }

    static lemma CarriedStep(s: seq<Entry>, p: nat, r: seq<Entry>, r': seq<Entry>, hash: Key -> nat, size: nat)
      requires Table(r, hash, size) && Carried(s, p, r, hash, size) && p < |s| && Used(s, p) && Distinct(s)
      requires Table(r', hash, size) && forall q :: Used(r, q) ==> Used(r', q)
      requires Pairs(r') == if Room(r, BinOf(hash(s[p].key), size)) then Pairs(r)[s[p].key := s[p].value] else Pairs(r)
      ensures Carried(s, p + 1, r', hash, size)
    {
      hide BinOf, PowerOfTwo, Pairs, Homed;
      InPairs(s, p);
      forall q | q < p + 1 && Used(s, q)
        ensures s[q].key in Pairs(r') || !Room(r', BinOf(hash(s[q].key), size))
      {
        if !Room(r, BinOf(hash(s[q].key), size)) { StillFull(r, r', BinOf(hash(s[q].key), size)); }
      }
      forall q | p + 1 <= q && Used(s, q) ensures s[q].key !in Pairs(r') { }
    }

    static lemma StillFull(r: seq<Entry>, r': seq<Entry>, b: nat)
      requires |r| == |r'| && BIN_CAPACITY * (b + 1) <= |r| && forall q :: Used(r, q) ==> Used(r', q)
      requires !Room(r, b)
      ensures !Room(r', b)
    {
    }

    static lemma CarriedAll(s: seq<Entry>, hash: Key -> nat, size: nat, r: seq<Entry>, hash': Key -> nat, size': nat)
      requires Table(s, hash, size) && Table(r, hash', size') && Carried(s, |s|, r, hash', size')
      ensures Pairs(r) == Pairs(s) <==> Fits(Pairs(s).Keys, hash', size')
      ensures hash' == hash && size' == 2 * size ==> Pairs(r) == Pairs(s)
      ensures forall k :: k in Pairs(r) ==> k in Pairs(s) && Pairs(r)[k] == Pairs(s)[k]
    {
      hide BinOf, PowerOfTwo, Pairs, Fits;
      TableFits(s, hash, size);
      TableFits(r, hash', size');
      FitsTwice(Pairs(s).Keys, hash, size);
      if Fits(Pairs(s).Keys, hash', size') {
        forall k | k in Pairs(s) ensures k in Pairs(r) { NotDropped(s, r, hash', size', k); }
        assert Pairs(r).Keys == Pairs(s).Keys;
      }
    }

    /** A key that was dropped would be a ninth in its bin. */
    static lemma NotDropped(s: seq<Entry>, r: seq<Entry>, hash: Key -> nat, size: nat, k: Key)
      requires Table(r, hash, size) && Carried(s, |s|, r, hash, size) && Fits(Pairs(s).Keys, hash, size)
      requires k in Pairs(s)
      ensures k in Pairs(r)
    {
      hide BinOf, PowerOfTwo, Pairs, Homed, Distinct;
      var q := SlotOf(s, k);
      var b := BinOf(hash(k), size);
      if k !in Pairs(r) {
        BinKeys(r, hash, size, b);
        Subset(OfBin(Pairs(r).Keys, b, hash, size) + {k}, OfBin(Pairs(s).Keys, b, hash, size));
      }
    }

    /** hash_expand_copy(): the lower half is a copy, from which the keys with the
        level bit set move to the upper half.  Which half is decided with the old
        seed, so the result is a table again exactly if the keys have the same bins
        under the new one, which they do unless the seed is 0. */
    method ExpandCopy(drawn: Seed) returns (h: HashSys)
      requires Valid()
      ensures fresh(h) && fresh(h.entries) && h.count == count
      ensures h.size == 2 * size && h.seed == (if seed == 0 then drawn else seed)
      ensures h.M() == M() && PowerOfTwo(h.size)
      ensures h.entries.Length == BIN_CAPACITY * h.size && Homed(h.entries[..], HashOf(seed), h.size)
      ensures h.Valid() <==> forall k :: k in M() ==> Home(k, h.seed, h.size) == Home(k, seed, h.size)
      ensures seed != 0 ==> h.Valid()
    {
      hide PowerOfTwo, BinOf, Bins.Hash, Pairs, Homed, Distinct, Used, Split;
      ghost var s := entries[..];
      Doubles(size);
      h := new HashSys(2 * size, seed, drawn);
      forall p | 0 <= p < BIN_CAPACITY * size { h.entries[p] := entries[p]; }
      SplitNone(s, h.entries[..], HashOf(seed), size);
      for i := 0 to size
        invariant Split(s, HashOf(seed), size, h.entries[..], i, 0, 0)
      {
        SplitBin(h.entries, seed, size, i, s);
      }
      SplitAll(s, HashOf(seed), size, h.entries[..], HashOf(h.seed));
      h.count := count;
    }

    /** The inner loop of hash_expand_copy(). */
    static method SplitBin(entries: array<Entry>, seed: Seed, size: nat, i: nat, ghost s: seq<Entry>)
      requires Table(s, HashOf(seed), size) && i < size && Split(s, HashOf(seed), size, entries[..], i, 0, 0)
      modifies entries
      ensures Split(s, HashOf(seed), size, entries[..], i + 1, 0, 0)
    {
      hide PowerOfTwo, BinOf, Bins.Hash, LevelOf, Pairs, Table, Used, Split;
      var k := 0;
      for j := 0 to BIN_CAPACITY
        invariant k <= j && Split(s, HashOf(seed), size, entries[..], i, j, k)
      {
        var p, q := BIN_CAPACITY * i + j, BIN_CAPACITY * (size + i) + k;
        ghost var r := entries[..];
        SplitRange(s, HashOf(seed), size, r, i, j, k);
        var e := entries[p];
        var h := 0;
        if e.key != ZERO { h := Murmur64(e.key, seed); }
        if e.key != ZERO && LevelOf(h, size) {
          SplitMove(s, HashOf(seed), size, r, i, j, k);
          entries[q] := e;
          entries[p] := Entry(ZERO, e.value);
          assert entries[..] == r[q := e][p := Entry(ZERO, e.value)];
          k := k + 1;
        } else {
          SplitStay(s, HashOf(seed), size, r, i, j, k);
        }
      }
      SplitNext(s, HashOf(seed), size, entries[..], i, k);
    }

    /** Slots before slot j of bin i have been split off, the first k slots of bin
        size + i are taken. */
    ghost static predicate Split(s: seq<Entry>, hash: Key -> nat, size: nat, r: seq<Entry>, i: nat, j: nat, k: nat) {
      && PowerOfTwo(2 * size) && |s| == BIN_CAPACITY * size && |r| == 2 * |s|
      && Distinct(r) && Pairs(r) == Pairs(s)
      && HomedWithin(r, 0, BIN_CAPACITY * i + j, hash, 2 * size)
      && (forall p :: BIN_CAPACITY * i + j <= p < |s| ==> r[p] == s[p])
      && HomedWithin(r, |s|, |s| + BIN_CAPACITY * i + k, hash, 2 * size)
      && (forall p :: |s| + BIN_CAPACITY * i + k <= p < |r| ==> r[p].key == ZERO)
    }

    ghost static predicate HomedWithin(r: seq<Entry>, low: nat, high: nat, hash: Key -> nat, size: nat)
      requires PowerOfTwo(size)
    {
      forall p :: low <= p < high && Used(r, p) ==> p / BIN_CAPACITY == BinOf(hash(r[p].key), size)
    }

    static lemma HomedWrite(r: seq<Entry>, low: nat, high: nat, hash: Key -> nat, size: nat, p: nat, e: Entry)
      requires PowerOfTwo(size) && p < |r| && HomedWithin(r, low, high, hash, size)
      requires e.key == ZERO || p < low || high <= p
      ensures HomedWithin(r[p := e], low, high, hash, size)
    {
      hide BinOf, PowerOfTwo;
      var r' := r[p := e];
      forall q | low <= q < high && Used(r', q) ensures q / BIN_CAPACITY == BinOf(hash(r'[q].key), size) {
        assert q != p && Used(r, q);
      }
    }

    static lemma HomedOneMore(r: seq<Entry>, low: nat, high: nat, hash: Key -> nat, size: nat)
      requires PowerOfTwo(size) && HomedWithin(r, low, high, hash, size)
      requires Used(r, high) ==> high / BIN_CAPACITY == BinOf(hash(r[high].key), size)
      ensures HomedWithin(r, low, high + 1, hash, size)
    {
      hide BinOf, PowerOfTwo;
    }

    static lemma SplitNone(s: seq<Entry>, r: seq<Entry>, hash: Key -> nat, size: nat)
      requires Table(s, hash, size) && PowerOfTwo(2 * size)
      requires |r| == 2 * |s| && r[..|s|] == s && forall p :: |s| <= p < |r| ==> r[p].key == ZERO
      ensures Split(s, hash, size, r, 0, 0, 0)
    {
      hide BinOf, PowerOfTwo, Homed;
      forall p ensures Used(r, p) == Used(s, p) && (Used(s, p) ==> r[p] == s[p]) { }
      forall p | Used(r, p) ensures r[p].key in Pairs(s) && Pairs(s)[r[p].key] == r[p].value { InPairs(s, p); }
      forall k | k in Pairs(s) ensures k in KeysOf(r) { var p := SlotOf(s, k); InKeys(r, p); }
      PairsAre(r, Pairs(s));
    }

    static lemma SplitRange(s: seq<Entry>, hash: Key -> nat, size: nat, r: seq<Entry>, i: nat, j: nat, k: nat)
      requires Split(s, hash, size, r, i, j, k) && i < size && k <= j < BIN_CAPACITY
      ensures BIN_CAPACITY * i + j < |s| < |r| && BIN_CAPACITY * (size + i) + k < |r|
      ensures r[BIN_CAPACITY * i + j] == s[BIN_CAPACITY * i + j]
    {
      hide BinOf, PowerOfTwo, Pairs, Distinct;
    }

    static lemma SplitStay(s: seq<Entry>, hash: Key -> nat, size: nat, r: seq<Entry>, i: nat, j: nat, k: nat)
      requires Table(s, hash, size) && Split(s, hash, size, r, i, j, k) && i < size && k <= j < BIN_CAPACITY
      requires var p := BIN_CAPACITY * i + j; p < |r| && (r[p].key == ZERO || !LevelOf(hash(r[p].key), size))
      ensures Split(s, hash, size, r, i, j + 1, k)
    {
      hide BinOf, PowerOfTwo, Pairs, Distinct, LevelOf, HomedWithin;
      var p := BIN_CAPACITY * i + j;
      if r[p].key != ZERO {
        assert Used(s, p);
        HomeSplits(hash(r[p].key), size);
      }
      HomedOneMore(r, 0, p, hash, 2 * size);
    }

    static lemma SplitMove(s: seq<Entry>, hash: Key -> nat, size: nat, r: seq<Entry>, i: nat, j: nat, k: nat)
      requires Table(s, hash, size) && Split(s, hash, size, r, i, j, k) && i < size && k <= j < BIN_CAPACITY
      requires var p := BIN_CAPACITY * i + j; p < |r| && r[p].key != ZERO && LevelOf(hash(r[p].key), size)
      ensures var p, q := BIN_CAPACITY * i + j, BIN_CAPACITY * (size + i) + k;
              p < |r| && q < |r| && Split(s, hash, size, r[q := r[p]][p := Entry(ZERO, r[p].value)], i, j + 1, k + 1)
    {
      hide BinOf, PowerOfTwo, Pairs, Distinct, LevelOf, HomedWithin;
      var p, q := BIN_CAPACITY * i + j, BIN_CAPACITY * (size + i) + k;
      assert Used(s, p);
      HomeSplits(hash(r[p].key), size);
      Move(r, p, q);
      var r1 := r[q := r[p]];
      var r2 := r1[p := Entry(ZERO, r[p].value)];
      HomedWrite(r, 0, p, hash, 2 * size, q, r[p]);
      HomedWrite(r1, 0, p, hash, 2 * size, p, r2[p]);
      HomedOneMore(r2, 0, p, hash, 2 * size);
      HomedWrite(r, |s|, q, hash, 2 * size, q, r[p]);
      HomedWrite(r1, |s|, q, hash, 2 * size, p, r2[p]);
      HomedOneMore(r2, |s|, q, hash, 2 * size);
    }

    static lemma SplitNext(s: seq<Entry>, hash: Key -> nat, size: nat, r: seq<Entry>, i: nat, k: nat)
      requires Split(s, hash, size, r, i, BIN_CAPACITY, k) && k <= BIN_CAPACITY
      ensures Split(s, hash, size, r, i + 1, 0, 0)
    {
      hide BinOf, PowerOfTwo, Pairs, Distinct;
    }

    static lemma SplitAll(s: seq<Entry>, hash: Key -> nat, size: nat, r: seq<Entry>, hash': Key -> nat)
      requires PowerOfTwo(size) && Split(s, hash, size, r, size, 0, 0)
      ensures PowerOfTwo(2 * size) && Pairs(r) == Pairs(s) && |r| == 2 * |s| && Homed(r, hash, 2 * size)
      ensures Table(r, hash', 2 * size) <==>
              forall k :: k in Pairs(s) ==> BinOf(hash'(k), 2 * size) == BinOf(hash(k), 2 * size)
    {
      hide BinOf, PowerOfTwo, Pairs, Distinct;
      if forall k :: k in Pairs(r) ==> BinOf(hash'(k), 2 * size) == BinOf(hash(k), 2 * size) {
        forall p | Used(r, p) ensures p / BIN_CAPACITY == BinOf(hash'(r[p].key), 2 * size) { InPairs(r, p); }
      }
      if Table(r, hash', 2 * size) {
        forall k | k in Pairs(r) ensures BinOf(hash'(k), 2 * size) == BinOf(hash(k), 2 * size) {
          var p := SlotOf(r, k);
        }
      }
    }
  }
}
