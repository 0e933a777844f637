/** The segmented hash table of test/experimental/quasi-dynamic.cpp in its CHAIN
    configuration: bins of seven entries with a stash that doubles from 4 to 32, and
    segments that double on their own. */
module Chain {
  import opened Trie
  import opened Slots
  import Bins

  const DATA := 7
  const DEFAULT_STASH_SIZE := 4
  const MAX_STASH_SIZE := 32

  /** A bin of a segment's content array; a NULL stash is empty. */
  datatype Bin = Bin(data: seq<Entry>, stash: seq<Entry>)

  const VOID := Entry(ZERO, 0)
  const FRESH := Bin([VOID, VOID, VOID, VOID, VOID, VOID, VOID], [])

  function All(b: Bin): seq<Entry> { b.data + b.stash }

  predicate StashSize(n: nat) { n == 0 || n == 4 || n == 8 || n == 16 || n == 32 }

  ghost predicate BinOk(b: Bin) {
    |b.data| == DATA && StashSize(|b.stash|) && Distinct(All(b))
  }

  // -------------------------------------------------------- counting entries

  lemma LastKey(s: seq<Entry>)
    requires s != []
    ensures var i := |s| - 1;
            KeysOf(s) == if Used(s, i) then KeysOf(s[..i]) + {s[i].key} else KeysOf(s[..i])
  {
    hide KeysOf;
    var i := |s| - 1;
    forall k ensures k in KeysOf(s) <==> k in KeysOf(s[..i]) || (Used(s, i) && s[i].key == k) {
      if k in KeysOf(s) {
        var p := WithKey(s, k);
        if p < i { InKeys(s[..i], p); }
      }
      if k in KeysOf(s[..i]) {
        var p := WithKey(s[..i], k);
        InKeys(s, p);
      }
      if Used(s, i) { InKeys(s, i); }
    }
  }

  lemma {:induction false} KeyCount(s: seq<Entry>)
    ensures |KeysOf(s)| <= |s|
    ensures Distinct(s) && (forall p :: 0 <= p < |s| ==> Used(s, p)) ==> |KeysOf(s)| == |s|
    ensures (exists p :: 0 <= p < |s| && !Used(s, p)) ==> |KeysOf(s)| < |s|
  {
    hide KeysOf;
    if s == [] {
      if KeysOf(s) != {} {
        var k :| k in KeysOf(s);
        var p := WithKey(s, k);
      }
    } else {
      var i := |s| - 1;
      LastKey(s);
      KeyCount(s[..i]);
      assert forall p :: 0 <= p < i ==> Used(s[..i], p) == Used(s, p);
      if Distinct(s) && Used(s, i) && s[i].key in KeysOf(s[..i]) {
        var p := WithKey(s[..i], s[i].key);
        assert Used(s, p);
      }
    }
  }

  lemma PairCount(s: seq<Entry>)
    ensures |Pairs(s)| == |KeysOf(s)|
  {
    assert Pairs(s).Keys == KeysOf(s);
    assert |Pairs(s).Keys| == |Pairs(s)|;
  }

  /** Empty slots at the end change nothing. */
  lemma Padded(s: seq<Entry>, r: seq<Entry>)
    requires |s| <= |r| && r[..|s|] == s && forall p :: |s| <= p < |r| ==> r[p].key == ZERO
    ensures Distinct(s) ==> Distinct(r) && Pairs(r) == Pairs(s)
  {
    if Distinct(s) {
      forall p ensures Used(r, p) == Used(s, p) && (Used(s, p) ==> r[p] == s[p]) { }
      forall p | Used(r, p) ensures r[p].key in Pairs(s) && Pairs(s)[r[p].key] == r[p].value { InPairs(s, p); }
      forall k | k in Pairs(s) ensures k in KeysOf(r) { var p := SlotOf(s, k); InKeys(r, p); }
      PairsAre(r, Pairs(s));
    }
  }

  // ---------------------------------------------------------- insertion

  /** insert_proc() and expand_proc() on a row of slots: the first empty one. */
  method FirstEmpty(s: seq<Entry>) returns (i: int)
    ensures -1 <= i < |s|
    ensures i >= 0 ==> s[i].key == ZERO
    ensures i == -1 ==> forall j :: 0 <= j < |s| ==> s[j].key != ZERO
  {
    i := 0;
    while i < |s|
      invariant 0 <= i <= |s| && forall j :: 0 <= j < i ==> s[j].key != ZERO
    {
      if s[i].key == ZERO { return; }
      i := i + 1;
    }
    i := -1;
  }

  const CAPACITY := DATA + MAX_STASH_SIZE

  lemma FilledSlot(s: seq<Entry>, r: seq<Entry>, p: nat, e: Entry)
    requires Distinct(s) && p < |s| && s[p].key == ZERO && e.key != ZERO
    requires r == s[p := e]
    ensures |Pairs(s)| < |s|
    ensures e.key !in Pairs(s) ==> Distinct(r) && Pairs(r) == Pairs(s)[e.key := e.value]
  {
    hide KeysOf, Pairs;
    if e.key !in Pairs(s) { Fill(s, p, e); }
    KeyCount(s);
    PairCount(s);
    assert !Used(s, p);
  }

  lemma FullRow(s: seq<Entry>)
    requires Distinct(s) && forall j :: 0 <= j < |s| ==> s[j].key != ZERO
    ensures |Pairs(s)| == |s|
  {
    hide KeysOf, Pairs, Distinct;
    KeyCount(s);
    PairCount(s);
  }

  /** An empty slot of b, or of b with n more of them, has taken the entry. */
  ghost predicate AddedAt(b: Bin, c: Bin, e: Entry, n: nat, p: nat) {
    var s := All(b) + seq(n, _ => VOID);
    p < |s| && s[p].key == ZERO && All(c) == s[p := e]
  }

  ghost predicate Added(b: Bin, c: Bin, e: Entry) { exists n: nat, p: nat :: AddedAt(b, c, e, n, p) }

  /** All that was there is there still, and the entry with it. */
  lemma AddedKeeps(b: Bin, c: Bin, e: Entry, o: Entry)
    requires Added(b, c, e) && o in All(b) && o.key != ZERO
    ensures o in All(c) && e in All(c)
  {
    var n: nat, p: nat :| AddedAt(b, c, e, n, p);
    var i :| 0 <= i < |All(b)| && All(b)[i] == o;
    assert All(c)[i] == o && All(c)[p] == e;
  }

  /** The data part, then the stash, which is made or doubled if need be.  Whether the
      key is there already makes no difference to what is done. */
  method Put(content: array<Bin>, b: nat, e: Entry) returns (ok: bool)
    requires b < content.Length && BinOk(content[b]) && e.key != ZERO
    modifies content
    ensures content[..] == old(content[..])[b := content[b]]
    ensures ok <==> |Pairs(All(old(content[b])))| < CAPACITY
    ensures ok ==> Added(old(content[b]), content[b], e)
    ensures !ok ==> BinOk(content[b]) && Pairs(All(content[b])) == Pairs(All(old(content[b])))
    ensures ok && e.key !in Pairs(All(old(content[b]))) ==>
              BinOk(content[b]) && Pairs(All(content[b])) == Pairs(All(old(content[b])))[e.key := e.value]
  {
    hide Distinct, Pairs, KeysOf, Added;
    ghost var b0 := content[b];
    var i := FirstEmpty(content[b].data);
    if i >= 0 {
      DataFill(b0, i, e);
      content[b] := content[b].(data := content[b].data[i := e]);
      return true;
    }
    if content[b].stash == [] {
      NewStash(b0);
      content[b] := content[b].(stash := seq(DEFAULT_STASH_SIZE, _ => VOID));
    }
    ghost var b1, n1 := content[b], |content[b].stash| - |b0.stash|;
    i := FirstEmpty(content[b].stash);
    if i >= 0 {
      StashFill(b0, b1, n1, i, e);
      content[b] := content[b].(stash := content[b].stash[i := e]);
      return true;
    }
    NoEmpty(b1);
    FullRow(All(b1));
    if |content[b].stash| < MAX_STASH_SIZE {
      var n := |content[b].stash|;
      DoubleStash(b1);
      content[b] := content[b].(stash := content[b].stash + seq(n, _ => VOID));
      i := FirstEmpty(content[b].stash);
      assert content[b].stash[n] == VOID;
      StashFill(b0, content[b], n1 + n, i, e);
      content[b] := content[b].(stash := content[b].stash[i := e]);
      return true;
    }
    return false;
  }

  lemma DataFill(b: Bin, i: nat, e: Entry)
    requires BinOk(b) && i < |b.data| && b.data[i].key == ZERO && e.key != ZERO
    ensures |Pairs(All(b))| < CAPACITY
    ensures var c := b.(data := b.data[i := e]);
            Added(b, c, e) && (e.key !in Pairs(All(b)) ==> BinOk(c) && Pairs(All(c)) == Pairs(All(b))[e.key := e.value])
  {
    hide Pairs, Distinct;
    var c := b.(data := b.data[i := e]);
    FilledSlot(All(b), All(c), i, e);
    assert AddedAt(b, c, e, 0, i);
  }

  /** b is b0 with n more slots. */
  lemma StashFill(b0: Bin, b: Bin, n: nat, i: nat, e: Entry)
    requires BinOk(b0) && BinOk(b) && i < |b.stash| && b.stash[i].key == ZERO && e.key != ZERO
    requires b.data == b0.data && b.stash == b0.stash + seq(n, _ => VOID)
    ensures |Pairs(All(b))| < CAPACITY
    ensures var c := b.(stash := b.stash[i := e]);
            && Added(b0, c, e)
            && (e.key !in Pairs(All(b)) ==> BinOk(c) && Pairs(All(c)) == Pairs(All(b))[e.key := e.value])
  {
    hide Pairs, Distinct;
    var c := b.(stash := b.stash[i := e]);
    FilledSlot(All(b), All(c), DATA + i, e);
    assert All(b0) + seq(n, _ => VOID) == All(b);
    assert AddedAt(b0, c, e, n, DATA + i);
  }

  lemma NewStash(b: Bin)
    requires BinOk(b) && b.stash == []
    ensures var c := b.(stash := seq(DEFAULT_STASH_SIZE, _ => VOID)); BinOk(c) && Pairs(All(c)) == Pairs(All(b))
  {
    hide Pairs, Distinct;
    Padded(All(b), All(b.(stash := seq(DEFAULT_STASH_SIZE, _ => VOID))));
  }

  lemma DoubleStash(b: Bin)
    requires BinOk(b) && 0 < |b.stash| < MAX_STASH_SIZE
    ensures var c := b.(stash := b.stash + seq(|b.stash|, _ => VOID)); BinOk(c) && Pairs(All(c)) == Pairs(All(b))
  {
    hide Pairs, Distinct;
    Padded(All(b), All(b.(stash := b.stash + seq(|b.stash|, _ => VOID))));
  }

  lemma NoEmpty(b: Bin)
    requires forall j :: 0 <= j < |b.data| ==> b.data[j].key != ZERO
    requires forall j :: 0 <= j < |b.stash| ==> b.stash[j].key != ZERO
    ensures forall j :: 0 <= j < |All(b)| ==> All(b)[j].key != ZERO
  {
  }

  // ------------------------------------------------------------ bin numbers

  /** h >> ctz(length), for a length that is a power of two. */
  function Upper(key: Key, hash: Key -> nat, length: nat): nat
    requires length > 0
  {
    hash(key) / length
  }

  function BinId(key: Key, hash: Key -> nat, length: nat, width: nat): (b: nat)
    requires length > 0 && Bins.PowerOfTwo(width)
    ensures b < width
  {
    Bins.AndMask(Upper(key, hash, length), width);
    Bins.And(Upper(key, hash, length), width - 1)
  }

  /** The bin of a key is told by the bits of its hash above those that tell its segment. */
  lemma BinIdIs(key: Key, hash: Key -> nat, length: nat, width: nat)
    requires length > 0 && Bins.PowerOfTwo(width)
    ensures width > 0 && BinId(key, hash, length, width) == (hash(key) / length) % width
  {
    Bins.AndMask(hash(key) / length, width);
  }

  /** Doubling a segment sends the keys of one bin to two bins that no other bin's
      keys go to. */
  lemma BinSplits(key: Key, hash: Key -> nat, length: nat, width: nat)
    requires length > 0 && Bins.PowerOfTwo(width)
    ensures Bins.PowerOfTwo(2 * width)
    ensures var b := BinId(key, hash, length, 2 * width);
            b == BinId(key, hash, length, width) || b == BinId(key, hash, length, width) + width
  {
    hide Bins.Hash, Bins.And;
    var h := Upper(key, hash, length);
    Bins.AndMask(h, width);
    Bins.AndMask(h, 2 * width);
    Bins.AndBit(h, width);
  }

  /** All keys of bin b belong there. */
  ghost predicate Tidy(bin: Bin, b: nat, hash: Key -> nat, length: nat, width: nat)
    requires length > 0 && Bins.PowerOfTwo(width)
  {
    BinOk(bin) && forall k :: k in Pairs(All(bin)) ==> BinId(k, hash, length, width) == b
  }

  ghost predicate SegmentOk(bins: seq<Bin>, hash: Key -> nat, length: nat) {
    && length > 0 && Bins.PowerOfTwo(|bins|)
    && forall b :: 0 <= b < |bins| ==> Tidy(bins[b], b, hash, length, |bins|)
  }

  /** What a segment holds for a key: what the key's bin holds. */
  ghost function HeldBy(bins: seq<Bin>, hash: Key -> nat, length: nat, key: Key): Option<Value>
    requires SegmentOk(bins, hash, length)
  {
    At(Pairs(All(bins[BinId(key, hash, length, |bins|)])), key)
  }

  // --------------------------------------------------------------- splitting

  /** Bin `bin`, to be number b of a segment of the given width, has those of the
      first p entries of s that belong there. */
  ghost predicate Part(s: seq<Entry>, p: nat, bin: Bin, b: nat, hash: Key -> nat, length: nat, width: nat)
    requires length > 0 && Bins.PowerOfTwo(width) && p <= |s|
  {
    && BinOk(bin)
    && forall k :: At(Pairs(All(bin)), k) == if BinId(k, hash, length, width) == b then At(Pairs(s[..p]), k) else None
  }

  lemma PairsPrefix(s: seq<Entry>, p: nat)
    requires Distinct(s) && p < |s|
    ensures Distinct(s[..p]) && Distinct(s[..p + 1])
    ensures Used(s, p) ==> s[p].key !in Pairs(s[..p]) && Pairs(s[..p + 1]) == Pairs(s[..p])[s[p].key := s[p].value]
    ensures !Used(s, p) ==> Pairs(s[..p + 1]) == Pairs(s[..p])
  {
    hide KeysOf, Pairs;
    var r, q := s[..p + 1], s[..p];
    assert forall i :: Used(q, i) ==> Used(r, i) && r[i] == q[i] == s[i] && Used(s, i);
    assert forall i :: Used(r, i) ==> Used(s, i) && r[i] == s[i];
    if Used(s, p) {
      if s[p].key in Pairs(q) { var i := SlotOf(q, s[p].key); }
      var hole := q + [Entry(ZERO, s[p].value)];
      Padded(q, hole);
      Fill(hole, p, s[p]);
      assert hole[p := s[p]] == r;
    } else {
      assert r[..|q|] == q;
      Padded(q, r);
    }
  }

  lemma PartStep(s: seq<Entry>, p: nat, bin: Bin, next: Bin, b: nat, hash: Key -> nat, length: nat, width: nat)
    requires length > 0 && Bins.PowerOfTwo(width) && p < |s| && Distinct(s) && Part(s, p, bin, b, hash, length, width)
    requires BinOk(next)
    requires Pairs(All(next)) == if Used(s, p) && BinId(s[p].key, hash, length, width) == b
                                 then Pairs(All(bin))[s[p].key := s[p].value] else Pairs(All(bin))
    ensures Part(s, p + 1, next, b, hash, length, width)
  {
    hide Pairs, Distinct, BinId, Bins.PowerOfTwo, Used;
    PairsPrefix(s, p);
    assert forall k :: At(Pairs(All(bin)), k) ==
                       if BinId(k, hash, length, width) == b then At(Pairs(s[..p]), k) else None;
  }

  /** There is room for the next entry, and it is not there yet. */
  lemma PartRoom(s: seq<Entry>, p: nat, bin: Bin, b: nat, hash: Key -> nat, length: nat, width: nat)
    requires length > 0 && Bins.PowerOfTwo(width) && p < |s| <= CAPACITY && Distinct(s) && Used(s, p)
    requires Part(s, p, bin, b, hash, length, width)
    ensures |Pairs(All(bin))| < CAPACITY && s[p].key !in Pairs(All(bin))
  {
    hide Pairs, Distinct, BinId, Bins.PowerOfTwo, Used, KeysOf;
    PairsPrefix(s, p);
    assert At(Pairs(All(bin)), s[p].key) ==
           if BinId(s[p].key, hash, length, width) == b then At(Pairs(s[..p]), s[p].key) else None;
    var keys := Pairs(All(bin)).Keys;
    forall k | k in keys ensures k in Pairs(s[..p]).Keys {
      assert At(Pairs(All(bin)), k) == if BinId(k, hash, length, width) == b then At(Pairs(s[..p]), k) else None;
    }
    Subset(keys, Pairs(s[..p]).Keys);
    PairCount(s[..p]);
    KeyCount(s[..p]);
    assert |Pairs(All(bin))| == |keys| && |Pairs(s[..p])| == |Pairs(s[..p]).Keys|;
  }

  lemma PartNone(s: seq<Entry>, b: nat, hash: Key -> nat, length: nat, width: nat)
    requires length > 0 && Bins.PowerOfTwo(width)
    ensures Part(s, 0, FRESH, b, hash, length, width)
  {
    hide BinId, Bins.PowerOfTwo;
    NothingIn(All(FRESH));
    NothingIn(s[..0]);
  }

  lemma NothingIn(s: seq<Entry>)
    requires forall p :: 0 <= p < |s| ==> s[p].key == ZERO
    ensures Pairs(s) == map[] && Distinct(s)
  {
  }

  /** The data slots from j on and the stash are still empty. */
  predicate Untouched(bin: Bin, j: nat) {
    |bin.data| == DATA && bin.stash == [] && forall t :: j <= t < DATA ==> bin.data[t].key == ZERO
  }

  /** Both halves of old bin l, after its first p entries. */
  ghost predicate Halves(s: seq<Entry>, p: nat, bins: seq<Bin>, l: nat, hash: Key -> nat, length: nat, width: nat)
    requires length > 0 && Bins.PowerOfTwo(2 * width) && p <= |s|
  {
    && l < width && |bins| == 2 * width
    && Part(s, p, bins[l], l, hash, length, 2 * width)
    && Part(s, p, bins[l + width], l + width, hash, length, 2 * width)
  }

  /** One entry moves to the half that it belongs to, the other stays. */
  lemma HalvesStep(s: seq<Entry>, p: nat, bins: seq<Bin>, next: seq<Bin>, l: nat, hash: Key -> nat, length: nat,
                   width: nat)
    requires length > 0 && Bins.PowerOfTwo(2 * width) && p < |s| && Distinct(s) &&
             Halves(s, p, bins, l, hash, length, width)
    requires |next| == |bins|
    requires !Used(s, p) ==> next == bins
    requires Used(s, p) ==>
               var c := BinId(s[p].key, hash, length, 2 * width);
               && (c == l || c == l + width) && next == bins[c := next[c]] && BinOk(next[c])
               && Pairs(All(next[c])) == Pairs(All(bins[c]))[s[p].key := s[p].value]
    ensures Halves(s, p + 1, next, l, hash, length, width)
  {
    hide Pairs, Distinct, BinId, Bins.PowerOfTwo, Used, BinOk, Part;
    PartOk(s, p, bins[l], l, hash, length, 2 * width);
    PartOk(s, p, bins[l + width], l + width, hash, length, 2 * width);
    PartStep(s, p, bins[l], next[l], l, hash, length, 2 * width);
    PartStep(s, p, bins[l + width], next[l + width], l + width, hash, length, 2 * width);
  }

  lemma PartOk(s: seq<Entry>, p: nat, bin: Bin, b: nat, hash: Key -> nat, length: nat, width: nat)
    requires length > 0 && Bins.PowerOfTwo(width) && p <= |s| && Part(s, p, bin, b, hash, length, width)
    ensures BinOk(bin)
  {
  }

  /** The two loops of qd_hash_expand() over old bin l.  Where an insertion could
      fail nothing is done about it: it cannot. */
  method SplitBin(old0: Bin, content: array<Bin>, l: nat, seed: Bins.Seed, length: nat, width: nat)
    requires length > 0 && Bins.PowerOfTwo(width) && Bins.PowerOfTwo(2 * width) && l < width
    requires content.Length == 2 * width && content[l] == FRESH && content[l + width] == FRESH
    requires Tidy(old0, l, Bins.HashOf(seed), length, width)
    modifies content
    ensures Halves(All(old0), |All(old0)|, content[..], l, Bins.HashOf(seed), length, width)
    ensures forall b :: 0 <= b < content.Length && b != l && b != l + width ==> content[b] == old(content[b])
  {
    hide Pairs, Distinct, BinId, Bins.PowerOfTwo, Bins.Hash, Used, Part, KeysOf;
    ghost var s := All(old0);
    PartNone(s, l, Bins.HashOf(seed), length, 2 * width);
    PartNone(s, l + width, Bins.HashOf(seed), length, 2 * width);
    for j := 0 to DATA
      invariant Halves(s, j, content[..], l, Bins.HashOf(seed), length, width)
      invariant Untouched(content[l], j) && Untouched(content[l + width], j)
      invariant forall b :: 0 <= b < content.Length && b != l && b != l + width ==> content[b] == old(content[b])
    {
      var e := old0.data[j];
      ghost var bins := content[..];
      if e.key != ZERO {
        var h := NewId(e.key, seed, length, 2 * width);
        Target(old0, j, bins, l, Bins.HashOf(seed), length, width);
        DataFill(content[h], j, e);
        content[h] := content[h].(data := content[h].data[j := e]);
        assert content[..] == bins[h := content[h]];
      }
      IsUsed(s, j);
      HalvesStep(s, j, bins, content[..], l, Bins.HashOf(seed), length, width);
    }
    for j := 0 to |old0.stash|
      invariant Halves(s, DATA + j, content[..], l, Bins.HashOf(seed), length, width)
      invariant forall b :: 0 <= b < content.Length && b != l && b != l + width ==> content[b] == old(content[b])
    {
      var e := old0.stash[j];
      ghost var bins := content[..];
      IsUsed(s, DATA + j);
      if e.key != ZERO {
        var h := NewId(e.key, seed, length, 2 * width);
        Target(old0, DATA + j, bins, l, Bins.HashOf(seed), length, width);
        var ignored := Put(content, h, e);
      }
      HalvesStep(s, DATA + j, bins, content[..], l, Bins.HashOf(seed), length, width);
    }
  }

  lemma IsUsed(s: seq<Entry>, p: nat)
    requires p < |s|
    ensures Used(s, p) <==> s[p].key != ZERO
  {
  }

  method NewId(key: Key, seed: Bins.Seed, length: nat, width: nat) returns (b: nat)
    requires length > 0 && Bins.PowerOfTwo(width)
    ensures b == BinId(key, Bins.HashOf(seed), length, width)
  {
    hide Bins.And, Bins.Hash;
    var h := Bins.Murmur64(key, seed);
    b := Bins.And(h / length, width - 1);
    Bins.AndMask(h / length, width);
  }

  /** Where the next entry goes: one of the two bins, which has room for it. */
  lemma Target(old0: Bin, p: nat, bins: seq<Bin>, l: nat, hash: Key -> nat, length: nat, width: nat)
    requires length > 0 && Bins.PowerOfTwo(width) && Bins.PowerOfTwo(2 * width)
    requires Tidy(old0, l, hash, length, width) && p < |All(old0)| && All(old0)[p].key != ZERO
    requires Halves(All(old0), p, bins, l, hash, length, width)
    ensures var key, b := All(old0)[p].key, BinId(All(old0)[p].key, hash, length, 2 * width);
            && (b == l || b == l + width) && b < |bins| && BinOk(bins[b])
            && key !in Pairs(All(bins[b])) && |Pairs(All(bins[b]))| < CAPACITY
  {
    hide Pairs, Distinct, BinId, Bins.PowerOfTwo, Bins.Hash, Part;
    var s := All(old0);
    InPairs(s, p);
    BinSplits(s[p].key, hash, length, width);
    var b := BinId(s[p].key, hash, length, 2 * width);
    PartOk(s, p, bins[b], b, hash, length, 2 * width);
    PartRoom(s, p, bins[b], b, hash, length, 2 * width);
  }

  lemma HalvesKept(s: seq<Entry>, bins: seq<Bin>, next: seq<Bin>, l: nat, hash: Key -> nat, length: nat, width: nat)
    requires length > 0 && Bins.PowerOfTwo(2 * width) && Halves(s, |s|, bins, l, hash, length, width)
    requires |next| == |bins| && next[l] == bins[l] && next[l + width] == bins[l + width]
    ensures Halves(s, |s|, next, l, hash, length, width)
  {
    hide Part, Bins.PowerOfTwo;
  }

  /** Two halves of every bin make a segment that holds what the old one held. */
  lemma AllSplit(bins: seq<Bin>, next: seq<Bin>, hash: Key -> nat, length: nat)
    requires SegmentOk(bins, hash, length) && Bins.PowerOfTwo(2 * |bins|) && |next| == 2 * |bins|
    requires forall l :: 0 <= l < |bins| ==> Halves(All(bins[l]), |All(bins[l])|, next, l, hash, length, |bins|)
    ensures SegmentOk(next, hash, length)
    ensures forall k :: HeldBy(next, hash, length, k) == HeldBy(bins, hash, length, k)
  {
    hide Pairs, Distinct, BinId, Bins.PowerOfTwo, BinOk, Part;
    var w := |bins|;
    forall b | 0 <= b < |next| ensures Tidy(next[b], b, hash, length, |next|) {
      var l := if b < w then b else b - w;
      assert Halves(All(bins[l]), |All(bins[l])|, next, l, hash, length, w);
      PartTidy(All(bins[l]), next[b], b, hash, length, 2 * w);
    }
    forall k ensures HeldBy(next, hash, length, k) == HeldBy(bins, hash, length, k) {
      BinSplits(k, hash, length, w);
      var l, b := BinId(k, hash, length, w), BinId(k, hash, length, 2 * w);
      assert Halves(All(bins[l]), |All(bins[l])|, next, l, hash, length, w);
      PartHolds(All(bins[l]), next[b], b, hash, length, 2 * w, k);
    }
  }

  lemma PartTidy(s: seq<Entry>, bin: Bin, b: nat, hash: Key -> nat, length: nat, width: nat)
    requires length > 0 && Bins.PowerOfTwo(width) && Part(s, |s|, bin, b, hash, length, width)
    ensures Tidy(bin, b, hash, length, width)
  {
    hide Pairs, Distinct, BinId, Bins.PowerOfTwo, BinOk;
    forall k | k in Pairs(All(bin)) ensures BinId(k, hash, length, width) == b {
      assert At(Pairs(All(bin)), k) == if BinId(k, hash, length, width) == b then At(Pairs(s[..|s|]), k) else None;
    }
  }

  lemma PartHolds(s: seq<Entry>, bin: Bin, b: nat, hash: Key -> nat, length: nat, width: nat, k: Key)
    requires length > 0 && Bins.PowerOfTwo(width) && Part(s, |s|, bin, b, hash, length, width)
    requires BinId(k, hash, length, width) == b
    ensures At(Pairs(All(bin)), k) == At(Pairs(s), k)
  {
    hide Pairs, Distinct, BinId, Bins.PowerOfTwo, BinOk;
    assert s[..|s|] == s;
  }

  /** One bin changes in what it has for one of its keys. */
  lemma BinChanged(bins: seq<Bin>, next: seq<Bin>, b: nat, key: Key, v: Option<Value>, hash: Key -> nat, length: nat)
    requires SegmentOk(bins, hash, length) && b < |bins| && b == BinId(key, hash, length, |bins|)
    requires |next| == |bins| && next == bins[b := next[b]] && BinOk(next[b])
    requires Pairs(All(next[b])) ==
             match v case Some(x) => Pairs(All(bins[b]))[key := x] case None => Pairs(All(bins[b])) - {key}
    ensures SegmentOk(next, hash, length) && HeldBy(next, hash, length, key) == v
    ensures forall k :: k != key ==> HeldBy(next, hash, length, k) == HeldBy(bins, hash, length, k)
  {
    hide Pairs, Distinct, BinId, Bins.PowerOfTwo, BinOk, All;
    assert Tidy(bins[b], b, hash, length, |bins|);
    forall c | 0 <= c < |next| ensures Tidy(next[c], c, hash, length, |next|) {
      assert Tidy(bins[c], c, hash, length, |bins|);
    }
  }

  class Segment {
    var width: nat
    var content: array<Bin>

    ghost predicate Valid(seed: Bins.Seed, length: nat)
      reads this, content
    {
      content.Length == width && SegmentOk(content[..], Bins.HashOf(seed), length)
    }

    ghost function Has(key: Key, seed: Bins.Seed, length: nat): Option<Value>
      requires Valid(seed, length)
      reads this, content
    {
      HeldBy(content[..], Bins.HashOf(seed), length, key)
    }

    ghost function Bin(key: Key, seed: Bins.Seed, length: nat): (b: nat)
      requires Valid(seed, length)
      reads this, content
      ensures b < content.Length
    {
      BinId(key, Bins.HashOf(seed), length, width)
    }

    /** What the code of a failed call says about the bin: 2 is added near the lower
        end of the segment and 4 near the upper one. */
    lemma FailureIs(key: Key, seed: Bins.Seed, length: nat)
      requires Valid(seed, length)
      ensures width > 0
      ensures var b, code := (Bins.Hash(key, seed) / length) % width, Failure(Bin(key, seed, length), width);
              && (code == 1 || code == 3 || code == 5 || code == 7)
              && (b < 2 <==> code == 3 || code == 7) && (b + 2 >= width <==> code == 5 || code == 7)
    {
      hide Bins.Hash, BinId;
      BinIdIs(key, Bins.HashOf(seed), length, width);
    }

    /** How many entries share the bin of the key. */
    ghost function Crowd(key: Key, seed: Bins.Seed, length: nat): nat
      requires Valid(seed, length)
      reads this, content
    {
      |Pairs(All(content[Bin(key, seed, length)]))|
    }

    constructor (width: nat, seed: Bins.Seed, length: nat)
      requires Bins.PowerOfTwo(width) && length > 0
      ensures Valid(seed, length) && fresh(content) && forall k :: Has(k, seed, length) == None
    {
      hide Bins.PowerOfTwo, BinId;
      this.width := width;
      content := new Bin[width](_ => FRESH);
      new;
      NothingIn(All(FRESH));
    }

    /** qd_hash_expand(): nothing is dropped. */
    method Expand(seed: Bins.Seed, length: nat)
      requires Valid(seed, length)
      modifies this
      ensures fresh(content) && Valid(seed, length) && width == 2 * old(width)
      ensures forall k :: Has(k, seed, length) == old(Has(k, seed, length))
    {
      hide Bins.PowerOfTwo, BinId, Tidy, Halves, HeldBy;
      ghost var bins := content[..];
      DoublesWidth(width);
      var next := new Bin[2 * width](_ => FRESH);
      for l := 0 to width
        invariant forall i :: 0 <= i < l ==>
                    Halves(All(bins[i]), |All(bins[i])|, next[..], i, Bins.HashOf(seed), length, width)
        invariant forall b :: l <= b < width || l + width <= b < 2 * width ==> next[b] == FRESH
        modifies next
      {
        ghost var before := next[..];
        assert Tidy(bins[l], l, Bins.HashOf(seed), length, width);
        SplitBin(content[l], next, l, seed, length, width);
        forall i | 0 <= i < l
          ensures Halves(All(bins[i]), |All(bins[i])|, next[..], i, Bins.HashOf(seed), length, width)
        {
          assert Halves(All(bins[i]), |All(bins[i])|, before, i, Bins.HashOf(seed), length, width);
          HalvesKept(All(bins[i]), before, next[..], i, Bins.HashOf(seed), length, width);
        }
      }
      AllSplit(bins, next[..], Bins.HashOf(seed), length);
      width := 2 * width;
      content := next;
    }

    static lemma DoublesWidth(n: nat)
      requires Bins.PowerOfTwo(n)
      ensures Bins.PowerOfTwo(2 * n) && n > 0
    {
    }

    /** qd_hash_set() inserting: the pair goes into the key's bin, if need be after the
        segment has been doubled.  A key that is there already is stored once more,
        beside the pair that it has. */
    method Insert(key: Key, value: Value, expandable: bool, seed: Bins.Seed, length: nat) returns (ok: bool, bin: nat)
      requires Valid(seed, length) && key != ZERO
      modifies this, content
      ensures content == old(content) || fresh(content)
      ensures ok && old(Has(key, seed, length)).Some? ==>
                && bin < content.Length && Entry(key, value) in All(content[bin])
                && Entry(key, old(Has(key, seed, length)).value) in All(content[bin])
      ensures (ok && old(Has(key, seed, length)).Some?) || Valid(seed, length)
      ensures !(ok && old(Has(key, seed, length)).Some?) ==>
                && Has(key, seed, length) == (if ok then Some(value) else old(Has(key, seed, length)))
                && bin == Bin(key, seed, length)
                && forall k :: k != key ==> Has(k, seed, length) == old(Has(k, seed, length))
      ensures !ok ==> Crowd(key, seed, length) == CAPACITY && (expandable ==> width == 2 * old(width))
    {
      hide Bins.PowerOfTwo, BinId, Pairs, Tidy, HeldBy, BinOk, Added, All;
      var chances := if expandable then 1 else 0;
      while true
        invariant Valid(seed, length) && (content == old(content) || fresh(content)) && chances >= 0
        invariant forall k :: Has(k, seed, length) == old(Has(k, seed, length))
        invariant width == (if expandable && chances == 0 then 2 * old(width) else old(width))
        decreases chances
      {
        bin := NewId(key, seed, length, width);
        ghost var bins := content[..];
        BinFacts(bins, bin, key, Bins.HashOf(seed), length);
        ok := Put(content, bin, Entry(key, value));
        if ok {
          if HeldBy(bins, Bins.HashOf(seed), length, key).Some? {
            BothThere(bins, content[bin], bin, key, value, Bins.HashOf(seed), length);
          } else {
            BinChanged(bins, content[..], bin, key, Some(value), Bins.HashOf(seed), length);
          }
          return;
        }
        BinSame(bins, content[..], bin, Bins.HashOf(seed), length);
        if chances > 0 {
          Expand(seed, length);
          chances := chances - 1;
        } else {
          return;
        }
      }
    }

    /** A second entry of a key leaves the first one where it is. */
    static lemma BothThere(bins: seq<Bin>, c: Bin, b: nat, key: Key, value: Value, hash: Key -> nat, length: nat)
      requires SegmentOk(bins, hash, length) && b < |bins| && b == BinId(key, hash, length, |bins|)
      requires HeldBy(bins, hash, length, key).Some? && Added(bins[b], c, Entry(key, value))
      ensures Entry(key, value) in All(c) && Entry(key, HeldBy(bins, hash, length, key).value) in All(c)
    {
      hide Bins.PowerOfTwo, BinId, Pairs, KeysOf, Added, All;
      var s := All(bins[b]);
      assert Tidy(bins[b], b, hash, length, |bins|);
      var p := SlotOf(s, key);
      InPairs(s, p);
      assert s[p] == Entry(key, HeldBy(bins, hash, length, key).value);
      AddedKeeps(bins[b], c, Entry(key, value), s[p]);
    }

    /** A bin got more slots only. */
    static lemma BinSame(bins: seq<Bin>, next: seq<Bin>, b: nat, hash: Key -> nat, length: nat)
      requires SegmentOk(bins, hash, length) && b < |bins| && |next| == |bins| && next == bins[b := next[b]]
      requires BinOk(next[b]) && Pairs(All(next[b])) == Pairs(All(bins[b]))
      ensures SegmentOk(next, hash, length)
      ensures forall k :: HeldBy(next, hash, length, k) == HeldBy(bins, hash, length, k)
    {
      hide Pairs, Distinct, BinId, Bins.PowerOfTwo, BinOk, All;
      forall c | 0 <= c < |next| ensures Tidy(next[c], c, hash, length, |next|) {
        assert Tidy(bins[c], c, hash, length, |bins|);
      }
    }

    static lemma BinFacts(bins: seq<Bin>, b: nat, key: Key, hash: Key -> nat, length: nat)
      requires SegmentOk(bins, hash, length) && b == BinId(key, hash, length, |bins|)
      ensures b < |bins| && BinOk(bins[b]) && |Pairs(All(bins[b]))| <= CAPACITY
      ensures key in Pairs(All(bins[b])) <==> HeldBy(bins, hash, length, key).Some?
    {
      hide Bins.PowerOfTwo, BinId, Pairs;
      assert Tidy(bins[b], b, hash, length, |bins|);
      KeyCount(All(bins[b]));
      PairCount(All(bins[b]));
    }

    /** Where the key is: in slot i of the bin's data, or of its stash. */
    method Locate(key: Key, seed: Bins.Seed, length: nat) returns (bin: nat, inData: bool, i: int)
      requires Valid(seed, length) && key != ZERO
      ensures bin == BinId(key, Bins.HashOf(seed), length, width) == Bin(key, seed, length)
      ensures bin < content.Length && BinOk(content[bin]) && -1 <= i
      ensures i == -1 ==> Has(key, seed, length) == None
      ensures i >= 0 ==> i < if inData then |content[bin].data| else |content[bin].stash|
      ensures i >= 0 ==> var e := if inData then content[bin].data[i] else content[bin].stash[i];
                         e.key == key && Has(key, seed, length) == Some(e.value)
    {
      hide Bins.PowerOfTwo, BinId, Pairs, HeldBy, KeysOf, Distinct, BinOk;
      bin := NewId(key, seed, length, width);
      BinIsOk(content[..], bin, key, Bins.HashOf(seed), length);
      inData := true;
      i := Find(content[bin].data, key);
      if i == -1 && content[bin].stash != [] {
        inData := false;
        i := Find(content[bin].stash, key);
      }
      InBin(content[..], bin, key, Bins.HashOf(seed), length);
      if i >= 0 { assert All(content[bin])[if inData then i else |content[bin].data| + i].key == key; }
    }

    static lemma BinIsOk(bins: seq<Bin>, b: nat, key: Key, hash: Key -> nat, length: nat)
      requires SegmentOk(bins, hash, length) && b == BinId(key, hash, length, |bins|)
      ensures b < |bins| && BinOk(bins[b])
    {
      hide Bins.PowerOfTwo, BinId, Pairs;
      assert Tidy(bins[b], b, hash, length, |bins|);
    }

    static lemma InBin(bins: seq<Bin>, b: nat, key: Key, hash: Key -> nat, length: nat)
      requires SegmentOk(bins, hash, length) && b == BinId(key, hash, length, |bins|) && key != ZERO && BinOk(bins[b])
      ensures forall p :: 0 <= p < |All(bins[b])| && All(bins[b])[p].key == key ==>
                HeldBy(bins, hash, length, key) == Some(All(bins[b])[p].value)
      ensures (forall p :: 0 <= p < |All(bins[b])| ==> All(bins[b])[p].key != key) ==>
                HeldBy(bins, hash, length, key) == None
    {
      hide Bins.PowerOfTwo, BinId, Pairs, KeysOf, All;
      var s := All(bins[b]);
      forall p | 0 <= p < |s| && s[p].key == key
        ensures HeldBy(bins, hash, length, key) == Some(s[p].value)
      {
        InPairs(s, p);
      }
      if key in Pairs(s) { var p := SlotOf(s, key); }
    }

    /** query_proc(), update_proc() and delete_proc() on a row of slots. */
    static method Find(s: seq<Entry>, key: Key) returns (i: int)
      ensures -1 <= i < |s|
      ensures i >= 0 ==> s[i].key == key
      ensures i == -1 ==> forall j :: 0 <= j < |s| ==> s[j].key != key
    {
      i := 0;
      while i < |s|
        invariant 0 <= i <= |s| && forall j :: 0 <= j < i ==> s[j].key != key
      {
        if s[i].key == key { return; }
        i := i + 1;
      }
      i := -1;
    }

    /** qd_hash_get(). */
    method Get(key: Key, seed: Bins.Seed, length: nat) returns (result: Option<Value>)
      requires Valid(seed, length) && key != ZERO
      ensures result == Has(key, seed, length)
    {
      hide Bins.PowerOfTwo, BinId, Pairs, HeldBy, BinOk, SegmentOk;
      var bin, inData, i := Locate(key, seed, length);
      result := if i == -1 then None
                else if inData then Some(content[bin].data[i].value) else Some(content[bin].stash[i].value);
    }

    /** Writing e over an entry of the key. */
    method Rewrite(bin: nat, inData: bool, i: nat, e: Entry)
      requires bin < content.Length && i < if inData then |content[bin].data| else |content[bin].stash|
      modifies content
      ensures content[..] == old(content[..])[bin := content[bin]]
      ensures content[bin] == Written(old(content[bin]), inData, i, e)
    {
      content[bin] := Written(content[bin], inData, i, e);
    }

    static function Written(b: Bin, inData: bool, i: nat, e: Entry): Bin
      requires i < if inData then |b.data| else |b.stash|
    {
      if inData then b.(data := b.data[i := e]) else b.(stash := b.stash[i := e])
    }

    static lemma WrittenPairs(b: Bin, inData: bool, i: nat, e: Entry)
      requires BinOk(b) && i < (if inData then |b.data| else |b.stash|)
      requires var o := if inData then b.data[i] else b.stash[i];
               o.key != ZERO && (e.key == o.key || (e.key == ZERO && e.value == o.value))
      ensures var o, c := if inData then b.data[i] else b.stash[i], Written(b, inData, i, e);
              && BinOk(c)
              && Pairs(All(c)) == if e.key == ZERO then Pairs(All(b)) - {o.key} else Pairs(All(b))[o.key := e.value]
    {
      hide Pairs, KeysOf, Distinct;
      var s, p := All(b), if inData then i else DATA + i;
      var o := if inData then b.data[i] else b.stash[i];
      assert s[p] == o && Used(s, p);
      assert All(Written(b, inData, i, e)) == s[p := e];
      if e.key == ZERO { Clear(s, p); } else { Overwrite(s, p, e.value); }
    }

    /** qd_hash_set() updating. */
    method Update(key: Key, value: Value, seed: Bins.Seed, length: nat) returns (ok: bool, bin: nat)
      requires Valid(seed, length) && key != ZERO
      modifies content
      ensures Valid(seed, length) && ok == old(Has(key, seed, length)).Some?
      ensures Has(key, seed, length) == if ok then Some(value) else None
      ensures forall k :: k != key ==> Has(k, seed, length) == old(Has(k, seed, length))
      ensures bin == Bin(key, seed, length)
    {
      hide Bins.PowerOfTwo, BinId, Pairs, HeldBy, BinOk, SegmentOk;
      var inData, i;
      bin, inData, i := Locate(key, seed, length);
      if i == -1 { return false, bin; }
      ghost var bins := content[..];
      WrittenPairs(content[bin], inData, i, Entry(key, value));
      Rewrite(bin, inData, i, Entry(key, value));
      BinChanged(bins, content[..], bin, key, Some(value), Bins.HashOf(seed), length);
      ok := true;
    }

    /** qd_hash_del(). */
    method Delete(key: Key, seed: Bins.Seed, length: nat) returns (ok: bool)
      requires Valid(seed, length) && key != ZERO
      modifies content
      ensures Valid(seed, length) && ok == old(Has(key, seed, length)).Some?
      ensures Has(key, seed, length) == None
      ensures forall k :: k != key ==> Has(k, seed, length) == old(Has(k, seed, length))
    {
      hide Bins.PowerOfTwo, BinId, Pairs, HeldBy, BinOk, SegmentOk;
      var bin, inData, i := Locate(key, seed, length);
      if i == -1 { return false; }
      ghost var bins := content[..];
      var e := Entry(ZERO, if inData then content[bin].data[i].value else content[bin].stash[i].value);
      WrittenPairs(content[bin], inData, i, e);
      Rewrite(bin, inData, i, e);
      BinChanged(bins, content[..], bin, key, None, Bins.HashOf(seed), length);
      ok := true;
    }
  }

  /** SegId: h & (length - 1). */
  function SegId(key: Key, seed: Bins.Seed, length: nat): (id: nat)
    requires Bins.PowerOfTwo(length)
    ensures id < length
  {
    Bins.Home(key, seed, length)
  }

  const RADIUS := 2

  /** What qd_hash_set() returns when it fails. */
  function Failure(bin: nat, width: nat): nat {
    1 + (if bin < RADIUS then 2 else 0) + (if bin + RADIUS >= width then 4 else 0)
  }

  class QdHash {
    const length: nat
    const seed: Bins.Seed
    const seg: seq<Segment>

    ghost predicate Valid()
      reads this, seg, set s | s in seg :: s.content
    {
      && Bins.PowerOfTwo(length) && length > 0 && |seg| == length
      && (forall i, j :: 0 <= i < j < length ==> seg[i] != seg[j] && seg[i].content != seg[j].content)
      && forall i :: 0 <= i < length ==> seg[i].Valid(seed, length)
    }

    /** The map that the segments stand for together. */
    ghost function View(key: Key): Option<Value>
      requires Valid()
      reads this, seg, set s | s in seg :: s.content
    {
      seg[SegId(key, seed, length)].Has(key, seed, length)
    }

    /** The segments of qd_hash_init(). */
    constructor (length: nat, width: nat, seed: Bins.Seed, drawn: Bins.Seed)
      requires Bins.PowerOfTwo(length) && Bins.PowerOfTwo(width)
      ensures Valid() && this.length == length && forall k :: View(k) == None
    {
      hide Bins.PowerOfTwo, BinId, HeldBy, Bins.Home, SegmentOk;
      Segment.DoublesWidth(length);
      var actual := if seed == 0 then drawn else seed;
      var made: seq<Segment> := [];
      for i := 0 to length
        invariant |made| == i && forall j :: 0 <= j < i ==> made[j].Valid(actual, length)
        invariant forall j, k :: 0 <= j < i ==> made[j].Has(k, actual, length) == None
        invariant forall j :: 0 <= j < i ==> fresh(made[j]) && fresh(made[j].content)
        invariant forall j, k :: 0 <= j < k < i ==> made[j] != made[k] && made[j].content != made[k].content
      {
        var s := new Segment(width, actual, length);
        made := made + [s];
      }
      this.length, this.seed, seg := length, actual, made;
    }

    /** qd_hash_init(): NULL for a size that is no power of two. */
    static method Init(length: nat, width: nat, seed: Bins.Seed, drawn: Bins.Seed) returns (qd: Option<QdHash>)
      requires length > 0 && width > 0
      ensures qd.None? <==> !(Bins.PowerOfTwo(length) && Bins.PowerOfTwo(width))
      ensures qd.Some? ==> qd.value.Valid() && qd.value.length == length && forall k :: qd.value.View(k) == None
    {
      hide Bins.PowerOfTwo, Bins.And, HeldBy, BinId;
      Bins.PowerTest(length);
      Bins.PowerTest(width);
      if Bins.And(length, length - 1) != 0 || Bins.And(width, width - 1) != 0 { return None; }
      var made := new QdHash(length, width, seed, drawn);
      qd := Some(made);
    }

    /** qd_hash_set(); `expandable` is the outcome of the load factor test.  Inserting a
        key that is there already leaves it with two entries. */
    method Set(key: Key, value: Value, insert: bool, expandable: bool) returns (code: nat)
      requires Valid() && key != ZERO
      modifies seg, set s | s in seg :: s.content
      ensures insert && code == 0 && old(View(key)).Some? ==>
                exists bin :: var c := seg[SegId(key, seed, length)].content;
                  && 0 <= bin < c.Length && Entry(key, value) in All(c[bin])
                  && Entry(key, old(View(key)).value) in All(c[bin])
      ensures (insert && code == 0 && old(View(key)).Some?) || Valid()
      ensures !(insert && code == 0 && old(View(key)).Some?) ==>
                && View(key) == (if code == 0 then Some(value) else old(View(key)))
                && forall k :: k != key ==> View(k) == old(View(k))
      ensures !insert ==> (code == 0 <==> old(View(key)).Some?)
      ensures code != 0 ==> var s := seg[SegId(key, seed, length)];
                            && s.width > 0 && s.Valid(seed, length)
                            && (insert ==> s.Crowd(key, seed, length) == 39)
                            && (insert && expandable ==> s.width == 2 * old(s.width))
                            && var b := (Bins.Hash(key, seed) / length) % s.width;
                               (b < 2 <==> code == 3 || code == 7) && (b + 2 >= s.width <==> code == 5 || code == 7)
      ensures code == 0 || code == 1 || code == 3 || code == 5 || code == 7
    {
      hide Bins.PowerOfTwo, BinId, HeldBy, Bins.Home, SegmentOk, All, Failure, Bins.Hash, Segment.Crowd;
      var id := Bins.CompIdx(key, seed, length);
      var ok, bin;
      if insert {
        ok, bin := seg[id].Insert(key, value, expandable, seed, length);
      } else {
        ok, bin := seg[id].Update(key, value, seed, length);
      }
      if ok { return 0; }
      seg[id].FailureIs(key, seed, length);
      code := Failure(bin, seg[id].width);
    }

    /** qd_hash_get(): None for a non-zero return. */
    method Get(key: Key) returns (result: Option<Value>)
      requires Valid() && key != ZERO
      ensures result == View(key)
    {
      hide Bins.PowerOfTwo, BinId, HeldBy, Bins.Home, SegmentOk;
      var id := Bins.CompIdx(key, seed, length);
      result := seg[id].Get(key, seed, length);
    }

    /** qd_hash_del(). */
    method Delete(key: Key) returns (code: nat)
      requires Valid() && key != ZERO
      modifies set s | s in seg :: s.content
      ensures Valid()
      ensures View(key) == None && forall k :: k != key ==> View(k) == old(View(k))
      ensures code == 0 <==> old(View(key)).Some?
    {
      hide Bins.PowerOfTwo, BinId, HeldBy, Bins.Home, SegmentOk;
      var id := Bins.CompIdx(key, seed, length);
      var ok := seg[id].Delete(key, seed, length);
      code := if ok then 0 else 1;
    }

    /** qd_hash_expand() of one segment. */
    method Expand(id: nat)
      requires Valid() && id < length
      modifies seg
      ensures Valid() && forall k :: View(k) == old(View(k))
    {
      hide Bins.PowerOfTwo, BinId, HeldBy, Bins.Home, SegmentOk;
      seg[id].Expand(seed, length);
    }
  }
}
