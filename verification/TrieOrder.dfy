/** The order in which recursive_iter() visits a tree, and minimum() and maximum(). */
module TrieOrder {
  import opened Trie

  datatype Pair = Pair(key: Key, value: Value)

  /** The order of memcmp() on keys. */
  ghost predicate Less(k1: Key, k2: Key) {
    exists i :: 0 <= i < KEY_LEN && k1[..i] == k2[..i] && k1[i] < k2[i]
  }

  lemma LessIrreflexive(k: Key)
    ensures !Less(k, k)
  {
  }

  lemma LessTransitive(k1: Key, k2: Key, k3: Key)
    requires Less(k1, k2) && Less(k2, k3)
    ensures Less(k1, k3)
  {
    var i :| 0 <= i < KEY_LEN && k1[..i] == k2[..i] && k1[i] < k2[i];
    var j :| 0 <= j < KEY_LEN && k2[..j] == k3[..j] && k2[j] < k3[j];
    var m := if i < j then i else j;
    assert k1[..m] == k1[..i][..m] == k2[..i][..m] == k2[..m] == k2[..j][..m] == k3[..j][..m] == k3[..m];
    assert i < j ==> k2[i] == k2[..j][i] == k3[..j][i] == k3[i];
    assert j < i ==> k1[j] == k1[..i][j] == k2[..i][j] == k2[j];
    assert k1[m] < k3[m];
  }

  /** recursive_iter(): a leaf, or the children in the order of their bytes. */
  function Entries(t: Tree): seq<Pair>
    decreases t, 257
  {
    match t
    case Leaf(key, value) => [Pair(key, value)]
    case Inner(_, _, _) => EntriesFrom(t, 0)
  }

  function EntriesFrom(t: Tree, b: nat): seq<Pair>
    requires t.Inner? && b <= 256
    decreases t, 256 - b
  {
    if b == 256 then []
    else (if b in t.children then Entries(t.children[b]) else []) + EntriesFrom(t, b + 1)
  }

  /** The callback is called on pair after pair until it returns non-zero; S is
      whatever `data` points to. */
  function Fold<S>(entries: seq<Pair>, s: S, cb: (S, Pair) -> (S, int)): (S, int) {
    if entries == [] then (s, 0)
    else
      var (s1, res) := cb(s, entries[0]);
      if res != 0 then (s1, res) else Fold(entries[1..], s1, cb)
  }

  function Iter<S>(t: Tree, s: S, cb: (S, Pair) -> (S, int)): (S, int)
    decreases t, 257
  {
    match t
    case Leaf(key, value) => cb(s, Pair(key, value))
    case Inner(_, _, _) => IterFrom(t, 0, s, cb)
  }

  function IterFrom<S>(t: Tree, b: nat, s: S, cb: (S, Pair) -> (S, int)): (S, int)
    requires t.Inner? && b <= 256
    decreases t, 256 - b
  {
    if b == 256 then (s, 0)
    else if b !in t.children then IterFrom(t, b + 1, s, cb)
    else
      var (s1, res) := Iter(t.children[b], s, cb);
      if res != 0 then (s1, res) else IterFrom(t, b + 1, s1, cb)
  }

  lemma {:induction false} FoldCat<S>(e1: seq<Pair>, e2: seq<Pair>, s: S, cb: (S, Pair) -> (S, int))
    ensures Fold(e1 + e2, s, cb) ==
            (var (s1, res) := Fold(e1, s, cb); if res != 0 then (s1, res) else Fold(e2, s1, cb))
  {
    if e1 == [] {
      assert e1 + e2 == e2;
    } else {
      assert (e1 + e2)[1..] == e1[1..] + e2;
      var (s1, res) := cb(s, e1[0]);
      if res == 0 { FoldCat(e1[1..], e2, s1, cb); }
    }
  }

  /** art_iter() shows the callback the entries, one by one, until it says stop. */
  lemma {:induction false} IterIsFold<S>(t: Tree, s: S, cb: (S, Pair) -> (S, int))
    ensures Iter(t, s, cb) == Fold(Entries(t), s, cb)
    decreases t, 257
  {
    if t.Leaf? {
      var e := Entries(t);
      assert e[1..] == [];
    } else {
      IterFromIsFold(t, 0, s, cb);
    }
  }

  lemma {:induction false} IterFromIsFold<S>(t: Tree, b: nat, s: S, cb: (S, Pair) -> (S, int))
    requires t.Inner? && b <= 256
    ensures IterFrom(t, b, s, cb) == Fold(EntriesFrom(t, b), s, cb)
    decreases t, 256 - b
  {
    if b < 256 {
      if b !in t.children {
        assert EntriesFrom(t, b) == EntriesFrom(t, b + 1);
        IterFromIsFold(t, b + 1, s, cb);
      } else {
        IterIsFold(t.children[b], s, cb);
        FoldCat(Entries(t.children[b]), EntriesFrom(t, b + 1), s, cb);
        IterFromIsFold(t, b + 1, Iter(t.children[b], s, cb).0, cb);
      }
    }
  }

  /** The callback is given one entry after the other, each time with the data the
      call before left; only the last call made can return non-zero, and if it does
      not, every entry has been shown. */
  lemma {:induction false} FoldUnrolls<S>(entries: seq<Pair>, s0: S, cb: (S, Pair) -> (S, int))
    returns (trace: seq<S>)
    ensures 1 <= |trace| <= |entries| + 1 && trace[0] == s0
    ensures forall i :: 0 <= i < |trace| - 1 ==> trace[i + 1] == cb(trace[i], entries[i]).0
    ensures forall i :: 0 <= i < |trace| - 2 ==> cb(trace[i], entries[i]).1 == 0
    ensures var (s, res) := Fold(entries, s0, cb);
            && s == trace[|trace| - 1]
            && res == (if |trace| == 1 then 0 else cb(trace[|trace| - 2], entries[|trace| - 2]).1)
            && (res == 0 ==> |trace| == |entries| + 1)
  {
    if entries == [] { return [s0]; }
    var (s1, res) := cb(s0, entries[0]);
    if res != 0 { return [s0, s1]; }
    var rest := FoldUnrolls(entries[1..], s1, cb);
    trace := [s0] + rest;
    forall i | 0 <= i < |trace| - 1 ensures trace[i + 1] == cb(trace[i], entries[i]).0 {
      if i > 0 { assert rest[i] == cb(rest[i - 1], entries[1..][i - 1]).0; }
    }
    forall i | 0 <= i < |trace| - 2 ensures cb(trace[i], entries[i]).1 == 0 {
      if i > 0 { assert cb(rest[i - 1], entries[1..][i - 1]).1 == 0; }
    }
  }

  ghost predicate Sorted(e: seq<Pair>) {
    forall i, j :: 0 <= i < j < |e| ==> Less(e[i].key, e[j].key)
  }

  /** Every entry is one of the tree's pairs. */
  ghost predicate Stores(t: Tree, e: seq<Pair>) {
    forall i :: 0 <= i < |e| ==> Has(t, e[i].key) == Some(e[i].value)
  }

  lemma BranchLess(above: seq<Byte>, k1: Key, k2: Key)
    requires above <= k1 && above <= k2 && |above| < KEY_LEN && k1[|above|] < k2[|above|]
    ensures Less(k1, k2)
  {
    assert k1[..|above|] == above == k2[..|above|];
  }

  /** The entries come in strictly increasing order of their keys. */
  lemma {:induction false} EntriesSorted(t: Tree, path: seq<Byte>)
    requires WF(t, path)
    ensures Sorted(Entries(t)) && Stores(t, Entries(t))
    decreases t, 257
  {
    hide Contents, Has;
    if t.Leaf? {
      LeafHas(t);
    } else {
      EntriesFromSorted(t, path, 0);
    }
  }

  lemma {:induction false} EntriesFromSorted(t: Tree, path: seq<Byte>, b: nat)
    requires WF(t, path) && t.Inner? && b <= 256
    ensures var e := EntriesFrom(t, b);
            && Sorted(e) && Stores(t, e)
            && forall i :: 0 <= i < |e| ==>
                 path + t.prefix <= e[i].key && |path| + |t.prefix| < KEY_LEN && e[i].key[|path| + |t.prefix|] >= b
    decreases t, 256 - b
  {
    hide Contents, Has, WF, Less;
    InnerShape(t, path);
    if b < 256 {
      EntriesFromSorted(t, path, b + 1);
      if b in t.children {
        var e1, e2 := Entries(t.children[b]), EntriesFrom(t, b + 1);
        ChildWF(t, path, b);
        EntriesSorted(t.children[b], path + t.prefix + [b]);
        forall i | 0 <= i < |e1|
          ensures Has(t, e1[i].key) == Some(e1[i].value)
          ensures path + t.prefix <= e1[i].key && e1[i].key[|path| + |t.prefix|] == b
        {
          BranchHas(t, path, b, e1[i].key);
        }
        forall i, j | 0 <= i < |e1| && 0 <= j < |e2| ensures Less(e1[i].key, e2[j].key) {
          BranchLess(path + t.prefix, e1[i].key, e2[j].key);
        }
        SortedCat(e1, e2);
        assert EntriesFrom(t, b) == e1 + e2;
      } else {
        assert EntriesFrom(t, b) == EntriesFrom(t, b + 1);
      }
    }
  }

  lemma SortedCat(e1: seq<Pair>, e2: seq<Pair>)
    requires Sorted(e1) && Sorted(e2)
    requires forall i, j :: 0 <= i < |e1| && 0 <= j < |e2| ==> Less(e1[i].key, e2[j].key)
    ensures Sorted(e1 + e2)
  {
    hide Less;
  }

  /** No pair of the tree is passed over. */
  lemma {:induction false} EntriesComplete(t: Tree, path: seq<Byte>, k: Key)
    requires WF(t, path) && Has(t, k).Some?
    ensures Pair(k, Has(t, k).value) in Entries(t)
    decreases t
  {
    hide Contents, Has, WF;
    if t.Leaf? {
      LeafHas(t);
    } else {
      InnerShape(t, path);
      InnerHas(t, path, k);
      var b := k[|path| + |t.prefix|];
      ChildWF(t, path, b);
      EntriesComplete(t.children[b], path + t.prefix + [b], k);
      InEntriesFrom(t, 0, b, Pair(k, Has(t, k).value));
    }
  }

  lemma {:induction false} InEntriesFrom(t: Tree, b: nat, c: Byte, p: Pair)
    requires t.Inner? && b <= c && c in t.children && p in Entries(t.children[c])
    ensures p in EntriesFrom(t, b)
    decreases 256 - b
  {
    if b < c { InEntriesFrom(t, b + 1, c, p); }
  }

  /** The whole statement for art_iter(): each stored pair once, in byte order. */
  lemma EntriesAreContents(t: Tree, path: seq<Byte>)
    requires WF(t, path)
    ensures Sorted(Entries(t))
    ensures forall p :: p in Entries(t) <==> Has(t, p.key) == Some(p.value)
    ensures forall i, j :: 0 <= i < j < |Entries(t)| ==> Entries(t)[i].key != Entries(t)[j].key
  {
    hide Contents, Has, WF;
    EntriesSorted(t, path);
    forall p ensures p in Entries(t) <==> Has(t, p.key) == Some(p.value) {
      if Has(t, p.key) == Some(p.value) { EntriesComplete(t, path, p.key); }
    }
    forall i, j | 0 <= i < j < |Entries(t)| ensures Entries(t)[i].key != Entries(t)[j].key {
      LessIrreflexive(Entries(t)[i].key);
    }
  }

  /** Only one order of the stored pairs is sorted: what art_iter() shows depends on
      the map alone. */
  lemma {:induction false} SortedUnique(e1: seq<Pair>, e2: seq<Pair>)
    requires Sorted(e1) && Sorted(e2) && forall p :: p in e1 <==> p in e2
    ensures e1 == e2
    decreases |e1|
  {
    hide Less;
    if e1 == [] || e2 == [] {
      if e1 != [] { var p := SomePair(e1); }
      if e2 != [] { var p := SomePair(e2); }
    } else {
      SameFirst(e1, e2);
      forall p ensures p in e1[1..] <==> p in e2[1..] {
        NotAgain(e1);
        NotAgain(e2);
        assert p in e1 <==> p == e1[0] || p in e1[1..];
        assert p in e2 <==> p == e2[0] || p in e2[1..];
      }
      SortedUnique(e1[1..], e2[1..]);
    }
  }

  lemma SomePair(e: seq<Pair>) returns (p: Pair)
    requires e != []
    ensures p in e
  {
    p := e[0];
  }

  lemma SameFirst(e1: seq<Pair>, e2: seq<Pair>)
    requires Sorted(e1) && Sorted(e2) && (forall p :: p in e1 <==> p in e2) && e1 != [] && e2 != []
    ensures e1[0] == e2[0]
  {
    hide Less;
    assert e1[0] in e2 && e2[0] in e1;
    var i :| 0 <= i < |e1| && e1[i] == e2[0];
    var j :| 0 <= j < |e2| && e2[j] == e1[0];
    LessIrreflexive(e1[0].key);
    if i > 0 && j > 0 { LessTransitive(e1[0].key, e2[0].key, e1[0].key); }
  }

  lemma NotAgain(e: seq<Pair>)
    requires Sorted(e) && e != []
    ensures e[0] !in e[1..]
  {
    hide Less;
    LessIrreflexive(e[0].key);
  }

  // ------------------------------------------------------ minimum and maximum

  function LowByte(children: map<Byte, Tree>, b: Byte): (r: Byte)
    requires exists c :: c in children && b <= c
    ensures r in children && b <= r && forall c :: c in children && b <= c ==> r <= c
    decreases 256 - b
  {
    if b in children then b else LowByte(children, b + 1)
  }

  function HighByte(children: map<Byte, Tree>, b: Byte): (r: Byte)
    requires exists c :: c in children && c <= b
    ensures r in children && r <= b && forall c :: c in children && c <= b ==> c <= r
    decreases b
  {
    if b in children then b else HighByte(children, b - 1)
  }

  function Minimum(t: Tree, path: seq<Byte>): Pair
    requires WF(t, path)
    decreases t
  {
    match t
    case Leaf(key, value) => Pair(key, value)
    case Inner(_, prefix, children) =>
      SomeBranch(children);
      var b := LowByte(children, 0);
      Minimum(children[b], path + prefix + [b])
  }

  function Maximum(t: Tree, path: seq<Byte>): Pair
    requires WF(t, path)
    decreases t
  {
    match t
    case Leaf(key, value) => Pair(key, value)
    case Inner(_, prefix, children) =>
      SomeBranch(children);
      var b := HighByte(children, 255);
      Maximum(children[b], path + prefix + [b])
  }

  lemma SomeBranch(children: map<Byte, Tree>)
    requires |children| > 0
    ensures exists b: Byte :: b in children && 0 <= b && b <= 255
  {
    assert |children.Keys| > 0;
    var b :| b in children.Keys;
    assert b in children && 0 <= b && b <= 255;
  }

  /** art_minimum() is a pair of the tree, and its key is the least. */
  lemma {:induction false} MinimumIsLeast(t: Tree, path: seq<Byte>, k: Key)
    requires WF(t, path)
    ensures Has(t, Minimum(t, path).key) == Some(Minimum(t, path).value)
    ensures Has(t, k).Some? && k != Minimum(t, path).key ==> Less(Minimum(t, path).key, k)
    decreases t
  {
    hide Contents, Has, WF, Less;
    if t.Leaf? {
      LeafHas(t);
    } else {
      InnerShape(t, path);
      SomeBranch(t.children);
      var b := LowByte(t.children, 0);
      ChildWF(t, path, b);
      var below := path + t.prefix + [b];
      MinimumIsLeast(t.children[b], below, k);
      var m := Minimum(t.children[b], below);
      BranchHas(t, path, b, m.key);
      InnerHas(t, path, k);
      if Has(t, k).Some? && k[|path| + |t.prefix|] != b {
        BranchLess(path + t.prefix, m.key, k);
      }
    }
  }

  /** art_maximum() is a pair of the tree, and its key is the greatest. */
  lemma {:induction false} MaximumIsGreatest(t: Tree, path: seq<Byte>, k: Key)
    requires WF(t, path)
    ensures Has(t, Maximum(t, path).key) == Some(Maximum(t, path).value)
    ensures Has(t, k).Some? && k != Maximum(t, path).key ==> Less(k, Maximum(t, path).key)
    decreases t
  {
    hide Contents, Has, WF, Less;
    if t.Leaf? {
      LeafHas(t);
    } else {
      InnerShape(t, path);
      SomeBranch(t.children);
      var b := HighByte(t.children, 255);
      ChildWF(t, path, b);
      var below := path + t.prefix + [b];
      MaximumIsGreatest(t.children[b], below, k);
      var m := Maximum(t.children[b], below);
      BranchHas(t, path, b, m.key);
      InnerHas(t, path, k);
      if Has(t, k).Some? && k[|path| + |t.prefix|] != b {
        BranchLess(path + t.prefix, k, m.key);
      }
    }
  }
}
