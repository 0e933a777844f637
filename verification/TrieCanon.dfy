/** The compressed trie is determined by the map it stores: prefixes and branch
    bytes do not depend on the history, only the layouts of the nodes do. */
module TrieCanon {
  import opened Trie

  /** A tree without the layouts of its nodes. */
  datatype Skeleton =
    | Tip(key: Key, value: Value)
    | Fork(prefix: seq<Byte>, branches: map<Byte, Skeleton>)

  function Erase(t: Tree): Skeleton {
    match t
    case Leaf(key, value) => Tip(key, value)
    case Inner(_, prefix, children) => Fork(prefix, map b | b in children :: Erase(children[b]))
  }

  lemma {:induction false} SomeKey(t: Tree, path: seq<Byte>) returns (k: Key)
    requires WF(t, path)
    ensures Has(t, k).Some?
    decreases t
  {
    match t
    case Leaf(key, _) =>
      LeafHas(t);
      k := key;
    case Inner(_, prefix, children) =>
      assert children.Keys != {};
      var b :| b in children;
      ChildWF(t, path, b);
      k := SomeKey(children[b], path + prefix + [b]);
      BranchHas(t, path, b, k);
  }

  /** An inner node separates two of its keys right after its prefix. */
  lemma TwoKeys(t: Tree, path: seq<Byte>) returns (k1: Key, k2: Key)
    requires WF(t, path) && t.Inner?
    ensures Has(t, k1).Some? && Has(t, k2).Some?
    ensures path + t.prefix <= k1 && path + t.prefix <= k2
    ensures k1[|path| + |t.prefix|] != k2[|path| + |t.prefix|]
  {
    InnerShape(t, path);
    hide Contents, Has, WF;
    var b1, b2 := TwoBranches(t.children);
    ChildWF(t, path, b1);
    ChildWF(t, path, b2);
    k1 := SomeKey(t.children[b1], path + t.prefix + [b1]);
    k2 := SomeKey(t.children[b2], path + t.prefix + [b2]);
    BranchHas(t, path, b1, k1);
    BranchHas(t, path, b2, k2);
  }

  lemma TwoBranches(children: map<Byte, Tree>) returns (b1: Byte, b2: Byte)
    requires |children| >= 2
    ensures b1 in children && b2 in children && b1 != b2
  {
    assert |children.Keys| >= 2;
    b1 :| b1 in children.Keys;
    assert |children.Keys - {b1}| >= 1;
    b2 :| b2 in children.Keys - {b1};
  }

  ghost predicate SameHas(t1: Tree, t2: Tree) { forall k :: Has(t1, k) == Has(t2, k) }

  /** A longer prefix leaves no room for the branching of the shorter one. */
  lemma PrefixNotLonger(t1: Tree, t2: Tree, path: seq<Byte>)
    requires WF(t1, path) && WF(t2, path) && t1.Inner? && t2.Inner? && SameHas(t1, t2)
    ensures |t2.prefix| <= |t1.prefix|
  {
    hide Contents, Has, WF;
    var k1, k2 := TwoKeys(t1, path);
    InnerShape(t2, path);
    Both(t1, t2, k1);
    Both(t1, t2, k2);
    InnerHas(t2, path, k1);
    InnerHas(t2, path, k2);
    PrefixBytes(path, t2.prefix, k1);
    PrefixBytes(path, t2.prefix, k2);
  }

  lemma Both(t1: Tree, t2: Tree, k: Key)
    requires SameHas(t1, t2)
    ensures Has(t1, k) == Has(t2, k)
  {
  }

  lemma PrefixBytes(path: seq<Byte>, prefix: seq<Byte>, k: Key)
    requires path + prefix <= k
    ensures forall i :: |path| <= i < |path| + |prefix| ==> k[i] == prefix[i - |path|]
  {
    forall i | |path| <= i < |path| + |prefix| ensures k[i] == prefix[i - |path|] {
      assert (path + prefix)[i] == prefix[i - |path|];
    }
  }

  lemma SamePrefix(t1: Tree, t2: Tree, path: seq<Byte>)
    requires WF(t1, path) && WF(t2, path) && t1.Inner? && t2.Inner? && SameHas(t1, t2)
    ensures t1.prefix == t2.prefix
  {
    hide Contents, Has, WF;
    PrefixNotLonger(t1, t2, path);
    PrefixNotLonger(t2, t1, path);
    var k := SomeKey(t1, path);
    InnerHas(t1, path, k);
    InnerHas(t2, path, k);
    assert t1.prefix == (path + t1.prefix)[|path|..] == k[|path|..|path| + |t1.prefix|];
    assert t2.prefix == (path + t2.prefix)[|path|..] == k[|path|..|path| + |t2.prefix|];
  }

  lemma SameBranch(t1: Tree, t2: Tree, path: seq<Byte>, b: Byte, k: Key)
    requires WF(t1, path) && WF(t2, path) && t1.Inner? && t2.Inner? && SameHas(t1, t2)
    requires t1.prefix == t2.prefix && b in t1.children && Has(t1.children[b], k).Some?
    ensures b in t2.children && Has(t2.children[b], k) == Has(t1.children[b], k)
  {
    hide Contents, Has, WF;
    BranchHas(t1, path, b, k);
    Both(t1, t2, k);
    InnerHas(t2, path, k);
  }

  lemma SameBranches(t1: Tree, t2: Tree, path: seq<Byte>, b: Byte)
    requires WF(t1, path) && WF(t2, path) && t1.Inner? && t2.Inner? && SameHas(t1, t2)
    requires t1.prefix == t2.prefix && b in t1.children
    ensures b in t2.children && SameHas(t1.children[b], t2.children[b])
  {
    hide WF;
    ChildWF(t1, path, b);
    var k0 := SomeKey(t1.children[b], path + t1.prefix + [b]);
    SameBranch(t1, t2, path, b, k0);
    forall k ensures Has(t1.children[b], k) == Has(t2.children[b], k) {
      if Has(t1.children[b], k).Some? {
        SameBranch(t1, t2, path, b, k);
      } else if Has(t2.children[b], k).Some? {
        SameBranch(t2, t1, path, b, k);
      }
    }
  }

  lemma LeafIsNotInner(t1: Tree, t2: Tree, path: seq<Byte>)
    requires WF(t1, path) && WF(t2, path) && t1.Leaf? && SameHas(t1, t2)
    ensures t2.Leaf?
  {
    hide Contents, Has, WF;
    LeafHas(t1);
    if t2.Inner? {
      var k1, k2 := TwoKeys(t2, path);
      Both(t1, t2, k1);
      Both(t1, t2, k2);
    }
  }

  /** Canonicity: the same map, the same trie. */
  lemma {:induction false} Canonical(t1: Tree, t2: Tree, path: seq<Byte>)
    requires WF(t1, path) && WF(t2, path) && SameHas(t1, t2)
    ensures Erase(t1) == Erase(t2)
    decreases t1
  {
    hide Contents, Has;
    if t1.Leaf? {
      LeafIsNotInner(t1, t2, path);
      LeafHas(t1);
      LeafHas(t2);
      assert Has(t1, t1.key) == Has(t2, t1.key);
    } else if t2.Leaf? {
      LeafIsNotInner(t2, t1, path);
    } else {
      SamePrefix(t1, t2, path);
      forall b ensures b in t1.children <==> b in t2.children {
        if b in t1.children { SameBranches(t1, t2, path, b); }
        if b in t2.children { SameBranches(t2, t1, path, b); }
      }
      forall b | b in t1.children ensures Erase(t1.children[b]) == Erase(t2.children[b]) {
        SameBranches(t1, t2, path, b);
        Canonical(t1.children[b], t2.children[b], path + t1.prefix + [b]);
      }
    }
  }
}
