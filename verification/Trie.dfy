/** The adaptive radix tree of sequential/art.c (node buffers off) as a value: the
    shape of the nodes without their array layouts, and the recursions of
    recursive_insert(), recursive_delete() and art_search() on it. */
module Trie {

  datatype Option<+T> = None | Some(value: T)

  const KEY_LEN := 8

  type Byte = b: nat | b < 256
  type Key = k: seq<Byte> | |k| == KEY_LEN witness [0, 0, 0, 0, 0, 0, 0, 0]
  type Value = v: nat | v < 0x1_0000_0000_0000_0000

  datatype Kind = Node4 | Node16 | Node48 | Node256

  /** A tagged leaf, or a node with its stored prefix and its byte-to-child map. */
  datatype Tree =
    | Leaf(key: Key, value: Value)
    | Inner(kind: Kind, prefix: seq<Byte>, children: map<Byte, Tree>)

  // ------------------------------------------------------------------ shape

  /** How many children each layout holds, with the hysteresis of the shrinks. */
  predicate Holds(kind: Kind, n: nat) {
    match kind
    case Node4 => 2 <= n <= 4
    case Node16 => 4 <= n <= 16
    case Node48 => 13 <= n <= 48
    case Node256 => 38 <= n <= 256
  }

  /** t hangs below `path`: the bytes leading to it are the first bytes of its keys. */
  predicate WF(t: Tree, path: seq<Byte>)
    decreases t
  {
    match t
    case Leaf(key, _) => path <= key
    case Inner(kind, prefix, children) =>
      && |path| + |prefix| < KEY_LEN
      && Holds(kind, |children|)
      && forall b :: b in children ==> WF(children[b], path + prefix + [b])
  }

  // ------------------------------------------------------- sequence idioms

  lemma TakeSnoc<T>(k: seq<T>, d: nat)
    requires d < |k|
    ensures k[..d + 1] == k[..d] + [k[d]]
  {
  }

  lemma SnocPrefix<T>(above: seq<T>, b: T, k: seq<T>)
    requires above + [b] <= k
    ensures above <= k && |above| < |k| && k[|above|] == b
  {
    assert (above + [b])[|above|] == b;
  }

  lemma SlicesJoin<T>(k: seq<T>, d: nat, p: seq<T>)
    requires d + |p| <= |k| && k[d..d + |p|] == p
    ensures k[..d] + p == k[..d + |p|]
  {
  }

  lemma SliceCons<T>(k: seq<T>, d: nat, p: seq<T>, m: nat)
    requires |p| > 0 && m < |p| && d + 1 + m <= |k|
    requires k[d] == p[0] && k[d + 1..d + 1 + m] == p[1..][..m]
    ensures k[d..d + 1 + m] == p[..1 + m]
  {
    assert k[d..d + 1 + m] == [k[d]] + k[d + 1..d + 1 + m];
    assert p[..1 + m] == [p[0]] + p[1..][..m];
  }

  lemma PrefixOfTake<T>(p: seq<T>, k: seq<T>, d: nat)
    requires d <= |p| && p <= k
    ensures p[..d] <= k
  {
  }

  // --------------------------------------------------------------- contents

  ghost function Keys(t: Tree): set<Key> {
    match t
    case Leaf(key, _) => {key}
    case Inner(_, _, children) => set b, k | b in children && k in Keys(children[b]) :: k
  }

  ghost function Get(t: Tree, k: Key): Value
    requires k in Keys(t)
  {
    match t
    case Leaf(_, value) => value
    case Inner(_, _, children) =>
      var b :| b in children && k in Keys(children[b]);
      Get(children[b], k)
  }

  /** The key/value pairs at the leaves, independently of how search finds them. */
  ghost function Contents(t: Tree): map<Key, Value> {
    map k | k in Keys(t) :: Get(t, k)
  }

  lemma {:induction false} KeysBelow(t: Tree, path: seq<Byte>, k: Key)
    requires WF(t, path) && k in Keys(t)
    ensures path <= k
    decreases t
  {
    if t.Inner? {
      var b :| b in t.children && k in Keys(t.children[b]);
      ChildWF(t, path, b);
      KeysBelow(t.children[b], path + t.prefix + [b], k);
      SnocPrefix(path + t.prefix, b, k);
      PrefixOfTake(path + t.prefix, k, |path|);
    }
  }

  ghost function At(m: map<Key, Value>, k: Key): Option<Value> { if k in m then Some(m[k]) else None }

  /** What the leaves of t hold for k. */
  ghost function Has(t: Tree, k: Key): Option<Value> { At(Contents(t), k) }

  /** A node's contents are those of its children, told apart by one byte. */
  lemma InnerHas(t: Tree, path: seq<Byte>, k: Key)
    requires WF(t, path) && t.Inner?
    ensures var d := |path| + |t.prefix|;
            Has(t, k) == if path + t.prefix <= k && k[d] in t.children then Has(t.children[k[d]], k) else None
  {
    InnerShape(t, path);
    InnerKeys(t, path, k);
    if k in Keys(t) { InnerGet(t, path, k); }
    hide Keys, Get, WF;
  }

  lemma InnerKeys(t: Tree, path: seq<Byte>, k: Key)
    requires WF(t, path) && t.Inner? && |path| + |t.prefix| < KEY_LEN
    ensures var d := |path| + |t.prefix|;
            k in Keys(t) <==> path + t.prefix <= k && k[d] in t.children && k in Keys(t.children[k[d]])
  {
    hide WF;
    if k in Keys(t) {
      var b :| b in t.children && k in Keys(t.children[b]);
      KeysUnder(t, path, b, k);
    }
  }

  lemma InnerGet(t: Tree, path: seq<Byte>, k: Key)
    requires WF(t, path) && t.Inner? && |path| + |t.prefix| < KEY_LEN && k in Keys(t)
    ensures var d := |path| + |t.prefix|;
            k[d] in t.children && k in Keys(t.children[k[d]]) && Get(t, k) == Get(t.children[k[d]], k)
  {
    hide WF;
    forall b | b in t.children && k in Keys(t.children[b]) ensures b == k[|path| + |t.prefix|] {
      KeysUnder(t, path, b, k);
    }
  }

  lemma KeysUnder(t: Tree, path: seq<Byte>, b: Byte, k: Key)
    requires WF(t, path) && t.Inner? && b in t.children && k in Keys(t.children[b])
    ensures k[|path| + |t.prefix|] == b && path + t.prefix <= k
  {
    hide Keys, WF;
    ChildWF(t, path, b);
    KeysBelow(t.children[b], path + t.prefix + [b], k);
    SnocPrefix(path + t.prefix, b, k);
  }

  lemma HasBelow(t: Tree, path: seq<Byte>, k: Key)
    requires WF(t, path) && Has(t, k).Some?
    ensures path <= k
  {
    KeysBelow(t, path, k);
  }

  lemma SameContents(t: Tree, m: map<Key, Value>)
    requires forall k :: Has(t, k) == At(m, k)
    ensures Contents(t) == m
  {
    assert forall k :: Has(t, k) == At(m, k) ==> (k in Contents(t) <==> k in m);
  }

  // ------------------------------------------------------------- operations

  /** check_prefix() and prefix_mismatch(): how many bytes of the prefix the key
      shares from depth on.  (Stored prefixes are never cut short, as
      MAX_PREFIX_LEN is KEY_LEN.) */
  function Mismatch(prefix: seq<Byte>, key: Key, depth: nat): (m: nat)
    requires depth + |prefix| <= KEY_LEN
    ensures m <= |prefix|
    ensures key[depth..depth + m] == prefix[..m]
    ensures m < |prefix| ==> prefix[m] != key[depth + m]
  {
    if prefix == [] || prefix[0] != key[depth] then 0
    else
      var m := Mismatch(prefix[1..], key, depth + 1);
      SliceCons(key, depth, prefix, m);
      1 + m
  }

  /** longest_common_prefix() of two different keys. */
  function CommonFrom(k1: Key, k2: Key, depth: nat): (n: nat)
    requires depth <= KEY_LEN && k1[..depth] == k2[..depth] && k1 != k2
    ensures depth + n < KEY_LEN
    ensures k1[..depth + n] == k2[..depth + n] && k1[depth + n] != k2[depth + n]
    decreases KEY_LEN - depth
  {
    assert k1[..KEY_LEN] == k1 && k2[..KEY_LEN] == k2;
    if k1[depth] != k2[depth] then 0
    else
      TakeSnoc(k1, depth);
      TakeSnoc(k2, depth);
      1 + CommonFrom(k1, k2, depth + 1)
  }

  /** The precondition of every recursive call: t lies on the key's own path. */
  predicate OnPath(t: Tree, key: Key, depth: nat) {
    depth <= KEY_LEN && WF(t, key[..depth])
  }

  lemma Descend(t: Tree, key: Key, depth: nat)
    requires OnPath(t, key, depth) && t.Inner? && Mismatch(t.prefix, key, depth) == |t.prefix|
    ensures var d := depth + |t.prefix|;
            && key[..depth] + t.prefix == key[..d]
            && (key[d] in t.children ==> OnPath(t.children[key[d]], key, d + 1))
            && forall b :: b in t.children ==> WF(t.children[b], key[..d] + [b])
  {
    hide WF;
    InnerShape(t, key[..depth]);
    var d := depth + |t.prefix|;
    SlicesJoin(key, depth, t.prefix);
    TakeSnoc(key, d);
    forall b | b in t.children ensures WF(t.children[b], key[..d] + [b]) {
      ChildWF(t, key[..depth], b);
    }
  }

  function Search(t: Tree, key: Key, depth: nat): Option<Value>
    requires OnPath(t, key, depth)
    decreases t
  {
    match t
    case Leaf(k, v) => if k == key then Some(v) else None
    case Inner(_, prefix, children) =>
      if Mismatch(prefix, key, depth) < |prefix| then None
      else
        Descend(t, key, depth);
        var d := depth + |prefix|;
        if key[d] in children then Search(children[key[d]], key, d + 1) else None
  }

  /** add_child(): a full layout grows before it takes the new child. */
  function Grown(kind: Kind, n: nat): Kind {
    if kind.Node4? && n == 4 then Node16
    else if kind.Node16? && n == 16 then Node48
    else if kind.Node48? && n == 48 then Node256
    else kind
  }

  /** remove_child(): the layout for n remaining children. */
  function Shrunk(kind: Kind, n: nat): Kind {
    if kind.Node256? && n == 37 then Node48
    else if kind.Node48? && n == 12 then Node16
    else if kind.Node16? && n == 3 then Node4
    else kind
  }

  function SplitLeaf(t: Tree, key: Key, value: Value, depth: nat): Tree
    requires t.Leaf? && OnPath(t, key, depth) && t.key != key
  {
    var n := CommonFrom(t.key, key, depth);
    Inner(Node4, key[depth..depth + n],
          map[t.key[depth + n] := t, key[depth + n] := Leaf(key, value)])
  }

  function SplitPrefix(t: Tree, key: Key, value: Value, depth: nat): Tree
    requires t.Inner? && OnPath(t, key, depth) && Mismatch(t.prefix, key, depth) < |t.prefix|
  {
    var m := Mismatch(t.prefix, key, depth);
    Inner(Node4, t.prefix[..m],
          map[t.prefix[m] := Inner(t.kind, t.prefix[m + 1..], t.children), key[depth + m] := Leaf(key, value)])
  }

  /** add_child(). */
  function AddLeaf(t: Tree, b: Byte, leaf: Tree): Tree
    requires t.Inner?
  {
    Inner(Grown(t.kind, |t.children|), t.prefix, t.children[b := leaf])
  }

  /** recursive_insert(). */
  function Insert(t: Tree, key: Key, value: Value, depth: nat, replace: bool): Tree
    requires OnPath(t, key, depth)
    decreases t
  {
    match t
    case Leaf(k, v) =>
      if k == key then (if replace then Leaf(k, value) else t)
      else SplitLeaf(t, key, value, depth)
    case Inner(kind, prefix, children) =>
      if Mismatch(prefix, key, depth) < |prefix| then SplitPrefix(t, key, value, depth)
      else
        Descend(t, key, depth);
        var d := depth + |prefix|;
        if key[d] in children then
          t.(children := children[key[d] := Insert(children[key[d]], key, value, d + 1, replace)])
        else
          AddLeaf(t, key[d], Leaf(key, value))
  }

  /** remove_child() on a node whose child for byte b is a leaf. */
  function RemoveChild(t: Tree, b: Byte): Tree
    requires t.Inner? && b in t.children && |t.children| >= 2
  {
    var rest := t.children - {b};
    if t.kind.Node4? && |rest| == 1 then Collapse(t.prefix, rest)
    else Inner(Shrunk(t.kind, |rest|), t.prefix, rest)
  }

  /** A node with one child left is merged into that child. */
  function Collapse(prefix: seq<Byte>, rest: map<Byte, Tree>): Tree
    requires |rest| == 1
  {
    OnlyChild(rest);
    var b :| b in rest;
    match rest[b]
    case Leaf(_, _) => rest[b]
    case Inner(kind, sub, children) => Inner(kind, prefix + [b] + sub, children)
  }

  lemma OnlyChild(rest: map<Byte, Tree>)
    requires |rest| == 1
    ensures exists b :: b in rest
    ensures forall b, c :: b in rest && c in rest ==> b == c
  {
    assert |rest.Keys| == 1;
    var b :| b in rest.Keys;
    assert |rest.Keys - {b}| == 0;
    assert forall c :: c in rest ==> c in rest.Keys && c !in rest.Keys - {b};
  }

  /** recursive_delete() on an inner node: None when there is no such key. */
  function Delete(t: Tree, key: Key, depth: nat): Option<Tree>
    requires t.Inner? && OnPath(t, key, depth)
    decreases t
  {
    if Mismatch(t.prefix, key, depth) < |t.prefix| then None
    else
      Descend(t, key, depth);
      var d := depth + |t.prefix|;
      if key[d] !in t.children then None
      else
        var child := t.children[key[d]];
        match child
        case Leaf(k, _) => if k == key then Some(RemoveChild(t, key[d])) else None
        case Inner(_, _, _) =>
          match Delete(child, key, d + 1)
          case None => None
          case Some(c) => Some(t.(children := t.children[key[d] := c]))
  }

  // -------------------------------------------------------------- searching

  /** art_search() finds exactly what the leaves hold. */
  lemma {:induction false} SearchIsLookup(t: Tree, key: Key, depth: nat)
    requires OnPath(t, key, depth)
    ensures Search(t, key, depth) == At(Contents(t), key)
    decreases t
  {
    hide Contents, WF, Mismatch;
    if t.Leaf? {
      LeafHas(t);
    } else {
      InnerShape(t, key[..depth]);
      InnerHas(t, key[..depth], key);
      if Mismatch(t.prefix, key, depth) < |t.prefix| {
        NotBelow(t, key, depth);
      } else {
        Descend(t, key, depth);
        var d := depth + |t.prefix|;
        if key[d] in t.children { SearchIsLookup(t.children[key[d]], key, d + 1); }
      }
    }
  }

  lemma NotBelow(t: Tree, key: Key, depth: nat)
    requires t.Inner? && OnPath(t, key, depth) && Mismatch(t.prefix, key, depth) < |t.prefix|
    ensures Has(t, key) == None
  {
    InnerHas(t, key[..depth], key);
    var m := Mismatch(t.prefix, key, depth);
    assert (key[..depth] + t.prefix)[depth + m] == t.prefix[m];
  }

  // -------------------------------------------------------------- inserting

  ghost function Stored(m: map<Key, Value>, key: Key, value: Value, replace: bool): map<Key, Value> {
    if key in m && !replace then m else m[key := value]
  }

  /** art_insert() (replace) and art_insert_no_replace(): the tree stays well
      formed, and its contents become the map with the pair stored. */
  lemma {:induction false} InsertIsStore(t: Tree, key: Key, value: Value, depth: nat, replace: bool)
    requires OnPath(t, key, depth)
    ensures OnPath(Insert(t, key, value, depth, replace), key, depth)
    ensures Contents(Insert(t, key, value, depth, replace)) == Stored(Contents(t), key, value, replace)
    decreases t
  {
    hide Contents, WF, Mismatch, CommonFrom, SplitLeaf, SplitPrefix, AddLeaf;
    if t.Leaf? {
      LeafHas(t);
      assert Has(t, key) == At(Contents(t), key);
      if t.key != key {
        SplitLeafStores(t, key, value, depth);
      } else {
        LeafHas(Leaf(key, value));
        LeafOnPath(Leaf(key, value), depth);
      }
    } else {
      InnerShape(t, key[..depth]);
      var d := depth + |t.prefix|;
      if Mismatch(t.prefix, key, depth) < |t.prefix| {
        SplitPrefixStores(t, key, value, depth);
        assert Has(t, key) == At(Contents(t), key);
      } else {
        Descend(t, key, depth);
        if key[d] in t.children {
          var child := t.children[key[d]];
          InsertIsStore(child, key, value, d + 1, replace);
          StoreInChild(t, key, value, depth, replace, Insert(child, key, value, d + 1, replace));
        } else {
          AddLeafStores(t, key, value, depth);
          assert Has(t, key) == At(Contents(t), key);
        }
      }
    }
  }

  lemma LeafHas(t: Tree)
    requires t.Leaf?
    ensures Contents(t) == map[t.key := t.value]
    ensures forall k :: Has(t, k) == if k == t.key then Some(t.value) else None
  {
  }

  lemma WithChild(t: Tree, path: seq<Byte>, kind: Kind, b: Byte, c: Tree)
    requires WF(t, path) && t.Inner? && WF(c, path + t.prefix + [b])
    requires Holds(kind, |t.children[b := c]|)
    ensures WF(Inner(kind, t.prefix, t.children[b := c]), path)
  {
  }

  /** Exchanging the child on the key's path for one that differs from it only at
      the key changes the node's contents only at the key. */
  lemma ReplaceChild(t: Tree, key: Key, depth: nat, c: Tree)
    requires t.Inner? && OnPath(t, key, depth) && Mismatch(t.prefix, key, depth) == |t.prefix|
    requires var d := depth + |t.prefix|; key[d] in t.children && OnPath(c, key, d + 1)
    requires var d := depth + |t.prefix|;
             forall k :: k != key ==> Has(c, k) == Has(t.children[key[d]], k)
    ensures var u := t.(children := t.children[key[depth + |t.prefix|] := c]);
            && OnPath(u, key, depth)
            && Has(u, key) == Has(c, key)
            && (forall k :: k != key ==> Has(u, k) == Has(t, k))
            && Has(t, key) == Has(t.children[key[depth + |t.prefix|]], key)
  {
    hide Contents, Has, Mismatch, WF;
    var d := depth + |t.prefix|;
    var b := key[d];
    var u := t.(children := t.children[b := c]);
    Descend(t, key, depth);
    assert u.children.Keys == t.children.Keys;
    TakeSnoc(key, d);
    InnerShape(t, key[..depth]);
    WithChild(t, key[..depth], t.kind, b, c);
    InnerHas(u, key[..depth], key);
    InnerHas(t, key[..depth], key);
    forall k | k != key ensures Has(u, k) == Has(t, k) {
      InnerHas(t, key[..depth], k);
      InnerHas(u, key[..depth], k);
    }
  }

  lemma InnerShape(t: Tree, path: seq<Byte>)
    requires WF(t, path) && t.Inner?
    ensures Holds(t.kind, |t.children|) && |path| + |t.prefix| < KEY_LEN
  {
  }

  lemma StoreInChild(t: Tree, key: Key, value: Value, depth: nat, replace: bool, c: Tree)
    requires t.Inner? && OnPath(t, key, depth) && Mismatch(t.prefix, key, depth) == |t.prefix|
    requires var d := depth + |t.prefix|;
             && key[d] in t.children && OnPath(c, key, d + 1)
             && Contents(c) == Stored(Contents(t.children[key[d]]), key, value, replace)
    ensures var u := t.(children := t.children[key[depth + |t.prefix|] := c]);
            OnPath(u, key, depth) && Contents(u) == Stored(Contents(t), key, value, replace)
  {
    hide Contents;
    ReplaceChild(t, key, depth, c);
    var u := t.(children := t.children[key[depth + |t.prefix|] := c]);
    assert Has(t, key) == Has(t.children[key[depth + |t.prefix|]], key);
    forall k ensures Has(u, k) == At(Stored(Contents(t), key, value, replace), k) {
      assert k != key ==> Has(u, k) == Has(t, k);
    }
    SameContents(u, Stored(Contents(t), key, value, replace));
  }

  lemma SplitLeafStores(t: Tree, key: Key, value: Value, depth: nat)
    requires t.Leaf? && OnPath(t, key, depth) && t.key != key
    ensures OnPath(SplitLeaf(t, key, value, depth), key, depth)
    ensures Contents(SplitLeaf(t, key, value, depth)) == Contents(t)[key := value]
  {
    hide Contents, Has, WF;
    var u := SplitLeaf(t, key, value, depth);
    var n := CommonFrom(t.key, key, depth);
    var d, leaf := depth + n, Leaf(key, value);
    SlicesJoin(key, depth, u.prefix);
    TakeSnoc(t.key, d);
    TakeSnoc(key, d);
    LeafOnPath(t, d + 1);
    LeafOnPath(leaf, d + 1);
    TwoChildrenWF(u.prefix, key[..depth], t.key[d], t, key[d], leaf);
    LeafHas(t);
    JoinStores(u, key[..depth], t.key[d], t, key[d], leaf);
  }

  lemma JoinStores(u: Tree, path: seq<Byte>, b1: Byte, t1: Tree, b2: Byte, leaf: Tree)
    requires WF(u, path) && u.Inner? && b1 != b2 && u.children == map[b1 := t1, b2 := leaf]
    requires leaf.Leaf? && Has(t1, leaf.key) == None
    ensures Contents(u) == Contents(t1)[leaf.key := leaf.value]
  {
    hide Contents, Has, WF;
    LeafHas(leaf);
    forall k ensures Has(u, k) == if k == leaf.key then Some(leaf.value) else Has(t1, k) {
      JoinHas(u, path, b1, t1, b2, leaf, k);
    }
    OneStored(t1, u, leaf.key, leaf.value);
  }

  lemma SplitPrefixStores(t: Tree, key: Key, value: Value, depth: nat)
    requires t.Inner? && OnPath(t, key, depth) && Mismatch(t.prefix, key, depth) < |t.prefix|
    ensures OnPath(SplitPrefix(t, key, value, depth), key, depth)
    ensures Has(t, key) == None
    ensures Contents(SplitPrefix(t, key, value, depth)) == Contents(t)[key := value]
  {
    hide Contents, Has, WF, Mismatch;
    InnerShape(t, key[..depth]);
    var m := Mismatch(t.prefix, key, depth);
    var low, leaf := Inner(t.kind, t.prefix[m + 1..], t.children), Leaf(key, value);
    SplitPrefixWF(t, key, value, depth);
    NotBelow(t, key, depth);
    LowerHalf(t, key, depth);
    JoinStores(SplitPrefix(t, key, value, depth), key[..depth], t.prefix[m], low, key[depth + m], leaf);
  }

  lemma SplitPrefixWF(t: Tree, key: Key, value: Value, depth: nat)
    requires t.Inner? && OnPath(t, key, depth) && Mismatch(t.prefix, key, depth) < |t.prefix|
    ensures OnPath(SplitPrefix(t, key, value, depth), key, depth)
  {
    hide Contents, Has, WF, Mismatch;
    InnerShape(t, key[..depth]);
    var m := Mismatch(t.prefix, key, depth);
    var d, leaf := depth + m, Leaf(key, value);
    SlicesJoin(key, depth, t.prefix[..m]);
    TakeSnoc(key, d);
    LowerHalf(t, key, depth);
    LeafOnPath(leaf, d + 1);
    TwoChildrenWF(t.prefix[..m], key[..depth], t.prefix[m], Inner(t.kind, t.prefix[m + 1..], t.children), key[d], leaf);
  }

  lemma OneStored(t: Tree, u: Tree, key: Key, value: Value)
    requires forall k :: Has(u, k) == if k == key then Some(value) else Has(t, k)
    ensures Contents(u) == Contents(t)[key := value]
  {
    hide Contents;
    forall k ensures Has(u, k) == At(Contents(t)[key := value], k) {
      assert Has(t, k) == At(Contents(t), k);
    }
    SameContents(u, Contents(t)[key := value]);
  }

  lemma TwoChildrenWF(prefix: seq<Byte>, path: seq<Byte>, b1: Byte, t1: Tree, b2: Byte, t2: Tree)
    requires b1 != b2 && |path| + |prefix| < KEY_LEN
    requires WF(t1, path + prefix + [b1]) && WF(t2, path + prefix + [b2])
    ensures WF(Inner(Node4, prefix, map[b1 := t1, b2 := t2]), path)
  {
    TwoChildren(b1, t1, b2, t2);
  }

  /** A node with two children holds what the one or the other does. */
  lemma JoinHas(u: Tree, path: seq<Byte>, b1: Byte, t1: Tree, b2: Byte, t2: Tree, k: Key)
    requires WF(u, path) && u.Inner? && b1 != b2 && u.children == map[b1 := t1, b2 := t2]
    ensures Has(u, k) == if Has(t1, k).Some? then Has(t1, k) else Has(t2, k)
  {
    hide Contents, Has, WF;
    InnerShape(u, path);
    InnerHas(u, path, k);
    assert u.children[b1] == t1 && u.children[b2] == t2;
    if Has(t1, k).Some? { ChildByte(u, path, b1, k); }
    if Has(t2, k).Some? { ChildByte(u, path, b2, k); }
  }

  lemma ChildByte(t: Tree, path: seq<Byte>, b: Byte, k: Key)
    requires WF(t, path) && t.Inner? && b in t.children && Has(t.children[b], k).Some?
    ensures |path| + |t.prefix| < KEY_LEN && path + t.prefix <= k && k[|path| + |t.prefix|] == b
  {
    hide Contents, Has, WF;
    ChildWF(t, path, b);
    BranchByte(t.children[b], path + t.prefix, b, k);
  }

  lemma BranchByte(t: Tree, above: seq<Byte>, b: Byte, k: Key)
    requires WF(t, above + [b]) && Has(t, k).Some? && |above| < KEY_LEN
    ensures above <= k && k[|above|] == b
  {
    hide Has, Contents, WF;
    HasBelow(t, above + [b], k);
    SnocPrefix(above, b, k);
  }

  lemma BranchHas(t: Tree, path: seq<Byte>, b: Byte, k: Key)
    requires WF(t, path) && t.Inner? && b in t.children && Has(t.children[b], k).Some?
    ensures path + t.prefix <= k && k[|path| + |t.prefix|] == b && Has(t, k) == Has(t.children[b], k)
  {
    hide Contents, Has, WF;
    ChildByte(t, path, b, k);
    InnerHas(t, path, k);
  }

  lemma ChildWF(t: Tree, path: seq<Byte>, b: Byte)
    requires WF(t, path) && t.Inner? && b in t.children
    ensures WF(t.children[b], path + t.prefix + [b]) && |path| + |t.prefix| < KEY_LEN
  {
  }

  /** The old node, its prefix cut after the byte that did not match, holds what it held. */
  lemma LowerHalf(t: Tree, key: Key, depth: nat)
    requires t.Inner? && OnPath(t, key, depth) && Mismatch(t.prefix, key, depth) < |t.prefix|
    ensures var m := Mismatch(t.prefix, key, depth);
            var low := Inner(t.kind, t.prefix[m + 1..], t.children);
            && WF(low, key[..depth + m] + [t.prefix[m]])
            && Contents(low) == Contents(t) && forall k :: Has(low, k) == Has(t, k)
  {
    InnerShape(t, key[..depth]);
    hide Contents, Has, Mismatch, WF;
    var m := Mismatch(t.prefix, key, depth);
    var low := Inner(t.kind, t.prefix[m + 1..], t.children);
    var more := t.prefix[..m + 1];
    TakeSnoc(t.prefix, m);
    SlicesJoin(key, depth, t.prefix[..m]);
    assert key[..depth] + (t.prefix[..m] + [t.prefix[m]]) == key[..depth] + t.prefix[..m] + [t.prefix[m]];
    assert more + low.prefix == t.prefix;
    SamePath(low, t, more, key[..depth]);
    forall k ensures Has(low, k) == Has(t, k) { SameHas(low, t, more, key[..depth], k); }
    SameHasSameContents(low, t);
  }

  lemma SameHasSameContents(t: Tree, u: Tree)
    requires forall k :: Has(t, k) == Has(u, k)
    ensures Contents(t) == Contents(u)
  {
    hide Contents;
    forall k ensures Has(t, k) == At(Contents(u), k) { assert Has(u, k) == At(Contents(u), k); }
    SameContents(t, Contents(u));
  }

  /** Moving bytes of the path into the stored prefix, or back, changes nothing else. */
  lemma SamePath(low: Tree, t: Tree, more: seq<Byte>, path: seq<Byte>)
    requires low.Inner? && t == Inner(low.kind, more + low.prefix, low.children)
    ensures WF(low, path + more) <==> WF(t, path)
  {
    assert path + (more + low.prefix) == path + more + low.prefix;
  }

  lemma SameHas(low: Tree, t: Tree, more: seq<Byte>, path: seq<Byte>, k: Key)
    requires low.Inner? && t == Inner(low.kind, more + low.prefix, low.children)
    requires WF(low, path + more) && WF(t, path)
    ensures Has(low, k) == Has(t, k)
  {
    hide Contents, Has, WF;
    assert path + (more + low.prefix) == path + more + low.prefix;
    InnerHas(t, path, k);
    InnerHas(low, path + more, k);
  }

  lemma TwoChildren(b1: Byte, t1: Tree, b2: Byte, t2: Tree)
    requires b1 != b2
    ensures |map[b1 := t1, b2 := t2]| == 2
  {
    assert map[b1 := t1, b2 := t2].Keys == {b1, b2};
  }

  lemma AddLeafStores(t: Tree, key: Key, value: Value, depth: nat)
    requires t.Inner? && OnPath(t, key, depth) && Mismatch(t.prefix, key, depth) == |t.prefix|
    requires key[depth + |t.prefix|] !in t.children
    ensures var u := AddLeaf(t, key[depth + |t.prefix|], Leaf(key, value));
            OnPath(u, key, depth) && Has(t, key) == None && Contents(u) == Contents(t)[key := value]
  {
    hide Contents, Mismatch, WF, Has;
    var d := depth + |t.prefix|;
    var leaf := Leaf(key, value);
    InnerShape(t, key[..depth]);
    var u := AddLeaf(t, key[d], leaf);
    Descend(t, key, depth);
    BytesBound(t.children, key[d]);
    assert u.children.Keys == t.children.Keys + {key[d]};
    TakeSnoc(key, d);
    LeafOnPath(leaf, d + 1);
    WithChild(t, key[..depth], u.kind, key[d], leaf);
    InnerHas(t, key[..depth], key);
    AddHas(t, u, leaf, key[..depth]);
    SameContents(u, Contents(t)[key := value]);
  }

  lemma LeafOnPath(leaf: Tree, d: nat)
    requires leaf.Leaf? && d <= KEY_LEN
    ensures WF(leaf, leaf.key[..d])
  {
  }

  lemma AddHas(t: Tree, u: Tree, leaf: Tree, path: seq<Byte>)
    requires WF(t, path) && WF(u, path) && t.Inner? && u.Inner? && leaf.Leaf? && u.prefix == t.prefix
    requires path + t.prefix <= leaf.key && |path| + |t.prefix| < KEY_LEN
    requires leaf.key[|path| + |t.prefix|] !in t.children
    requires u.children == t.children[leaf.key[|path| + |t.prefix|] := leaf]
    ensures forall k :: Has(u, k) == At(Contents(t)[leaf.key := leaf.value], k)
  {
    hide Contents, WF;
    LeafHas(leaf);
    forall k ensures Has(u, k) == At(Contents(t)[leaf.key := leaf.value], k) {
      InnerHas(u, path, k);
      InnerHas(t, path, k);
      assert Has(t, k) == At(Contents(t), k);
    }
  }

  /** There are 256 bytes. */
  lemma BytesBound(children: map<Byte, Tree>, b: Byte)
    requires b !in children
    ensures |children| < 256
  {
    var all := Bytes(256);
    assert children.Keys <= all - {b};
    Subset(children.Keys, all - {b});
  }

  ghost function Bytes(n: nat): (s: set<Byte>)
    requires n <= 256
    ensures |s| == n && forall b: Byte :: b in s <==> b < n
  {
    if n == 0 then {} else var b: Byte := n - 1; Bytes(n - 1) + {b}
  }

  lemma {:induction false} Subset<T>(a: set<T>, b: set<T>)
    requires a <= b
    ensures |a| <= |b|
  {
    if a != {} {
      var x :| x in a;
      Subset(a - {x}, b - {x});
    }
  }

  // --------------------------------------------------------------- deleting

  /** recursive_delete() below the root: it reports a key exactly when the tree has
      it, and what it leaves is well formed and holds everything else. */
  lemma {:induction false} DeleteIsRemoval(t: Tree, key: Key, depth: nat)
    requires t.Inner? && OnPath(t, key, depth)
    ensures Delete(t, key, depth).None? <==> key !in Contents(t)
    ensures Delete(t, key, depth).Some? ==>
              var u := Delete(t, key, depth).value;
              OnPath(u, key, depth) && Contents(u) == Contents(t) - {key}
    decreases t
  {
    hide Contents, WF, Mismatch, RemoveChild;
    InnerShape(t, key[..depth]);
    InnerHas(t, key[..depth], key);
    if Mismatch(t.prefix, key, depth) < |t.prefix| {
      NotBelow(t, key, depth);
    } else {
      Descend(t, key, depth);
      var d := depth + |t.prefix|;
      if key[d] in t.children {
        var child := t.children[key[d]];
        assert Has(child, key) == At(Contents(child), key);
        if child.Leaf? {
          LeafHas(child);
          if child.key == key { RemoveChildRemoves(t, key, depth); }
        } else {
          DeleteIsRemoval(child, key, d + 1);
          if Delete(child, key, d + 1).Some? {
            RemoveInChild(t, key, depth, Delete(child, key, d + 1).value);
          }
        }
      }
    }
  }

  lemma RemoveInChild(t: Tree, key: Key, depth: nat, c: Tree)
    requires t.Inner? && OnPath(t, key, depth) && Mismatch(t.prefix, key, depth) == |t.prefix|
    requires var d := depth + |t.prefix|;
             key[d] in t.children && OnPath(c, key, d + 1) && Contents(c) == Contents(t.children[key[d]]) - {key}
    ensures var u := t.(children := t.children[key[depth + |t.prefix|] := c]);
            OnPath(u, key, depth) && Contents(u) == Contents(t) - {key}
  {
    hide Contents;
    ReplaceChild(t, key, depth, c);
    var u := t.(children := t.children[key[depth + |t.prefix|] := c]);
    forall k ensures Has(u, k) == At(Contents(t) - {key}, k) {
      assert k != key ==> Has(u, k) == Has(t, k);
    }
    SameContents(u, Contents(t) - {key});
  }

  lemma RemoveChildRemoves(t: Tree, key: Key, depth: nat)
    requires t.Inner? && OnPath(t, key, depth) && Mismatch(t.prefix, key, depth) == |t.prefix|
    requires var d := depth + |t.prefix|;
             key[d] in t.children && t.children[key[d]].Leaf? && t.children[key[d]].key == key
    ensures var u := RemoveChild(t, key[depth + |t.prefix|]);
            OnPath(u, key, depth) && Contents(u) == Contents(t) - {key}
  {
    hide Contents, Mismatch, WF, Has;
    var path := key[..depth];
    InnerShape(t, path);
    var b := key[depth + |t.prefix|];
    Descend(t, key, depth);
    LeafHas(t.children[b]);
    var rest := t.children - {b};
    assert rest.Keys == t.children.Keys - {b};
    var u := RemoveChild(t, b);
    if t.kind.Node4? && |rest| == 1 {
      CollapseHas(t, path, b, rest);
    } else {
      WithoutChild(t, path, u.kind, b);
      forall k ensures Has(u, k) == if k == key then None else Has(t, k) {
        InnerHas(u, path, k);
        InnerHas(t, path, k);
      }
    }
    OneGone(t, u, key);
  }

  lemma OneGone(t: Tree, u: Tree, key: Key)
    requires forall k :: Has(u, k) == if k == key then None else Has(t, k)
    ensures Contents(u) == Contents(t) - {key}
  {
    hide Contents;
    forall k ensures Has(u, k) == At(Contents(t) - {key}, k) {
      assert Has(t, k) == At(Contents(t), k);
    }
    SameContents(u, Contents(t) - {key});
  }

  lemma WithoutChild(t: Tree, path: seq<Byte>, kind: Kind, b: Byte)
    requires WF(t, path) && t.Inner? && b in t.children
    requires Holds(kind, |t.children - {b}|)
    ensures WF(Inner(kind, t.prefix, t.children - {b}), path)
  {
  }

  /** Merging a node into its one remaining child: the node's prefix, the branch
      byte and the child's prefix make up the new prefix. */
  lemma CollapseHas(t: Tree, path: seq<Byte>, b: Byte, rest: map<Byte, Tree>)
    requires t.Inner? && WF(t, path) && b in t.children && t.children[b].Leaf?
    requires rest == t.children - {b} && |rest| == 1
    ensures var u := Collapse(t.prefix, rest);
            && WF(u, path)
            && forall k :: Has(u, k) == if k == t.children[b].key then None else Has(t, k)
  {
    hide Contents, Has;
    OnlyChild(rest);
    var a :| a in rest;
    var child, leaf := rest[a], t.children[b];
    LeafHas(leaf);
    var u := Collapse(t.prefix, rest);
    assert WF(child, path + t.prefix + [a]);
    assert path + (t.prefix + [a]) == path + t.prefix + [a];
    SameBelow(child, u, t.prefix + [a], path);
    forall k ensures Has(u, k) == if k == leaf.key then None else Has(t, k) {
      InnerHas(t, path, k);
      var d := |path| + |t.prefix|;
      assert (path + t.prefix + [b])[d] == b && (path + t.prefix + [a])[d] == a;
      assert leaf.key[d] == b;
      if Has(u, k).Some? { HasBelow(child, path + t.prefix + [a], k); }
      assert k[d] in t.children ==> k[d] == a || k[d] == b by {
        if k[d] in t.children && k[d] != b { assert k[d] in rest; }
      }
    }
  }

  lemma SameBelow(child: Tree, u: Tree, more: seq<Byte>, path: seq<Byte>)
    requires WF(child, path + more)
    requires match child
             case Leaf(_, _) => u == child
             case Inner(kind, sub, children) => u == Inner(kind, more + sub, children)
    ensures WF(u, path) && forall k :: Has(u, k) == Has(child, k)
  {
    hide Contents, Has;
    if child.Inner? {
      SamePath(child, u, more, path);
      forall k ensures Has(u, k) == Has(child, k) { SameHas(child, u, more, path, k); }
    } else {
      assert path <= path + more <= child.key;
    }
  }
}
