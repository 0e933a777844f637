/** art_search(), recursive_insert() and recursive_delete() on linked nodes, each shown
    to do to the heap what the functions of module Trie do to a tree. */
module ArtHeap {
  import opened Trie
  import opened Layout
  import opened ArtNode

  ghost function Union(sub: map<Byte, set<object>>): set<object> {
    set b, o | b in sub && o in sub[b] :: o
  }

  /** p is the root of a linked structure that represents t and lies within fp. */
  ghost predicate Rep(p: Ref, t: Tree, fp: set<object>)
    reads fp
    decreases t, 1
  {
    match p
    case LeafRef(l) => l in fp && t.Leaf? && l.key == t.key && l.value == t.value
    case NodeRef(n) =>
      && t.Inner? && n.Own() <= fp && n.Sound() && n.kind == t.kind && n.Prefix() == t.prefix
      && Union(n.sub) <= fp && Union(n.sub) !! n.Own()
      && Kids(View(n.L()), t, n.sub)
  }

  /** The structures below the children of a node, which share nothing. */
  ghost predicate Kids(view: map<Byte, Ref>, t: Tree, sub: map<Byte, set<object>>)
    requires t.Inner?
    reads Union(sub)
    decreases t, 0
  {
    && view.Keys == t.children.Keys && sub.Keys == t.children.Keys
    && (forall b, c :: b in sub && c in sub && b != c ==> sub[b] !! sub[c])
    && forall b :: b in t.children ==> sub[b] <= Union(sub) && Rep(view[b], t.children[b], sub[b])
  }

  lemma KidsAt(view: map<Byte, Ref>, t: Tree, sub: map<Byte, set<object>>, b: Byte)
    requires t.Inner? && Kids(view, t, sub) && b in t.children
    ensures b in view && b in sub && Rep(view[b], t.children[b], sub[b]) && sub[b] <= Union(sub)
  {
  }

  /** One child exchanged or added. */
  lemma KidsWith(view: map<Byte, Ref>, t: Tree, sub: map<Byte, set<object>>, kind: Kind,
                 b: Byte, c: Ref, u: Tree, up: set<object>)
    requires t.Inner? && Kids(view, t, sub)
    requires Rep(c, u, up) && forall a :: a in sub && a != b ==> sub[a] !! up
    ensures Kids(view[b := c], Inner(kind, t.prefix, t.children[b := u]), sub[b := up])
    ensures Union(sub[b := up]) <= Union(sub) + up
  {
    hide Rep, Union;
    var sub', t' := sub[b := up], Inner(kind, t.prefix, t.children[b := u]);
    UnionWith(sub, b, up);
    assert t'.children.Keys == t.children.Keys + {b} && sub'.Keys == sub.Keys + {b};
    assert view[b := c].Keys == view.Keys + {b};
    forall a | a in t'.children
      ensures sub'[a] <= Union(sub') && Rep(view[b := c][a], t'.children[a], sub'[a])
    {
      InUnion(sub', a);
      if a != b { KidsAt(view, t, sub, a); }
    }
  }

  lemma InUnion(sub: map<Byte, set<object>>, a: Byte)
    requires a in sub
    ensures sub[a] <= Union(sub)
  {
  }

  lemma UnionWith(sub: map<Byte, set<object>>, b: Byte, up: set<object>)
    ensures Union(sub[b := up]) <= Union(sub) + up
  {
  }

  /** One child removed. */
  lemma KidsWithout(view: map<Byte, Ref>, t: Tree, sub: map<Byte, set<object>>, kind: Kind, b: Byte)
    requires t.Inner? && Kids(view, t, sub)
    ensures Kids(view - {b}, Inner(kind, t.prefix, t.children - {b}), sub - {b})
    ensures Union(sub - {b}) <= Union(sub)
  {
    var sub' := sub - {b};
    forall a | a in t.children - {b} ensures sub'[a] <= Union(sub') {
    }
  }

  /** prefix_mismatch() and check_prefix(). */
  method PrefixMismatch(n: NodeObj, key: Key, depth: nat) returns (idx: nat)
    requires n.partialLen <= n.partial.Length && depth + n.partialLen <= KEY_LEN
    ensures idx == Mismatch(n.Prefix(), key, depth)
  {
    hide MismatchFrom;
    var maxCmp := if n.partialLen < KEY_LEN - depth then n.partialLen else KEY_LEN - depth;
    idx := 0;
    ghost var p := n.Prefix();
    MismatchStart(p, key, depth);
    while idx < maxCmp && n.partial[idx] == key[depth + idx]
      invariant 0 <= idx <= maxCmp
      invariant Mismatch(p, key, depth) == idx + MismatchFrom(p, key, depth, idx)
    {
      MismatchStep(p, key, depth, idx);
      idx := idx + 1;
    }
    MismatchStep(p, key, depth, idx);
  }

  ghost function MismatchFrom(p: seq<Byte>, key: Key, depth: nat, i: nat): nat
    requires i <= |p| && depth + |p| <= KEY_LEN
  {
    Mismatch(p[i..], key, depth + i)
  }

  lemma MismatchStart(p: seq<Byte>, key: Key, depth: nat)
    requires depth + |p| <= KEY_LEN
    ensures MismatchFrom(p, key, depth, 0) == Mismatch(p, key, depth)
  {
    assert p[0..] == p;
  }

  lemma MismatchStep(p: seq<Byte>, key: Key, depth: nat, i: nat)
    requires i <= |p| && depth + |p| <= KEY_LEN
    ensures MismatchFrom(p, key, depth, i) ==
            if i == |p| || p[i] != key[depth + i] then 0 else 1 + MismatchFrom(p, key, depth, i + 1)
  {
    if i < |p| { assert p[i..][0] == p[i] && p[i..][1..] == p[i + 1..]; }
  }

  /** longest_common_prefix(). */
  method LongestCommonPrefix(l1: LeafObj, key: Key, depth: nat) returns (idx: nat)
    requires depth <= KEY_LEN && l1.key[..depth] == key[..depth] && l1.key != key
    ensures idx == CommonFrom(l1.key, key, depth)
  {
    var maxCmp := KEY_LEN - depth;
    idx := 0;
    while idx < maxCmp && l1.key[depth + idx] == key[depth + idx]
      invariant 0 <= idx <= maxCmp && l1.key[..depth + idx] == key[..depth + idx]
      invariant CommonFrom(l1.key, key, depth) == idx + CommonFrom(l1.key, key, depth + idx)
    {
      TakeSnoc(l1.key, depth + idx);
      TakeSnoc(key, depth + idx);
      idx := idx + 1;
    }
  }

  /** What the descent needs to know about the node it stands on. */
  lemma NodeFacts(n: NodeObj, t: Tree, fp: set<object>, key: Key, depth: nat)
    requires Rep(NodeRef(n), t, fp) && OnPath(t, key, depth)
    ensures t.Inner? && n.Sound() && n.Prefix() == t.prefix && n.kind == t.kind
    ensures depth + n.partialLen < KEY_LEN && n.partialLen == |t.prefix|
    ensures Holds(n.kind, |View(n.L())|) && |View(n.L())| == |t.children|
  {
    hide Ok, Counted, WF;
    InnerShape(t, key[..depth]);
    assert |View(n.L())| == |View(n.L()).Keys| == |t.children.Keys| == |t.children|;
  }

  lemma ChildFacts(n: NodeObj, t: Tree, fp: set<object>)
    requires Rep(NodeRef(n), t, fp)
    ensures t.Inner? && n.Sound() && View(n.L()).Keys == t.children.Keys == n.sub.Keys
    ensures forall b :: b in t.children ==> Rep(View(n.L())[b], t.children[b], n.sub[b]) && n.sub[b] <= fp
  {
    hide Ok, Counted, View;
  }

  /** One step down: where the key's path continues below n, if it does. */
  method Follow(n: NodeObj, key: Key, depth: nat, ghost t: Tree, ghost fp: set<object>)
    returns (next: Option<Ref>, below: nat, ghost u: Tree, ghost up: set<object>)
    requires Rep(NodeRef(n), t, fp) && OnPath(t, key, depth)
    ensures next.None? ==> Search(t, key, depth) == None
    ensures next.Some? ==>
              && Mismatch(t.prefix, key, depth) == |t.prefix| && below == depth + |t.prefix| + 1 <= KEY_LEN
              && key[below - 1] in t.children && u == t.children[key[below - 1]] && up <= fp
              && Rep(next.value, u, up) && OnPath(u, key, below)
              && Search(t, key, depth) == Search(u, key, below)
              && n.Sound() && key[below - 1] in View(n.L()) && next.value == View(n.L())[key[below - 1]]
              && key[below - 1] in n.sub && up == n.sub[key[below - 1]]
  {
    hide Ok, Counted, View, WF, Mismatch, Rep;
    NodeFacts(n, t, fp, key, depth);
    ChildFacts(n, t, fp);
    u, up, below := t, fp, 0;
    if n.partialLen != 0 {
      var prefixLen := PrefixMismatch(n, key, depth);
      if prefixLen != n.partialLen { return None, 0, t, fp; }
    } else {
      NoPrefix(t.prefix, key, depth);
    }
    var d := depth + n.partialLen;
    Descend(t, key, depth);
    var pos := n.FindChild(key[d]);
    if pos == -1 { return None, 0, t, fp; }
    next := n.children[pos];
    below, u, up := d + 1, t.children[key[d]], n.sub[key[d]];
  }

  lemma NoPrefix(prefix: seq<Byte>, key: Key, depth: nat)
    requires prefix == [] && depth <= KEY_LEN
    ensures Mismatch(prefix, key, depth) == 0
  {
  }

  lemma LeafFacts(l: LeafObj, t: Tree, fp: set<object>)
    requires Rep(LeafRef(l), t, fp)
    ensures t.Leaf? && l.key == t.key && l.value == t.value && l in fp
  {
  }

  /** art_search() below the root. */
  method SearchFrom(root: Ref, key: Key, ghost t0: Tree, ghost fp0: set<object>) returns (result: Option<Value>)
    requires Rep(root, t0, fp0) && OnPath(t0, key, 0)
    ensures result == Search(t0, key, 0)
  {
    var p, depth: nat := root, 0;
    ghost var t, fp := t0, fp0;
    while p.NodeRef?
      invariant Rep(p, t, fp) && OnPath(t, key, depth)
      invariant Search(t, key, depth) == Search(t0, key, 0)
      decreases t
    {
      hide WF, Mismatch, Search, Rep;
      var next;
      ghost var u, up;
      NodeFacts(p.node, t, fp, key, depth);
      next, depth, u, up := Follow(p.node, key, depth, t, fp);
      if next.None? { return None; }
      p, t, fp := next.value, u, up;
    }
    LeafFacts(p.leaf, t, fp);
    hide WF, Mismatch, Rep;
    result := if p.leaf.key == key then Some(p.leaf.value) else None;
  }

  // --------------------------------------------------------------- inserting

  /** A new leaf under a byte that had none. */
  method AttachLeaf(n: NodeObj, key: Key, value: Value, d: nat, ghost t: Tree, ghost fp: set<object>)
    returns (r: NodeObj, ghost fp': set<object>)
    requires d < KEY_LEN && Rep(NodeRef(n), t, fp) && Holds(n.kind, |t.children|) && key[d] !in t.children
    modifies fp
    ensures Rep(NodeRef(r), AddLeaf(t, key[d], Leaf(key, value)), fp') && fresh(fp' - fp)
  {
    hide Ok, Counted, View, Union, Kids, Rep, Holds, Grown;
    var leaf := new LeafObj(key, value);
    AttachFacts(n, t, fp, key, value, key[d], leaf);
    ghost var view, sub, u := View(n.L()), n.sub, AddLeaf(t, key[d], Leaf(key, value));
    r := AttachNode(n, key[d], leaf, view, u, sub[key[d] := {leaf}]);
    fp' := fp + r.Own() + {leaf};
    MakeRep(r, u, fp');
  }

  /** The children of a node with a new leaf among them. */
  lemma AttachFacts(n: NodeObj, t: Tree, fp: set<object>, key: Key, value: Value, b: Byte, leaf: LeafObj)
    requires Rep(NodeRef(n), t, fp) && b !in t.children && leaf.key == key && leaf.value == value && leaf !in fp
    ensures t.Inner? && n.Own() <= fp && n.Sound() && n.kind == t.kind && n.Prefix() == t.prefix
    ensures View(n.L()).Keys == t.children.Keys && |View(n.L())| == |t.children|
    ensures var u, sub := AddLeaf(t, b, Leaf(key, value)), n.sub[b := {leaf}];
            Kids(View(n.L())[b := LeafRef(leaf)], u, sub) && Union(sub) !! n.Own() && Union(sub) <= fp + {leaf}
  {
    hide Ok, Counted, View, Union, Kids, Rep, Grown;
    NodeParts(n, t, fp);
    NodeCount(n, t, fp);
    LeafRep(leaf, key, value);
    KidsAreWithin(n.sub, fp);
    var u := AddLeaf(t, b, Leaf(key, value));
    KidsWith(View(n.L()), t, n.sub, u.kind, b, LeafRef(leaf), Leaf(key, value), {leaf});
  }

  method AttachNode(n: NodeObj, c: Byte, leaf: LeafObj, ghost view: map<Byte, Ref>, ghost u: Tree,
                    ghost sub: map<Byte, set<object>>)
    returns (r: NodeObj)
    requires n.Sound() && view == View(n.L()) && Holds(n.kind, |view|) && c !in view
    requires u.Inner? && Union(sub) !! n.Own() && Kids(view[c := LeafRef(leaf)], u, sub)
    modifies n`numChildren, n`sub, n.keys, n.children
    ensures r.Sound() && View(r.L()) == view[c := LeafRef(leaf)] && r.sub == sub
    ensures Kids(view[c := LeafRef(leaf)], u, sub)
    ensures r.kind == Grown(n.kind, |view|) && r.Prefix() == old(n.Prefix())
    ensures Union(sub) !! r.Own() && (r == n || fresh(r.Own()))
  {
    hide Ok, Counted, View, Kids;
    r := n.AddChild(c, LeafRef(leaf));
    r.sub := sub;
  }

  lemma NodeCount(n: NodeObj, t: Tree, fp: set<object>)
    requires Rep(NodeRef(n), t, fp)
    ensures t.Inner? && View(n.L()).Keys == t.children.Keys && |View(n.L())| == |t.children|
  {
    hide Ok, Counted, View;
    assert |View(n.L())| == |View(n.L()).Keys| == |t.children.Keys| == |t.children|;
  }

  lemma KidsAreWithin(sub: map<Byte, set<object>>, fp: set<object>)
    requires Union(sub) <= fp
    ensures forall a :: a in sub ==> sub[a] <= fp
  {
    forall a | a in sub ensures sub[a] <= fp {
      assert sub[a] <= Union(sub);
    }
  }

  /** A fresh node4 with the given prefix and two children. */
  method Fork(prefix: seq<Byte>, b1: Byte, p1: Ref, ghost t1: Tree, ghost fp1: set<object>,
              b2: Byte, p2: Ref, ghost t2: Tree, ghost fp2: set<object>) returns (u: NodeObj, ghost up: set<object>)
    requires |prefix| <= MAX_PREFIX_LEN && b1 != b2
    requires Rep(p1, t1, fp1) && Rep(p2, t2, fp2) && fp1 !! fp2
    ensures Rep(NodeRef(u), Inner(Node4, prefix, map[b1 := t1, b2 := t2]), up)
    ensures fresh(u.Own()) && up == fp1 + fp2 + u.Own()
  {
    hide Ok, Counted, View, Rep, Kids, Union;
    u := NewNode4(prefix);
    ghost var empty := Inner(Node4, prefix, map[]);
    NoKids(empty);
    MakeRep(u, empty, u.Own());
    Attach(u, empty, u.Own(), b1, p1, t1, fp1);
    ghost var one := Inner(Node4, prefix, map[b1 := t1]);
    assert map[][b1 := t1] == map[b1 := t1];
    Attach(u, one, u.Own() + fp1, b2, p2, t2, fp2);
    up := u.Own() + fp1 + fp2;
  }

  /** add_child4() on a node with room, for a child of any kind. */
  method Attach(u: NodeObj, ghost t: Tree, ghost fp: set<object>, b: Byte, p: Ref, ghost c: Tree, ghost cp: set<object>)
    requires Rep(NodeRef(u), t, fp) && t.kind.Node4? && |t.children| < 4 && b !in t.children
    requires Rep(p, c, cp) && cp !! fp
    modifies u.Own()
    ensures Rep(NodeRef(u), Inner(Node4, t.prefix, t.children[b := c]), fp + cp)
  {
    hide Ok, Counted, View, Kids, Union;
    NodeCount(u, t, fp);
    u.Counts();
    ghost var view, sub := View(u.L()), u.sub;
    KidsAreWithin(sub, fp);
    var r := u.AddChild4(b, p);
    KidsWith(view, t, sub, Node4, b, p, c, cp);
    u.sub := sub[b := cp];
  }

  lemma MakeRep(n: NodeObj, t: Tree, fp: set<object>)
    requires t.Inner? && n.Own() <= fp && n.Sound() && n.kind == t.kind && n.Prefix() == t.prefix
    requires Union(n.sub) <= fp && Union(n.sub) !! n.Own() && Kids(View(n.L()), t, n.sub)
    ensures Rep(NodeRef(n), t, fp)
  {
  }

  lemma NoKids(t: Tree)
    requires t.Inner? && t.children == map[]
    ensures Kids(map[], t, map[]) && Union(map[]) == {}
  {
  }

  method NewNode4(prefix: seq<Byte>) returns (u: NodeObj)
    requires |prefix| <= MAX_PREFIX_LEN
    ensures fresh(u.Own()) && u.Sound() && u.kind == Node4 && u.Prefix() == prefix
    ensures View(u.L()) == map[] && u.numChildren == 0 && u.sub == map[]
  {
    hide View, Counted;
    u := new NodeObj(Node4);
    u.partialLen := |prefix|;
    forall i | 0 <= i < |prefix| { u.partial[i] := prefix[i]; }
    SmallCounted(u.L());
    assert View(u.L()).Keys == {};
  }

  /** The old node of a prefix split keeps the bytes after the one that differed. */
  method CutPrefix(n: NodeObj, m: nat, ghost t: Tree, ghost fp: set<object>)
    requires Rep(NodeRef(n), t, fp) && m < n.partialLen
    modifies n`partialLen, n.partial
    ensures m < |t.prefix|
    ensures Rep(NodeRef(n), Inner(t.kind, t.prefix[m + 1..], t.children), fp)
  {
    hide Ok, Counted, View, Kids, Union;
    ghost var sub, l := n.sub, n.L();
    ghost var view := View(l);
    forall i | 0 <= i < n.partialLen - (m + 1) { n.partial[i] := n.partial[i + m + 1]; }
    n.partialLen := n.partialLen - (m + 1);
    assert n.Prefix() == t.prefix[m + 1..];
    assert n.L() == l;
    KidsOther(view, t, sub, t.prefix[m + 1..]);
    MakeRep(n, Inner(t.kind, t.prefix[m + 1..], t.children), fp);
  }

  lemma KidsOther(view: map<Byte, Ref>, t: Tree, sub: map<Byte, set<object>>, prefix: seq<Byte>)
    requires t.Inner? && Kids(view, t, sub)
    ensures Kids(view, Inner(t.kind, prefix, t.children), sub)
  {
  }

  /** recursive_insert(): the returned pointer is what is stored through `ref`. */
  method RecursiveInsert(p: Ref, key: Key, value: Value, depth: nat, replace: bool, ghost t: Tree,
                         ghost fp: set<object>)
    returns (r: Ref, existed: bool, ghost fp': set<object>)
    requires Rep(p, t, fp) && OnPath(t, key, depth)
    modifies fp
    ensures Rep(r, Insert(t, key, value, depth, replace), fp') && fresh(fp' - fp)
    ensures existed == Search(t, key, depth).Some?
    decreases t, 2
  {
    match p {
      case LeafRef(l) => r, existed, fp' := InsertAtLeaf(l, key, value, depth, replace, t, fp);
      case NodeRef(n) => r, existed, fp' := InsertAtNode(n, key, value, depth, replace, t, fp);
    }
  }

  method InsertAtLeaf(l: LeafObj, key: Key, value: Value, depth: nat, replace: bool, ghost t: Tree,
                      ghost fp: set<object>)
    returns (r: Ref, existed: bool, ghost fp': set<object>)
    requires Rep(LeafRef(l), t, fp) && OnPath(t, key, depth)
    modifies fp
    ensures Rep(r, Insert(t, key, value, depth, replace), fp') && fresh(fp' - fp)
    ensures existed == Search(t, key, depth).Some?
  {
    hide Ok, Counted, View, Kids, Union, CommonFrom;
    if l.key == key {
      if replace { l.value := value; }
      return LeafRef(l), true, fp;
    }
    var leaf := new LeafObj(key, value);
    var n := LongestCommonPrefix(l, key, depth);
    var u, up := Fork(key[depth..depth + n], l.key[depth + n], LeafRef(l), t, fp,
                      key[depth + n], LeafRef(leaf), Leaf(key, value), {leaf});
    return NodeRef(u), false, up;
  }

  method InsertAtNode(n: NodeObj, key: Key, value: Value, depth: nat, replace: bool, ghost t: Tree,
                      ghost fp: set<object>)
    returns (r: Ref, existed: bool, ghost fp': set<object>)
    requires Rep(NodeRef(n), t, fp) && OnPath(t, key, depth)
    modifies fp
    ensures Rep(r, Insert(t, key, value, depth, replace), fp') && fresh(fp' - fp)
    ensures existed == Search(t, key, depth).Some?
    decreases t, 1
  {
    hide Ok, Counted, View, Kids, Union, Mismatch, WF, Rep, SplitPrefix, AddLeaf, Insert, Search, OnPath;
    NodeFacts(n, t, fp, key, depth);
    ChildFacts(n, t, fp);
    InsertUnfold(t, key, value, depth, replace);
    if n.partialLen != 0 {
      var prefixDiff := PrefixMismatch(n, key, depth);
      if prefixDiff < n.partialLen {
        r, fp' := SplitAtPrefix(n, key, value, depth, prefixDiff, t, fp);
        return r, false, fp';
      }
    } else {
      NoPrefix(t.prefix, key, depth);
    }
    var d := depth + n.partialLen;
    Descend(t, key, depth);
    var pos := n.FindChild(key[d]);
    if pos == -1 {
      var leafed;
      leafed, fp' := AttachLeaf(n, key, value, d, t, fp);
      return NodeRef(leafed), false, fp';
    }
    existed, fp' := InsertBelow(n, key, value, d, pos, replace, t, fp);
    r := NodeRef(n);
  }

  lemma InsertUnfold(t: Tree, key: Key, value: Value, depth: nat, replace: bool)
    requires t.Inner? && OnPath(t, key, depth)
    ensures Mismatch(t.prefix, key, depth) < |t.prefix| ==>
              && Insert(t, key, value, depth, replace) == SplitPrefix(t, key, value, depth)
              && Search(t, key, depth) == None
    ensures Mismatch(t.prefix, key, depth) == |t.prefix| ==>
              var d := depth + |t.prefix|;
              d < KEY_LEN &&
              if key[d] in t.children then
                && OnPath(t.children[key[d]], key, d + 1)
                && Insert(t, key, value, depth, replace) ==
                     t.(children := t.children[key[d] := Insert(t.children[key[d]], key, value, d + 1, replace)])
                && Search(t, key, depth) == Search(t.children[key[d]], key, d + 1)
              else
                && Insert(t, key, value, depth, replace) == AddLeaf(t, key[d], Leaf(key, value))
                && Search(t, key, depth) == None
  {
    hide WF, Mismatch, SplitPrefix, AddLeaf;
    InnerShape(t, key[..depth]);
    if Mismatch(t.prefix, key, depth) == |t.prefix| { Descend(t, key, depth); }
  }

  lemma LeafRep(l: LeafObj, key: Key, value: Value)
    requires l.key == key && l.value == value
    ensures Rep(LeafRef(l), Leaf(key, value), {l})
  {
  }

  method SplitAtPrefix(n: NodeObj, key: Key, value: Value, depth: nat, m: nat, ghost t: Tree, ghost fp: set<object>)
    returns (r: Ref, ghost fp': set<object>)
    requires Rep(NodeRef(n), t, fp) && OnPath(t, key, depth) && t.Inner?
    requires m == Mismatch(t.prefix, key, depth) < |t.prefix| == n.partialLen && n.partial.Length == MAX_PREFIX_LEN
    modifies fp
    ensures Rep(r, SplitPrefix(t, key, value, depth), fp') && fresh(fp' - fp)
  {
    hide Ok, Counted, View, Kids, Union, Mismatch, WF, Rep;
    InnerShape(t, key[..depth]);
    NodeParts(n, t, fp);
    var leaf := new LeafObj(key, value);
    LeafRep(leaf, key, value);
    var b, upper := n.partial[m], n.partial[..m];
    assert upper == n.Prefix()[..m] && b == n.Prefix()[m];
    CutPrefix(n, m, t, fp);
    ghost var low := Inner(t.kind, t.prefix[m + 1..], t.children);
    var u, up := Fork(upper, b, NodeRef(n), low, fp, key[depth + m], LeafRef(leaf), Leaf(key, value), {leaf});
    return NodeRef(u), up;
  }

  method InsertBelow(n: NodeObj, key: Key, value: Value, d: nat, pos: nat, replace: bool, ghost t: Tree,
                     ghost fp: set<object>)
    returns (existed: bool, ghost fp': set<object>)
    requires Rep(NodeRef(n), t, fp) && d < KEY_LEN && t.Inner? && key[d] in t.children
    requires n.Sound() && View(n.L()).Keys == t.children.Keys && pos < n.children.Length
    requires n.children[pos] == Some(View(n.L())[key[d]])
    requires Small(n.kind) ==> pos < n.numChildren && n.numChildren <= n.keys.Length && n.keys[pos] == key[d]
    requires n.kind.Node48? ==> n.keys.Length == 256 && n.keys[key[d]] == pos + 1
    requires n.kind.Node256? ==> pos == key[d]
    requires OnPath(t.children[key[d]], key, d + 1)
    modifies fp
    ensures fresh(fp' - fp)
    ensures var b := key[d];
            Rep(NodeRef(n), t.(children := t.children[b := Insert(t.children[b], key, value, d + 1, replace)]), fp')
    ensures existed == Search(t.children[key[d]], key, d + 1).Some?
    decreases t, 0
  {
    hide Ok, Counted, View, Kids, Union, WF, Insert, Search, Rep, OnPath, Mismatch;
    var b := key[d];
    NodeParts(n, t, fp);
    ghost var view, sub, child := View(n.L()), n.sub, t.children[b];
    KidsAt(view, t, sub, b);
    KidsAreWithin(sub, fp);
    KidsApart(view, t, sub, b);
    ghost var others := Inner(t.kind, t.prefix, t.children - {b});
    KidsWithout(view, t, sub, t.kind, b);
    var c;
    ghost var cp;
    c, existed, cp := RecursiveInsert(n.children[pos].value, key, value, d + 1, replace, child, sub[b]);
    fp' := fp + cp;
    Reattach(n, b, pos, c, t, Insert(child, key, value, d + 1, replace), cp, fp');
  }

  /** The child pointer is written back and the node represents its tree again. */
  method Reattach(n: NodeObj, b: Byte, pos: nat, c: Ref, ghost t: Tree, ghost u: Tree, ghost cp: set<object>,
                  ghost fp: set<object>)
    requires n.Sound() && t.Inner? && n.kind == t.kind && n.Prefix() == t.prefix && b in t.children
    requires b in View(n.L()) && pos < n.children.Length && n.children[pos] == Some(View(n.L())[b])
    requires Small(n.kind) ==> pos < n.numChildren && n.numChildren <= n.keys.Length && n.keys[pos] == b
    requires n.kind.Node48? ==> n.keys.Length == 256 && n.keys[b] == pos + 1
    requires n.kind.Node256? ==> pos == b
    requires Kids(View(n.L()) - {b}, Inner(t.kind, t.prefix, t.children - {b}), n.sub - {b})
    requires Union(n.sub - {b}) !! n.Own() && Union(n.sub - {b}) <= fp
    requires Rep(c, u, cp) && cp !! n.Own() && cp <= fp && n.Own() <= fp
    requires forall a :: a in n.sub && a != b ==> n.sub[a] !! cp
    modifies n`sub, n.children
    ensures Rep(NodeRef(n), t.(children := t.children[b := u]), fp)
  {
    hide Ok, Counted, View, Kids, Union, Rep;
    ghost var view, sub := View(n.L()), n.sub;
    n.Repoint(b, pos, c);
    n.sub := sub[b := cp];
    ChildBack(view, t, sub, b, c, u, cp);
    MakeRep(n, t.(children := t.children[b := u]), fp);
  }

  /** A child that was worked on goes back among its siblings. */
  lemma ChildBack(view: map<Byte, Ref>, t: Tree, sub: map<Byte, set<object>>, b: Byte, c: Ref, u: Tree, cp: set<object>)
    requires t.Inner? && b in t.children && Kids(view - {b}, Inner(t.kind, t.prefix, t.children - {b}), sub - {b})
    requires Rep(c, u, cp) && forall a :: a in sub && a != b ==> sub[a] !! cp
    ensures Kids(view[b := c], t.(children := t.children[b := u]), sub[b := cp])
    ensures Union(sub[b := cp]) <= Union(sub - {b}) + cp
  {
    hide Kids, Rep, Union;
    KidsWith(view - {b}, Inner(t.kind, t.prefix, t.children - {b}), sub - {b}, t.kind, b, c, u, cp);
    PutBack(view, b, c);
    PutBack(sub, b, cp);
    PutBack(t.children, b, u);
  }

  lemma NodeParts(n: NodeObj, t: Tree, fp: set<object>)
    requires Rep(NodeRef(n), t, fp)
    ensures t.Inner? && n.Own() <= fp && n.Sound() && n.kind == t.kind && n.Prefix() == t.prefix
    ensures Union(n.sub) <= fp && Union(n.sub) !! n.Own() && Kids(View(n.L()), t, n.sub)
  {
  }

  lemma PutBack<K, V>(m: map<K, V>, k: K, v: V)
    ensures (m - {k})[k := v] == m[k := v]
  {
  }

  lemma KidsApart(view: map<Byte, Ref>, t: Tree, sub: map<Byte, set<object>>, b: Byte)
    requires t.Inner? && Kids(view, t, sub) && b in t.children
    ensures b in sub && (forall a :: a in sub && a != b ==> sub[a] !! sub[b])
    ensures Union(sub - {b}) !! sub[b]
  {
  }

  // ---------------------------------------------------------------- deleting

  /** The last step of remove_child4(): a node with one child left hands its prefix
      and the branch byte to the child, which takes its place. */
  method CollapseNode(n: NodeObj, ghost t: Tree, ghost fp: set<object>, ghost path: seq<Byte>) returns (r: Ref)
    requires Rep(NodeRef(n), t, fp) && t.kind.Node4? && |t.children| == 1 && n.numChildren == 1
    requires |path| + |t.prefix| < KEY_LEN && forall b :: b in t.children ==> WF(t.children[b], path + t.prefix + [b])
    modifies fp
    ensures Rep(r, Collapse(t.prefix, t.children), fp)
  {
    hide Ok, Counted, View, Kids, Union, WF;
    NodeParts(n, t, fp);
    var b: Byte := OnlySlot(n);
    ghost var view, sub := View(n.L()), n.sub;
    OnlyChild(t.children);
    KidsAt(view, t, sub, b);
    KidsAreWithin(sub, fp);
    r := n.children[0].value;
    match r {
      case LeafRef(_) =>
        RepGrows(r, t.children[b], sub[b], fp);
      case NodeRef(child) =>
        MergePrefix(n, b, child, t.prefix, t.children[b], sub[b], path);
        RepGrows(r, Collapse(t.prefix, t.children), sub[b], fp);
    }
  }

  lemma RepGrows(p: Ref, t: Tree, small: set<object>, fp: set<object>)
    requires Rep(p, t, small) && small <= fp
    ensures Rep(p, t, fp)
  {
  }

  /** keys[0] and children[0] of a node with one child. */
  method OnlySlot(n: NodeObj) returns (b: Byte)
    requires n.Sound() && n.kind.Node4? && n.numChildren == 1
    ensures n.keys.Length > 0 && n.children.Length > 0 && b == n.keys[0]
    ensures b in View(n.L()) && n.children[0] == Some(View(n.L())[b])
  {
    hide View, Counted, Child;
    b := n.keys[0];
    SmallChild(n.L(), 0);
    InView(n.L(), b);
  }

  method MergePrefix(n: NodeObj, b: Byte, child: NodeObj, ghost prefix: seq<Byte>, ghost c: Tree,
                     ghost cp: set<object>, ghost path: seq<Byte>)
    requires n.partialLen <= n.partial.Length == MAX_PREFIX_LEN && n.Prefix() == prefix
    requires Rep(NodeRef(child), c, cp) && WF(c, path + prefix + [b])
    requires n !in cp && n.partial !in cp
    modifies n.partial, child`partialLen, child.partial
    ensures c.Inner? && Rep(NodeRef(child), Inner(c.kind, prefix + [b] + c.prefix, c.children), cp)
  {
    hide Ok, Counted, View, Kids, Union, WF;
    InnerShape(c, path + prefix + [b]);
    ghost var l, s := child.L(), c.prefix;
    var k := n.partialLen;
    if k < MAX_PREFIX_LEN {
      n.partial[k] := b;
      k := k + 1;
    }
    if k < MAX_PREFIX_LEN {
      var subPrefix := if child.partialLen < MAX_PREFIX_LEN - k then child.partialLen else MAX_PREFIX_LEN - k;
      forall i | 0 <= i < subPrefix { n.partial[k + i] := child.partial[i]; }
      k := k + subPrefix;
    }
    assert n.partial[..k] == prefix + [b] + s;
    forall i | 0 <= i < k { child.partial[i] := n.partial[i]; }
    child.partialLen := child.partialLen + n.partialLen + 1;
    assert child.Prefix() == prefix + [b] + s;
    assert child.L() == l;
    KidsOther(View(l), c, child.sub, prefix + [b] + s);
    MakeRep(child, Inner(c.kind, prefix + [b] + s, c.children), cp);
  }

  /** remove_child() without the collapse. */
  method Detach(n: NodeObj, c: Byte, pos: nat, ghost t: Tree, ghost fp: set<object>)
    returns (m: NodeObj, ghost fp': set<object>)
    requires Rep(NodeRef(n), t, fp) && t.Inner? && Holds(t.kind, |t.children|) && c in t.children
    requires Small(n.kind) ==> pos < n.numChildren <= n.keys.Length && n.keys[pos] == c
    modifies fp
    ensures fresh(fp' - fp) && m.kind == Shrunk(t.kind, |t.children - {c}|)
    ensures Rep(NodeRef(m), Inner(m.kind, t.prefix, t.children - {c}), fp')
    ensures m.kind.Node4? ==> m.numChildren == |t.children - {c}|
  {
    hide Ok, Counted, View, Kids, Union, WF, Rep;
    NodeParts(n, t, fp);
    NodeCount(n, t, fp);
    ghost var view, sub := View(n.L()), n.sub;
    LessOne(t.children, c);
    KidsWithout(view, t, sub, Shrunk(t.kind, |t.children - {c}|), c);
    KidsAreWithin(sub, fp);
    ghost var u := Inner(Shrunk(t.kind, |t.children - {c}|), t.prefix, t.children - {c});
    m := DetachNode(n, c, pos, view, u, sub - {c});
    fp' := fp + m.Own();
    MakeRep(m, u, fp');
    NodeCount(m, u, fp');
  }

  method DetachNode(n: NodeObj, c: Byte, pos: nat, ghost view: map<Byte, Ref>, ghost u: Tree,
                    ghost sub: map<Byte, set<object>>)
    returns (m: NodeObj)
    requires n.Sound() && view == View(n.L()) && Holds(n.kind, |view|) && c in view
    requires Small(n.kind) ==> pos < n.numChildren <= n.keys.Length && n.keys[pos] == c
    requires u.Inner? && Union(sub) !! n.Own() && Kids(view - {c}, u, sub)
    modifies n`numChildren, n`sub, n.keys, n.children
    ensures m.Sound() && View(m.L()) == view - {c} && m.sub == sub && Kids(view - {c}, u, sub)
    ensures m.kind == Shrunk(n.kind, |view| - 1) && m.Prefix() == old(n.Prefix())
    ensures Union(sub) !! m.Own() && (m == n || fresh(m.Own()))
    ensures m.kind.Node4? ==> m.numChildren == |view - {c}|
  {
    hide Ok, Counted, View, Kids;
    m := n.RemoveChild(c, pos);
    m.sub := sub;
  }

  lemma LessOne(children: map<Byte, Tree>, c: Byte)
    requires c in children
    ensures |children - {c}| == |children| - 1
  {
    assert (children - {c}).Keys == children.Keys - {c};
    assert |children - {c}| == |(children - {c}).Keys|;
  }

  /** remove_child() on a leaf, with the collapse. */
  method DetachLeaf(n: NodeObj, c: Byte, pos: nat, ghost t: Tree, ghost fp: set<object>, ghost path: seq<Byte>)
    returns (r: Ref, ghost fp': set<object>)
    requires Rep(NodeRef(n), t, fp) && t.Inner? && WF(t, path) && c in t.children
    requires Small(n.kind) ==> pos < n.numChildren <= n.keys.Length && n.keys[pos] == c
    modifies fp
    ensures |t.children| >= 2
    ensures Rep(r, RemoveChild(t, c), fp') && fresh(fp' - fp)
  {
    hide Ok, Counted, View, Kids, Union, WF, Rep, Collapse;
    InnerShape(t, path);
    var m;
    m, fp' := Detach(n, c, pos, t, fp);
    r := NodeRef(m);
    if m.kind.Node4? && m.numChildren == 1 {
      OneLeft(t, path, c, m.kind);
      ghost var u := Inner(m.kind, t.prefix, t.children - {c});
      forall b | b in u.children ensures WF(u.children[b], path + u.prefix + [b]) { ChildWF(t, path, b); }
      r := CollapseNode(m, u, fp', path);
    }
  }

  /** Only a node4 is ever left with a single child. */
  lemma OneLeft(t: Tree, path: seq<Byte>, c: Byte, kind: Kind)
    requires WF(t, path) && t.Inner? && c in t.children && |t.children - {c}| == 1
    ensures t.kind.Node4?
  {
    assert (t.children - {c}).Keys == t.children.Keys - {c};
    assert |t.children| == |t.children.Keys| == |t.children.Keys - {c}| + 1 == 2;
  }

  /** recursive_delete() on an inner node. */
  method RecursiveDelete(n: NodeObj, key: Key, depth: nat, ghost t: Tree, ghost fp: set<object>)
    returns (r: Ref, existed: bool, ghost fp': set<object>)
    requires Rep(NodeRef(n), t, fp) && OnPath(t, key, depth)
    modifies fp
    ensures t.Inner? && fresh(fp' - fp)
    ensures existed <==> Delete(t, key, depth).Some?
    ensures Rep(r, if existed then Delete(t, key, depth).value else t, fp')
    decreases t, 1
  {
    hide Ok, Counted, View, Kids, Union, Mismatch, WF, Rep, RemoveChild;
    NodeFacts(n, t, fp, key, depth);
    ChildFacts(n, t, fp);
    r, existed, fp' := NodeRef(n), false, fp;
    if n.partialLen != 0 {
      var prefixLen := PrefixMismatch(n, key, depth);
      if prefixLen != n.partialLen { return; }
    } else {
      NoPrefix(t.prefix, key, depth);
    }
    var d := depth + n.partialLen;
    Descend(t, key, depth);
    var pos := n.FindChild(key[d]);
    if pos == -1 { return; }
    var child := n.children[pos].value;
    match child {
      case LeafRef(l) =>
        LeafFacts(l, t.children[key[d]], n.sub[key[d]]);
        if l.key == key {
          existed := true;
          r, fp' := DetachLeaf(n, key[d], pos, t, fp, key[..depth]);
        }
      case NodeRef(m) =>
        existed, fp' := DeleteBelow(n, m, key, d, pos, t, fp);
        DeleteUnfold(t, key, depth);
    }
  }

  lemma DeleteUnfold(t: Tree, key: Key, depth: nat)
    requires t.Inner? && OnPath(t, key, depth) && Mismatch(t.prefix, key, depth) == |t.prefix|
    requires var d := depth + |t.prefix|;
             && d < KEY_LEN && key[d] in t.children && t.children[key[d]].Inner?
             && OnPath(t.children[key[d]], key, d + 1)
    ensures var d := depth + |t.prefix|;
            Delete(t, key, depth) == match Delete(t.children[key[d]], key, d + 1)
                                     case None => None
                                     case Some(c) => Some(t.(children := t.children[key[d] := c]))
  {
  }

  method DeleteBelow(n: NodeObj, m: NodeObj, key: Key, d: nat, pos: nat, ghost t: Tree, ghost fp: set<object>)
    returns (existed: bool, ghost fp': set<object>)
    requires Rep(NodeRef(n), t, fp) && d < KEY_LEN && t.Inner? && key[d] in t.children
    requires n.Sound() && View(n.L()).Keys == t.children.Keys && pos < n.children.Length
    requires n.children[pos] == Some(View(n.L())[key[d]]) == Some(NodeRef(m))
    requires Small(n.kind) ==> pos < n.numChildren && n.numChildren <= n.keys.Length && n.keys[pos] == key[d]
    requires n.kind.Node48? ==> n.keys.Length == 256 && n.keys[key[d]] == pos + 1
    requires n.kind.Node256? ==> pos == key[d]
    requires OnPath(t.children[key[d]], key, d + 1)
    modifies fp
    ensures fresh(fp' - fp) && t.children[key[d]].Inner?
    ensures existed <==> Delete(t.children[key[d]], key, d + 1).Some?
    ensures var b := key[d];
            var u := if existed then t.(children := t.children[b := Delete(t.children[b], key, d + 1).value]) else t;
            Rep(NodeRef(n), u, fp')
    decreases t, 0
  {
    hide Ok, Counted, View, Kids, Union, WF, Delete, Rep, OnPath, Mismatch;
    var b := key[d];
    NodeParts(n, t, fp);
    ghost var view, sub, child := View(n.L()), n.sub, t.children[b];
    KidsAt(view, t, sub, b);
    KidsAreWithin(sub, fp);
    KidsApart(view, t, sub, b);
    ghost var others := Inner(t.kind, t.prefix, t.children - {b});
    KidsWithout(view, t, sub, t.kind, b);
    var c;
    ghost var cp;
    c, existed, cp := RecursiveDelete(m, key, d + 1, child, sub[b]);
    ghost var u := if existed then Delete(child, key, d + 1).value else child;
    fp' := fp + cp;
    Reattach(n, b, pos, c, t, u, cp, fp');
    if !existed { assert t.children[b := child] == t.children; }
  }
}
