/** The remaining walks over linked nodes: art_update(), minimum(), maximum() and
    recursive_iter(). */
module ArtWalk {
  import opened Trie
  import opened TrieOrder
  import opened Layout
  import opened ArtNode
  import opened ArtHeap

  // ---------------------------------------------------------------- updating

  function Without(t: Tree, b: Byte): Tree
    requires t.Inner?
  {
    Inner(t.kind, t.prefix, t.children - {b})
  }

  /** The structure of t except for the value in leaf l, which holds the key: what
      remains true of the heap while that value is overwritten. */
  ghost predicate Hole(p: Ref, t: Tree, fp: set<object>, l: LeafObj, key: Key, depth: nat)
    requires OnPath(t, key, depth)
    reads fp - {l}
    decreases t
  {
    hide Ok, Counted, View, WF, Mismatch, Union, Kids;
    match p
    case LeafRef(q) => q == l && l in fp && t.Leaf? && t.key == l.key == key
    case NodeRef(n) =>
      && Around(n, t, fp, l, key, depth)
      && Hole(View(n.L())[Next(t, key, depth)], t.children[Next(t, key, depth)], n.sub[Next(t, key, depth)],
              l, key, depth + |t.prefix| + 1)
  }

  function Next(t: Tree, key: Key, depth: nat): Byte
    requires t.Inner? && depth + |t.prefix| < KEY_LEN
  {
    key[depth + |t.prefix|]
  }

  /** The node itself and the children off the key's path. */
  ghost predicate Around(n: NodeObj, t: Tree, fp: set<object>, l: LeafObj, key: Key, depth: nat)
    reads fp - {l}
  {
    && t.Inner? && n.Own() <= fp - {l} && n.Sound() && n.kind == t.kind && n.Prefix() == t.prefix
    && Union(n.sub) <= fp && Union(n.sub) !! n.Own()
    && depth + |t.prefix| < KEY_LEN && Mismatch(t.prefix, key, depth) == |t.prefix|
    && var b := Next(t, key, depth);
    && b in t.children && b in n.sub && b in View(n.L()) && OnPath(t.children[b], key, depth + |t.prefix| + 1)
    && l !in Union(n.sub - {b}) && Union(n.sub - {b}) !! n.sub[b]
    && Union(n.sub - {b}) <= fp && n.sub[b] <= fp
    && Kids(View(n.L()) - {b}, Without(t, b), n.sub - {b})
  }

  lemma HoleBelow(n: NodeObj, t: Tree, fp: set<object>, l: LeafObj, key: Key, depth: nat, d: nat,
                  q: Ref, u: Tree, up: set<object>)
    requires OnPath(t, key, depth) && Around(n, t, fp, l, key, depth)
    requires t.Inner? && d == depth + |t.prefix| + 1 <= KEY_LEN && n.Sound()
    requires var b := key[d - 1]; b in t.children && b in View(n.L()) && b in n.sub
                                  && q == View(n.L())[b] && u == t.children[b] && up == n.sub[b]
    requires OnPath(u, key, d) && Hole(q, u, up, l, key, d)
    ensures Hole(NodeRef(n), t, fp, l, key, depth)
  {
    hide Ok, Counted, View, WF, Mismatch, Union, Kids, Around;
  }

  /** With the value in place, the hole is filled. */
  lemma {:induction false} FillHole(p: Ref, t: Tree, fp: set<object>, l: LeafObj, key: Key, value: Value, depth: nat)
    requires OnPath(t, key, depth) && Hole(p, t, fp, l, key, depth) && l.value == value
    ensures Rep(p, Insert(t, key, value, depth, true), fp)
    decreases t
  {
    hide Ok, Counted, View, WF, Mismatch, Union, Kids;
    if p.NodeRef? {
      var n, b := p.node, key[depth + |t.prefix|];
      var view, sub, child := View(n.L()), n.sub, t.children[b];
      FillHole(view[b], child, sub[b], l, key, value, depth + |t.prefix| + 1);
      var u := Insert(child, key, value, depth + |t.prefix| + 1, true);
      Refill(view, t, sub, b, u);
      MakeRep(n, Insert(t, key, value, depth, true), fp);
    }
  }

  /** Putting a child back among its siblings. */
  lemma Refill(view: map<Byte, Ref>, t: Tree, sub: map<Byte, set<object>>, b: Byte, u: Tree)
    requires t.Inner? && b in view && b in sub && Rep(view[b], u, sub[b])
    requires Kids(view - {b}, Without(t, b), sub - {b}) && Union(sub - {b}) !! sub[b]
    ensures Kids(view, t.(children := t.children[b := u]), sub)
  {
    hide Kids, Rep;
    KidsAreWithin(sub - {b}, Union(sub - {b}));
    KidsWith(view - {b}, Without(t, b), sub - {b}, t.kind, b, view[b], u, sub[b]);
    PutBack(view, b, view[b]);
    PutBack(sub, b, sub[b]);
    PutBack(t.children, b, u);
    assert view[b := view[b]] == view && sub[b := sub[b]] == sub;
  }

  /** The leaf at the end of the key's path, whatever its key. */
  ghost function LeafAt(p: Ref, t: Tree, fp: set<object>, key: Key, depth: nat): Option<LeafObj>
    requires Rep(p, t, fp) && OnPath(t, key, depth)
    reads fp
    decreases t
  {
    match p
    case LeafRef(l) => Some(l)
    case NodeRef(n) =>
      if Mismatch(t.prefix, key, depth) < |t.prefix| then None
      else
        Descend(t, key, depth);
        var d := depth + |t.prefix|;
        if key[d] !in t.children then None
        else
          KidsAt(View(n.L()), t, n.sub, key[d]);
          LeafAt(View(n.L())[key[d]], t.children[key[d]], n.sub[key[d]], key, d + 1)
  }

  lemma LeafAtBelow(n: NodeObj, t: Tree, fp: set<object>, key: Key, depth: nat, d: nat,
                    q: Ref, u: Tree, up: set<object>)
    requires Rep(NodeRef(n), t, fp) && OnPath(t, key, depth)
    requires t.Inner? && d == depth + |t.prefix| + 1 <= KEY_LEN && Mismatch(t.prefix, key, depth) == |t.prefix| &&
             n.Sound()
    requires var b := key[d - 1]; b in t.children && b in View(n.L()) && b in n.sub
                                  && q == View(n.L())[b] && u == t.children[b] && up == n.sub[b]
    requires OnPath(u, key, d) && Rep(q, u, up)
    ensures LeafAt(NodeRef(n), t, fp, key, depth) == LeafAt(q, u, up, key, d)
  {
    hide Ok, Counted, View, WF, Mismatch, Union, Kids, Rep;
  }

  lemma LeafEnd(l: LeafObj, t: Tree, fp: set<object>, key: Key, depth: nat)
    requires Rep(LeafRef(l), t, fp) && OnPath(t, key, depth)
    ensures LeafAt(LeafRef(l), t, fp, key, depth) == Some(l)
    ensures Search(t, key, depth) == if l.key == key then Some(l.value) else None
  {
    hide WF;
  }

  /** The key's own leaf leaves a hole in the structure. */
  lemma {:induction false} MakeHole(p: Ref, t: Tree, fp: set<object>, key: Key, depth: nat, l: LeafObj)
    requires Rep(p, t, fp) && OnPath(t, key, depth)
    requires LeafAt(p, t, fp, key, depth) == Some(l) && l.key == key
    ensures Hole(p, t, fp, l, key, depth) && l in fp
    decreases t
  {
    hide Ok, Counted, View, WF, Mismatch, Union, Kids, Around;
    if p.NodeRef? {
      var n := p.node;
      NodeFacts(n, t, fp, key, depth);
      Descend(t, key, depth);
      var b, d := Next(t, key, depth), depth + |t.prefix| + 1;
      KidsAt(View(n.L()), t, n.sub, b);
      var q, u, up := View(n.L())[b], t.children[b], n.sub[b];
      LeafAtBelow(n, t, fp, key, depth, d, q, u, up);
      MakeHole(q, u, up, key, d, l);
      MakeAround(n, t, fp, l, key, depth);
      HoleBelow(n, t, fp, l, key, depth, d, q, u, up);
    }
  }

  lemma MakeAround(n: NodeObj, t: Tree, fp: set<object>, l: LeafObj, key: Key, depth: nat)
    requires Rep(NodeRef(n), t, fp) && OnPath(t, key, depth)
    requires t.Inner? && depth + |t.prefix| < KEY_LEN && Mismatch(t.prefix, key, depth) == |t.prefix|
    requires Next(t, key, depth) in t.children && Next(t, key, depth) in n.sub && l in n.sub[Next(t, key, depth)]
    ensures Around(n, t, fp, l, key, depth) && l in fp
  {
    hide Ok, Counted, View, WF, Mismatch, Union, Kids, Rep;
    NodeParts(n, t, fp);
    Descend(t, key, depth);
    var b := Next(t, key, depth);
    var view, sub := View(n.L()), n.sub;
    KidsAt(view, t, sub, b);
    KidsApart(view, t, sub, b);
    KidsAreWithin(sub, fp);
    KidsWithout(view, t, sub, t.kind, b);
    NotOwned(n, l, b);
  }

  lemma NotOwned(n: NodeObj, l: LeafObj, b: Byte)
    requires Union(n.sub) !! n.Own() && b in n.sub && l in n.sub[b] && Union(n.sub - {b}) !! n.sub[b]
    ensures l !in n.Own() && l !in Union(n.sub - {b})
  {
    InUnion(n.sub, b);
  }

  /** art_update() below the root: the value in the key's leaf is exchanged in
      place; the caller gets the old one. */
  method UpdateFrom(root: Ref, key: Key, value: Value, ghost t0: Tree, ghost fp0: set<object>)
    returns (was: Option<Value>)
    requires Rep(root, t0, fp0) && OnPath(t0, key, 0)
    modifies fp0
    ensures was == Search(t0, key, 0)
    ensures Rep(root, if was.Some? then Insert(t0, key, value, 0, true) else t0, fp0)
  {
    hide WF, Mismatch, Search, Rep, Hole, LeafAt, Insert;
    var p, depth: nat := root, 0;
    ghost var t, fp := t0, fp0;
    while p.NodeRef?
      invariant Rep(p, t, fp) && OnPath(t, key, depth) && Rep(root, t0, fp0)
      invariant Search(t, key, depth) == Search(t0, key, 0)
      invariant LeafAt(p, t, fp, key, depth) == LeafAt(root, t0, fp0, key, 0)
      decreases t
    {
      var next;
      ghost var u, up, d := t, fp, depth;
      NodeFacts(p.node, t, fp, key, depth);
      next, depth, u, up := Follow(p.node, key, depth, t, fp);
      if next.None? { return None; }
      LeafAtBelow(p.node, t, fp, key, d, depth, next.value, u, up);
      p, t, fp := next.value, u, up;
    }
    var l := p.leaf;
    LeafEnd(l, t, fp, key, depth);
    if l.key == key {
      was := Some(l.value);
      MakeHole(root, t0, fp0, key, 0, l);
      l.value := value;
      FillHole(root, t0, fp0, l, key, value, 0);
    } else {
      was := None;
    }
  }

  // ------------------------------------------------------ minimum and maximum

  /** Sorted keys: slot i holds the child of keys[i], and no other byte lies between
      two neighbours. */
  lemma SmallSlot(n: NodeObj, i: nat)
    requires n.Sound() && Small(n.kind) && i < n.numChildren
    ensures i < n.keys.Length && i < n.children.Length && n.keys[i] < 256
    ensures n.keys[i] in View(n.L()) && n.children[i] == Some(View(n.L())[n.keys[i]])
  {
    hide View, Child, Counted;
    SmallChild(n.L(), i);
    InView(n.L(), n.keys[i]);
  }

  lemma SmallIndex(n: NodeObj, b: Byte) returns (i: nat)
    requires n.Sound() && Small(n.kind) && b in View(n.L())
    ensures i < n.numChildren <= n.keys.Length && n.keys[i] == b
  {
    hide View, Counted;
    InView(n.L(), b);
    i := Position(n.keys[..], n.numChildren, b);
  }

  /** The child that minimum() goes to. */
  method FirstChild(n: NodeObj) returns (c: Ref, b: Byte)
    requires n.Sound() && View(n.L()) != map[]
    ensures b in View(n.L()) && c == View(n.L())[b]
    ensures forall a: Byte :: a in View(n.L()) ==> b <= a
  {
    hide View, Counted, SmallOk, Used;
    ghost var a0: Byte :| a0 in View(n.L());
    InView(n.L(), a0);
    if Small(n.kind) {
      var i0 := SmallIndex(n, a0);
      SmallSlot(n, 0);
      b := n.keys[0];
      c := n.children[0].value;
      forall a: Byte | a in View(n.L()) ensures b <= a {
        var i := SmallIndex(n, a);
        SmallBefore(n, 0, i);
      }
    } else {
      var idx := 0;
      while (if n.kind.Node48? then n.keys[idx] == 0 else n.children[idx].None?)
        invariant 0 <= idx <= a0 && forall a: Byte :: a < idx ==> a !in View(n.L())
        decreases 256 - idx
      {
        InView(n.L(), idx);
        idx := idx + 1;
      }
      b := idx;
      InView(n.L(), b);
      c := if n.kind.Node48? then n.children[n.keys[idx] - 1].value else n.children[idx].value;
    }
  }

  lemma SmallBefore(n: NodeObj, i: nat, j: nat)
    requires n.Sound() && Small(n.kind) && i <= j < n.numChildren
    ensures j < n.keys.Length && n.keys[i] <= n.keys[j]
  {
    hide View, Counted;
  }

  /** The child that maximum() goes to. */
  method LastChild(n: NodeObj) returns (c: Ref, b: Byte)
    requires n.Sound() && View(n.L()) != map[]
    ensures b in View(n.L()) && c == View(n.L())[b]
    ensures forall a: Byte :: a in View(n.L()) ==> a <= b
  {
    hide View, Counted, SmallOk, Used;
    ghost var a0: Byte :| a0 in View(n.L());
    InView(n.L(), a0);
    if Small(n.kind) {
      var i0 := SmallIndex(n, a0);
      SmallSlot(n, n.numChildren - 1);
      b := n.keys[n.numChildren - 1];
      c := n.children[n.numChildren - 1].value;
      forall a: Byte | a in View(n.L()) ensures a <= b {
        var i := SmallIndex(n, a);
        SmallBefore(n, i, n.numChildren - 1);
      }
    } else {
      var idx := 255;
      while (if n.kind.Node48? then n.keys[idx] == 0 else n.children[idx].None?)
        invariant a0 <= idx <= 255 && forall a: Byte :: idx < a ==> a !in View(n.L())
        decreases idx
      {
        InView(n.L(), idx);
        idx := idx - 1;
      }
      b := idx;
      InView(n.L(), b);
      c := if n.kind.Node48? then n.children[n.keys[idx] - 1].value else n.children[idx].value;
    }
  }

  lemma NotEmpty(n: NodeObj, t: Tree, fp: set<object>, path: seq<Byte>)
    requires Rep(NodeRef(n), t, fp) && WF(t, path)
    ensures t.Inner? && n.Sound() && View(n.L()) != map[] && |t.children| > 0
  {
    hide WF;
    InnerShape(t, path);
    NodeCount(n, t, fp);
  }

  /** minimum(). */
  method MinimumFrom(p: Ref, ghost t: Tree, ghost fp: set<object>, ghost path: seq<Byte>) returns (l: LeafObj)
    requires Rep(p, t, fp) && WF(t, path)
    ensures l in fp && Pair(l.key, l.value) == Minimum(t, path)
    decreases t
  {
    hide WF, View, Ok, Counted, Kids, Union;
    match p {
      case LeafRef(q) => l := q;
      case NodeRef(n) =>
        NotEmpty(n, t, fp, path);
        ChildFacts(n, t, fp);
        var c, b := FirstChild(n);
        SomeBranch(t.children);
        assert b == LowByte(t.children, 0);
        ChildWF(t, path, b);
        l := MinimumFrom(c, t.children[b], n.sub[b], path + t.prefix + [b]);
    }
  }

  /** maximum(). */
  method MaximumFrom(p: Ref, ghost t: Tree, ghost fp: set<object>, ghost path: seq<Byte>) returns (l: LeafObj)
    requires Rep(p, t, fp) && WF(t, path)
    ensures l in fp && Pair(l.key, l.value) == Maximum(t, path)
    decreases t
  {
    hide WF, View, Ok, Counted, Kids, Union;
    match p {
      case LeafRef(q) => l := q;
      case NodeRef(n) =>
        NotEmpty(n, t, fp, path);
        ChildFacts(n, t, fp);
        var c, b := LastChild(n);
        SomeBranch(t.children);
        assert b == HighByte(t.children, 255);
        ChildWF(t, path, b);
        l := MaximumFrom(c, t.children[b], n.sub[b], path + t.prefix + [b]);
    }
  }

  // --------------------------------------------------------------- iterating

  /** Bytes without a child are passed over. */
  lemma {:induction false} SkipTo<S>(t: Tree, b: nat, c: nat, s: S, cb: (S, Pair) -> (S, int))
    requires t.Inner? && b <= c <= 256 && forall a: Byte :: b <= a < c ==> a !in t.children
    ensures IterFrom(t, b, s, cb) == IterFrom(t, c, s, cb)
    decreases c - b
  {
    if b < c {
      var byte: Byte := b;
      SkipTo(t, b + 1, c, s, cb);
    }
  }

  /** recursive_iter(), the state behind `data` passed through. */
  method IterOver<S>(p: Ref, s0: S, cb: (S, Pair) -> (S, int), ghost t: Tree, ghost fp: set<object>)
    returns (s: S, res: int)
    requires Rep(p, t, fp)
    ensures (s, res) == Iter(t, s0, cb)
    decreases t, 1
  {
    hide View, Ok, Counted, Kids, Union, IterFrom;
    match p {
      case LeafRef(l) =>
        var r := cb(s0, Pair(l.key, l.value));
        s, res := r.0, r.1;
      case NodeRef(n) =>
        ChildFacts(n, t, fp);
        if Small(n.kind) {
          s, res := IterSmall(n, s0, cb, t, fp);
        } else {
          s, res := IterBytes(n, s0, cb, t, fp);
        }
    }
  }

  /** The loop over the slots of a node4 or node16. */
  method IterSmall<S>(n: NodeObj, s0: S, cb: (S, Pair) -> (S, int), ghost t: Tree, ghost fp: set<object>)
    returns (s: S, res: int)
    requires Rep(NodeRef(n), t, fp) && Small(n.kind) && t.Inner?
    ensures (s, res) == IterFrom(t, 0, s0, cb)
    decreases t, 0
  {
    hide View, Ok, Counted, Kids, Union, IterFrom, Rep, Cut;
    ChildFacts(n, t, fp);
    s, res := s0, 0;
    ghost var next: nat := 0;
    var i := 0;
    CutStart(n, t);
    while i < n.numChildren
      invariant 0 <= i <= n.numChildren && next <= 256 && Cut(n, t, i, next)
      invariant IterFrom(t, 0, s0, cb) == IterFrom(t, next, s, cb)
    {
      SmallSlot(n, i);
      ghost var b: Byte := n.keys[i];
      CutStep(n, t, i, next);
      SkipTo(t, next, b, s, cb);
      IterStep(t, b, s, cb);
      s, res := IterOver(n.children[i].value, s, cb, t.children[b], n.sub[b]);
      if res != 0 { return; }
      next, i := b + 1, i + 1;
    }
    CutEnd(n, t, next);
    SkipTo(t, next, 256, s, cb);
    IterEnd(t, s, cb);
  }

  /** The first i slots are those of the bytes below next. */
  ghost predicate Cut(n: NodeObj, t: Tree, i: nat, next: nat)
    requires t.Inner?
    reads n, n.keys
  {
    forall a: Byte :: a in t.children ==> (Before(n, a, i) <==> a < next)
  }

  lemma CutStart(n: NodeObj, t: Tree)
    requires t.Inner?
    ensures Cut(n, t, 0, 0)
  {
  }

  lemma CutStep(n: NodeObj, t: Tree, i: nat, next: nat)
    requires n.Sound() && Small(n.kind) && i < n.numChildren && t.Inner? && View(n.L()).Keys == t.children.Keys
    requires Cut(n, t, i, next)
    ensures i < n.keys.Length && next <= n.keys[i] < 256 && Cut(n, t, i + 1, n.keys[i] + 1)
    ensures forall a: Byte :: next <= a < n.keys[i] ==> a !in t.children
  {
    hide View, Ok, Counted, Before;
    SmallSlot(n, i);
    SlotOrder(n, i, t);
  }

  lemma CutEnd(n: NodeObj, t: Tree, next: nat)
    requires n.Sound() && Small(n.kind) && t.Inner? && View(n.L()).Keys == t.children.Keys
    requires Cut(n, t, n.numChildren, next)
    ensures forall a: Byte :: next <= a < 256 ==> a !in t.children
  {
    hide View, Ok, Counted, Before;
    forall a: Byte | next <= a < 256 ensures a !in t.children {
      if a in t.children { AllBefore(n, a); }
    }
  }

  /** Byte a's slot is one of the first i. */
  ghost predicate Before(n: NodeObj, a: Byte, i: nat)
    reads n, n.keys
  {
    exists j :: 0 <= j < i && j < n.keys.Length && n.keys[j] == a
  }

  lemma AllBefore(n: NodeObj, a: Byte)
    requires n.Sound() && Small(n.kind) && a in View(n.L())
    ensures Before(n, a, n.numChildren)
  {
    hide View, Ok, Counted;
    var i := SmallIndex(n, a);
  }

  /** What lies before slot i + 1 are the bytes up to keys[i]. */
  lemma SlotOrder(n: NodeObj, i: nat, t: Tree)
    requires n.Sound() && Small(n.kind) && i < n.numChildren && t.Inner? && View(n.L()).Keys == t.children.Keys
    ensures i < n.keys.Length && n.keys[i] < 256
    ensures !Before(n, n.keys[i], i)
    ensures forall a: Byte :: a in t.children ==> (Before(n, a, i + 1) <==> a <= n.keys[i])
    ensures forall a: Byte :: a in t.children ==> (Before(n, a, i) <==> a < n.keys[i])
  {
    hide View, Counted;
    SmallSlot(n, i);
    forall a: Byte | a in t.children
      ensures Before(n, a, i + 1) <==> a <= n.keys[i]
      ensures Before(n, a, i) <==> a < n.keys[i]
    {
      var j := SmallIndex(n, a);
    }
  }

  lemma IterStep<S>(t: Tree, b: Byte, s: S, cb: (S, Pair) -> (S, int))
    requires t.Inner? && b in t.children
    ensures var (s1, res) := Iter(t.children[b], s, cb);
            IterFrom(t, b, s, cb) == if res != 0 then (s1, res) else IterFrom(t, b + 1, s1, cb)
  {
  }

  lemma IterEnd<S>(t: Tree, s: S, cb: (S, Pair) -> (S, int))
    requires t.Inner?
    ensures IterFrom(t, 256, s, cb) == (s, 0)
  {
  }

  /** The loop over all bytes of a node48 or node256. */
  method IterBytes<S>(n: NodeObj, s0: S, cb: (S, Pair) -> (S, int), ghost t: Tree, ghost fp: set<object>)
    returns (s: S, res: int)
    requires Rep(NodeRef(n), t, fp) && !Small(n.kind) && t.Inner?
    ensures (s, res) == IterFrom(t, 0, s0, cb)
    decreases t, 0
  {
    hide View, Counted, Kids, Union, IterFrom, Rep, Used;
    ChildFacts(n, t, fp);
    s, res := s0, 0;
    for i := 0 to 256
      invariant IterFrom(t, 0, s0, cb) == IterFrom(t, i, s, cb) && res == 0
    {
      InView(n.L(), i);
      if (if n.kind.Node48? then n.keys[i] == 0 else n.children[i].None?) {
        SkipTo(t, i, i + 1, s, cb);
      } else {
        IterStep(t, i, s, cb);
        var child := if n.kind.Node48? then n.children[n.keys[i] - 1].value else n.children[i].value;
        s, res := IterOver(child, s, cb, t.children[i], n.sub[i]);
        if res != 0 { return; }
      }
    }
    IterEnd(t, s, cb);
  }
}
