/** The tree of sequential/art.c as its callers see it: an object that is at every
    moment one map, whatever its nodes look like. */
module ArtTree {
  import opened Trie
  import opened TrieOrder
  import opened ArtNode
  import opened ArtHeap
  import opened ArtWalk
  import opened Art

  class TreeObj {
    var root: Option<Ref>
    var size: nat
    /** What the linked nodes represent, and all of them. */
    ghost var tree: Option<Tree>
    ghost var repr: set<object>

    ghost function Model(): ArtTree
      reads this
    {
      ArtTree(tree, size)
    }

    ghost function M(): map<Key, Value>
      reads this
    {
      Map(Model())
    }

    /** The nodes represent a well-formed trie, and size counts its pairs. */
    ghost predicate Linked()
      reads this, repr
    {
      && this !in repr && root.Some? == tree.Some? && Valid(Model())
      && (root.Some? ==> Rep(root.value, tree.value, repr))
    }

    constructor ()
      ensures Linked() && Model() == EMPTY && M() == map[] && repr == {}
    {
      root, size, tree, repr := None, 0, None, {};
    }

    /** art_search(). */
    method Search(key: Key) returns (result: Option<Value>)
      requires Linked()
      ensures result == if key in M() then Some(M()[key]) else None
    {
      hide WF, Contents, Rep, Trie.Search;
      result := None;
      RootSearchIsLookup(tree, key);
      assert Map(ArtTree(tree, 0)) == M();
      if root.Some? {
        AtRoot(tree.value, key);
        result := SearchFrom(root.value, key, tree.value, repr);
      }
    }

    /** art_insert() (replace) and art_insert_no_replace(): whether the key was there. */
    method Insert(key: Key, value: Value, replace: bool) returns (existed: bool)
      requires Linked()
      modifies this, repr
      ensures Linked() && fresh(repr - old(repr))
      ensures Model() == Perform(old(Model()), Put(key, value, replace)).0
      ensures M() == if key in old(M()) && !replace then old(M()) else old(M())[key := value]
      ensures existed == (key in old(M())) && size == |M()|
    {
      hide WF, Contents, Rep, Trie.Search, Trie.Insert;
      ghost var a := Model();
      PerformIsReference(a, Put(key, value, replace));
      if root.None? {
        var leaf := new LeafObj(key, value);
        root, repr, tree := Some(LeafRef(leaf)), {leaf}, Some(Leaf(key, value));
        existed := false;
        OneLeaf(leaf);
      } else {
        AtRoot(tree.value, key);
        var r;
        ghost var fp;
        r, existed, fp := RecursiveInsert(root.value, key, value, 0, replace, tree.value, repr);
        root, repr, tree := Some(r), fp, Some(Trie.Insert(tree.value, key, value, 0, replace));
      }
      if !existed { size := size + 1; }
    }

    static lemma OneLeaf(leaf: LeafObj)
      ensures Rep(LeafRef(leaf), Leaf(leaf.key, leaf.value), {leaf})
    {
    }

    /** art_update(): the old value, if the key was there.  (C callers get the value
        itself as a pointer, so that an old value 0 reads as NULL.) */
    method Update(key: Key, value: Value) returns (was: Option<Value>)
      requires Linked()
      modifies this, repr
      ensures Linked() && repr == old(repr)
      ensures Model() == Perform(old(Model()), Op.Update(key, value)).0
      ensures M() == if key in old(M()) then old(M())[key := value] else old(M())
      ensures was == (if key in old(M()) then Some(old(M())[key]) else None) && size == |M()|
    {
      hide WF, Contents, Rep, Trie.Search, Trie.Insert;
      ghost var a := Model();
      PerformIsReference(a, Op.Update(key, value));
      was := None;
      if root.Some? {
        AtRoot(tree.value, key);
        was := UpdateFrom(root.value, key, value, tree.value, repr);
        if was.Some? { tree := Some(Trie.Insert(tree.value, key, value, 0, true)); }
      }
    }

    /** art_delete(): whether the key was there. */
    method Delete(key: Key) returns (existed: bool)
      requires Linked()
      modifies this, repr
      ensures Linked() && fresh(repr - old(repr))
      ensures Model() == Perform(old(Model()), Remove(key)).0
      ensures M() == old(M()) - {key}
      ensures existed == (key in old(M())) && size == |M()|
    {
      hide WF, Contents, Rep, Trie.Search, Trie.Delete;
      ghost var a := Model();
      PerformIsReference(a, Remove(key));
      existed := false;
      if root.Some? {
        match root.value {
          case LeafRef(l) =>
            LeafFacts(l, tree.value, repr);
            if l.key == key { root, tree, existed := None, None, true; }
          case NodeRef(n) =>
            AtRoot(tree.value, key);
            IsInner(n, tree.value, repr);
            var r;
            ghost var fp;
            r, existed, fp := RecursiveDelete(n, key, 0, tree.value, repr);
            root, repr := Some(r), fp;
            if existed { tree := Some(Trie.Delete(tree.value, key, 0).value); }
        }
      }
      if existed { size := size - 1; }
    }

    static lemma IsInner(n: NodeObj, t: Tree, fp: set<object>)
      requires Rep(NodeRef(n), t, fp)
      ensures t.Inner?
    {
    }

    /** art_minimum(): a pair with the least key; NULL when there is none. */
    method Minimum() returns (l: Option<Pair>)
      requires Linked()
      ensures l.None? <==> M() == map[]
      ensures l.Some? ==> l.value.key in M() && M()[l.value.key] == l.value.value
      ensures l.Some? ==> forall k :: k in M() && k != l.value.key ==> Less(l.value.key, k)
    {
      hide WF, Contents, Rep, Less;
      if root.None? { return None; }
      var leaf := MinimumFrom(root.value, tree.value, repr, []);
      ghost var p := TrieOrder.Minimum(tree.value, []);
      forall k: Key ensures k in M() && k != p.key ==> Less(p.key, k) {
        MinimumIsLeast(tree.value, [], k);
      }
      MinimumIsLeast(tree.value, [], p.key);
      l := Some(Pair(leaf.key, leaf.value));
    }

    /** art_maximum(). */
    method Maximum() returns (l: Option<Pair>)
      requires Linked()
      ensures l.None? <==> M() == map[]
      ensures l.Some? ==> l.value.key in M() && M()[l.value.key] == l.value.value
      ensures l.Some? ==> forall k :: k in M() && k != l.value.key ==> Less(k, l.value.key)
    {
      hide WF, Contents, Rep, Less;
      if root.None? { return None; }
      var leaf := MaximumFrom(root.value, tree.value, repr, []);
      ghost var p := TrieOrder.Maximum(tree.value, []);
      forall k: Key ensures k in M() && k != p.key ==> Less(k, p.key) {
        MaximumIsGreatest(tree.value, [], k);
      }
      MaximumIsGreatest(tree.value, [], p.key);
      l := Some(Pair(leaf.key, leaf.value));
    }

    /** art_iter(): the callback sees the stored pairs once each, in the order of
        their keys, until it returns non-zero.  Pair number i is shown with the data
        trace[i]; only the last call made can have returned non-zero, and what it
        returned is the result. */
    method Iterate<S>(s0: S, cb: (S, Pair) -> (S, int))
      returns (s: S, res: int, ghost seen: seq<Pair>, ghost trace: seq<S>)
      requires Linked()
      ensures forall i, j :: 0 <= i < j < |seen| ==> Less(seen[i].key, seen[j].key)
      ensures forall p :: p in seen <==> p.key in M() && M()[p.key] == p.value
      ensures 1 <= |trace| <= |seen| + 1 && trace[0] == s0 && trace[|trace| - 1] == s
      ensures forall i :: 0 <= i < |trace| - 1 ==> trace[i + 1] == cb(trace[i], seen[i]).0
      ensures forall i :: 0 <= i < |trace| - 2 ==> cb(trace[i], seen[i]).1 == 0
      ensures res == if |trace| == 1 then 0 else cb(trace[|trace| - 2], seen[|trace| - 2]).1
      ensures res == 0 ==> |trace| == |seen| + 1
    {
      hide WF, Contents, Rep, Less, Iter, Fold;
      if root.None? { return s0, 0, [], [s0]; }
      seen := Entries(tree.value);
      s, res := IterOver(root.value, s0, cb, tree.value, repr);
      IterIsFold(tree.value, s0, cb);
      EntriesAreContents(tree.value, []);
      trace := FoldUnrolls(seen, s0, cb);
    }
  }
}
