/** art_tree: the root and the size counter, and whole runs of its operations
    against a plain map. */
module Art {
  import opened Trie
  import opened TrieCanon

  datatype ArtTree = ArtTree(root: Option<Tree>, size: nat)

  const EMPTY := ArtTree(None, 0)

  ghost function Map(a: ArtTree): map<Key, Value> {
    match a.root
    case None => map[]
    case Some(t) => Contents(t)
  }

  ghost predicate Sound(root: Option<Tree>) { root.Some? ==> WF(root.value, []) }

  ghost predicate Valid(a: ArtTree) { Sound(a.root) && a.size == |Map(a)| }

  datatype Op =
    | Put(key: Key, value: Value, replace: bool)
    | Lookup(key: Key)
    | Update(key: Key, value: Value)
    | Remove(key: Key)

  /** What a call tells its caller: whether the key was there (the pointers that
      art_insert() and art_delete() return are tested against NULL only), or the
      value that was. */
  datatype Answer = Existed(b: bool) | Was(v: Option<Value>)

  lemma AtRoot(t: Tree, key: Key)
    ensures WF(t, []) <==> OnPath(t, key, 0)
  {
    assert key[..0] == [];
  }

  function RootSearch(root: Option<Tree>, key: Key): Option<Value>
    requires Sound(root)
  {
    if root.None? then None else AtRoot(root.value, key); Search(root.value, key, 0)
  }

  function RootInsert(root: Option<Tree>, key: Key, value: Value, replace: bool): Tree
    requires Sound(root)
  {
    if root.None? then Leaf(key, value)
    else AtRoot(root.value, key); Insert(root.value, key, value, 0, replace)
  }

  /** recursive_delete() at the root: a root leaf leaves an empty tree. */
  function RootDelete(root: Option<Tree>, key: Key): Option<Option<Tree>>
    requires Sound(root)
  {
    match root
    case None => None
    case Some(Leaf(k, _)) => if k == key then Some(None) else None
    case Some(t) =>
      AtRoot(t, key);
      match Delete(t, key, 0)
      case None => None
      case Some(u) => Some(Some(u))
  }

  function Perform(a: ArtTree, op: Op): (ArtTree, Answer)
    requires Valid(a)
  {
    match op
    case Put(key, value, replace) =>
      var existed := RootSearch(a.root, key).Some?;
      (ArtTree(Some(RootInsert(a.root, key, value, replace)), if existed then a.size else a.size + 1), Existed(existed))
    case Lookup(key) => (a, Was(RootSearch(a.root, key)))
    case Update(key, value) =>
      var was := RootSearch(a.root, key);
      (if was.Some? then ArtTree(Some(RootInsert(a.root, key, value, true)), a.size) else a, Was(was))
    case Remove(key) =>
      match RootDelete(a.root, key)
      case None => (a, Existed(false))
      case Some(root) => (ArtTree(root, if a.size > 0 then a.size - 1 else 0), Existed(true))
  }

  /** The same operations on a map. */
  function Reference(m: map<Key, Value>, op: Op): (map<Key, Value>, Answer) {
    match op
    case Put(key, value, replace) => (if key in m && !replace then m else m[key := value], Existed(key in m))
    case Lookup(key) => (m, Was(if key in m then Some(m[key]) else None))
    case Update(key, value) =>
      (if key in m then m[key := value] else m, Was(if key in m then Some(m[key]) else None))
    case Remove(key) => (m - {key}, Existed(key in m))
  }

  lemma RootSearchIsLookup(root: Option<Tree>, key: Key)
    requires Sound(root)
    ensures RootSearch(root, key) == At(Map(ArtTree(root, 0)), key)
  {
    if root.Some? {
      AtRoot(root.value, key);
      SearchIsLookup(root.value, key, 0);
    }
  }

  lemma RootInsertIsStore(root: Option<Tree>, key: Key, value: Value, replace: bool)
    requires Sound(root)
    ensures WF(RootInsert(root, key, value, replace), [])
    ensures Contents(RootInsert(root, key, value, replace)) == Stored(Map(ArtTree(root, 0)), key, value, replace)
  {
    hide Contents, WF, Insert;
    var u := RootInsert(root, key, value, replace);
    AtRoot(u, key);
    if root.Some? {
      AtRoot(root.value, key);
      InsertIsStore(root.value, key, value, 0, replace);
    } else {
      LeafOnPath(Leaf(key, value), 0);
      LeafHas(Leaf(key, value));
    }
  }

  lemma RootDeleteIsRemoval(root: Option<Tree>, key: Key)
    requires Sound(root)
    ensures RootDelete(root, key).None? <==> key !in Map(ArtTree(root, 0))
    ensures RootDelete(root, key).Some? ==>
              var r := RootDelete(root, key).value;
              Sound(r) && Map(ArtTree(r, 0)) == Map(ArtTree(root, 0)) - {key}
  {
    hide Contents, WF, Delete;
    if root.Some? {
      if root.value.Leaf? {
        LeafHas(root.value);
      } else {
        AtRoot(root.value, key);
        DeleteIsRemoval(root.value, key, 0);
        if Delete(root.value, key, 0).Some? { AtRoot(Delete(root.value, key, 0).value, key); }
      }
    }
  }

  /** One operation: the tree is again sound, stores what the map stores, counts its
      pairs, and answers as the map does. */
  lemma PerformIsReference(a: ArtTree, op: Op)
    requires Valid(a)
    ensures Valid(Perform(a, op).0)
    ensures Map(Perform(a, op).0) == Reference(Map(a), op).0
    ensures Perform(a, op).1 == Reference(Map(a), op).1
  {
    hide Contents, RootSearch, RootInsert, RootDelete, WF;
    RootSearchIsLookup(a.root, op.key);
    assert Map(ArtTree(a.root, 0)) == Map(a);
    match op
    case Put(key, value, replace) =>
      RootInsertIsStore(a.root, key, value, replace);
      SizeOfStore(Map(a), key, value);
    case Lookup(_) =>
    case Update(key, value) =>
      RootInsertIsStore(a.root, key, value, true);
      SizeOfStore(Map(a), key, value);
    case Remove(key) =>
      RootDeleteIsRemoval(a.root, key);
      SizeOfRemoval(Map(a), key);
      if key !in Map(a) { assert Map(a) - {key} == Map(a); }
  }

  lemma SizeOfStore(m: map<Key, Value>, key: Key, value: Value)
    ensures |m[key := value]| == if key in m then |m| else |m| + 1
  {
    assert m[key := value].Keys == m.Keys + {key};
    assert |m| == |m.Keys| && |m[key := value]| == |m[key := value].Keys|;
  }

  lemma SizeOfRemoval(m: map<Key, Value>, key: Key)
    ensures |m - {key}| == if key in m then |m| - 1 else |m|
  {
    assert (m - {key}).Keys == m.Keys - {key};
    assert |m| == |m.Keys| && |m - {key}| == |(m - {key}).Keys|;
  }

  function Run(a: ArtTree, ops: seq<Op>): (r: (ArtTree, seq<Answer>))
    requires Valid(a)
    ensures Valid(r.0)
    decreases |ops|
  {
    if ops == [] then (a, [])
    else
      var (b, answer) := Perform(a, ops[0]);
      PerformIsReference(a, ops[0]);
      var (c, answers) := Run(b, ops[1..]);
      (c, [answer] + answers)
  }

  function ReferenceRun(m: map<Key, Value>, ops: seq<Op>): (map<Key, Value>, seq<Answer>)
    decreases |ops|
  {
    if ops == [] then (m, [])
    else
      var (n, answer) := Reference(m, ops[0]);
      var (o, answers) := ReferenceRun(n, ops[1..]);
      (o, [answer] + answers)
  }

  /** Refinement: any sequence of operations answers, call by call, as the map does,
      and leaves the tree storing the map, with size its cardinality. */
  lemma {:induction false} RunIsReferenceRun(a: ArtTree, ops: seq<Op>)
    requires Valid(a)
    ensures Map(Run(a, ops).0) == ReferenceRun(Map(a), ops).0
    ensures Run(a, ops).1 == ReferenceRun(Map(a), ops).1
    ensures Run(a, ops).0.size == |ReferenceRun(Map(a), ops).0|
    decreases |ops|
  {
    hide Perform, Reference, Map;
    if ops != [] {
      PerformIsReference(a, ops[0]);
      RunIsReferenceRun(Perform(a, ops[0]).0, ops[1..]);
    }
  }

  // ------------------------------------------------------------- canonicity

  ghost function RootErase(root: Option<Tree>): Option<Skeleton> {
    if root.None? then None else Some(Erase(root.value))
  }

  /** Trees that store the same map have the same prefixes and branch bytes. */
  lemma SameMapSameTrie(a: ArtTree, b: ArtTree)
    requires Sound(a.root) && Sound(b.root) && Map(a) == Map(b)
    ensures RootErase(a.root) == RootErase(b.root)
  {
    if a.root.Some? {
      var k := SomeKey(a.root.value, []);
      assert k in Map(a);
    }
    if b.root.Some? {
      var k := SomeKey(b.root.value, []);
      assert k in Map(b);
    }
    if a.root.Some? && b.root.Some? {
      forall k ensures Has(a.root.value, k) == Has(b.root.value, k) {
        assert Has(a.root.value, k) == At(Map(a), k);
      }
      Canonical(a.root.value, b.root.value, []);
    }
  }

  /** Neither the order of the operations nor any that cancel out leave a trace. */
  lemma HistoryLeavesNoTrace(ops1: seq<Op>, ops2: seq<Op>)
    requires ReferenceRun(map[], ops1).0 == ReferenceRun(map[], ops2).0
    ensures RootErase(Run(EMPTY, ops1).0.root) == RootErase(Run(EMPTY, ops2).0.root)
  {
    RunIsReferenceRun(EMPTY, ops1);
    RunIsReferenceRun(EMPTY, ops2);
    SameMapSameTrie(Run(EMPTY, ops1).0, Run(EMPTY, ops2).0);
  }

  /** Deleting a key just inserted restores the trie: splits and collapses match. */
  lemma DeleteUndoesInsert(a: ArtTree, key: Key, value: Value, replace: bool)
    requires Valid(a) && key !in Map(a)
    ensures var b := Perform(a, Put(key, value, replace)).0;
            Valid(b) && RootErase(Perform(b, Remove(key)).0.root) == RootErase(a.root)
  {
    hide Perform, Contents;
    var b := Perform(a, Put(key, value, replace)).0;
    PerformIsReference(a, Put(key, value, replace));
    PerformIsReference(b, Remove(key));
    assert Map(a)[key := value] - {key} == Map(a);
    SameMapSameTrie(a, Perform(b, Remove(key)).0);
  }
}
