/** The combined index of sequential/hetero.c (buffers off) as a value: what the hash
    table, the tree and the two special keys hold, what each call does to them, and
    when the three behave as one map. */
module Parts {
  import opened Trie
  import opened Slots
  import Bins
  import Hash

  /** IS_SPECIAL_KEY: the keys 0 and 1, whose words the hash uses as slot marks. */
  predicate Special(key: Key) { key[0] <= 1 && forall i :: 1 <= i < KEY_LEN ==> key[i] == 0 }

  /** The contents of the three parts, and the shape of the hash table, which decides
      whether a key finds room there: its hash function and its number of bins. */
  datatype Parts = Parts(hash: map<Key, Value>, tree: map<Key, Value>, special: map<Key, Value>, f: Key -> nat,
                         size: nat)

  function Empty(f: Key -> nat, size: nat): Parts { Parts(map[], map[], map[], f, size) }

  ghost predicate Sorted(p: Parts) {
    && Bins.PowerOfTwo(p.size)
    && (forall k :: k in p.hash || k in p.tree ==> !Special(k))
    && forall k :: k in p.special ==> Special(k)
  }

  /** No key is in both the hash table and the tree. */
  ghost predicate OneCopy(p: Parts) { p.hash.Keys !! p.tree.Keys }

  /** The one map: a key in the hash table hides its copy in the tree. */
  ghost function View(p: Parts): map<Key, Value> { p.tree + p.hash + p.special }

  /** index_query(). */
  ghost function Lookup(p: Parts, key: Key): Option<Value> {
    if Special(key) then At(p.special, key) else if key in p.hash then Some(p.hash[key]) else At(p.tree, key)
  }

  // ---------------------------------------------------------------- insertion

  const MAX_TREE_HASH_RATIO := 4

  /** With `size` bins, the bin of the key has less than eight of the table's keys. */
  ghost predicate FindsRoom(p: Parts, key: Key, size: nat)
    requires Bins.PowerOfTwo(size)
  {
    |Hash.OfBin(p.hash.Keys, Bins.BinOf(p.f(key), size), p.f, size)| < BIN_CAPACITY
  }

  /** The number of bins when the loop at REINSERT ends: the table is doubled until
      the key is in it or finds room, or the tree is no longer more than four times
      as big as the table. */
  ghost function FinalSize(p: Parts, key: Key, size: nat): (n: nat)
    requires Bins.PowerOfTwo(size)
    ensures Bins.PowerOfTwo(n) && size <= n
    decreases |p.tree| - size
  {
    if key !in p.hash && !FindsRoom(p, key, size) && size * BIN_CAPACITY * MAX_TREE_HASH_RATIO < |p.tree| then
      Doubles(size);
      FinalSize(p, key, 2 * size)
    else size
  }

  lemma Doubles(n: nat)
    requires Bins.PowerOfTwo(n)
    ensures Bins.PowerOfTwo(2 * n) && n > 0
  {
  }

  /** Whether the key then goes into the hash table. */
  ghost predicate Lands(p: Parts, key: Key)
    requires Bins.PowerOfTwo(p.size)
  {
    key in p.hash || FindsRoom(p, key, FinalSize(p, key, p.size))
  }

  // -------------------------------------------------------------------- calls

  datatype Op =
    | Put(key: Key, value: Value, mem: bool)
    | Get(key: Key)
    | Change(key: Key, value: Value)
    | Remove(key: Key)
    | Expand
    | Size

  datatype Answer = Status(code: nat) | Found(v: Option<Value>) | Count(n: nat)

  /** index_insert() of an ordinary key: into the hash table if the storage type is
      MEM_TYPE and it lands there, else into the tree, where it replaces nothing. */
  ghost function PutOrdinary(p: Parts, key: Key, value: Value, mem: bool): (Parts, Answer)
    requires Bins.PowerOfTwo(p.size)
  {
    var r := if mem then p.(size := FinalSize(p, key, p.size)) else p;
    if mem && Lands(p, key) then (r.(hash := p.hash[key := value]), Status(0))
    else (r.(tree := Stored(p.tree, key, value, false)), Status(if key !in p.tree then 0 else 1))
  }

  /** index_update(): special keys are inserted if need be; others are only looked
      for, and art_update() hands back the old value, of which 0 reads as failure. */
  ghost function ChangeAny(p: Parts, key: Key, value: Value): (Parts, Answer) {
    if Special(key) then (p.(special := p.special[key := value]), Status(0))
    else if key in p.hash then (p.(hash := p.hash[key := value]), Status(0))
    else if key in p.tree then (p.(tree := p.tree[key := value]), Status(if p.tree[key] != 0 then 0 else 1))
    else (p, Status(1))
  }

  /** index_delete(): one copy at a time. */
  ghost function RemoveAny(p: Parts, key: Key): (Parts, Answer) {
    if Special(key) then (p.(special := p.special - {key}), Status(if key in p.special then 0 else 1))
    else if key in p.hash then (p.(hash := p.hash - {key}), Status(0))
    else (p.(tree := p.tree - {key}), Status(if key in p.tree then 0 else 1))
  }

  /** What a call does, and what it returns. */
  ghost function Perform(p: Parts, op: Op): (Parts, Answer)
    requires Bins.PowerOfTwo(p.size)
  {
    match op
    case Put(key, value, mem) =>
      if Special(key) then (p.(special := p.special[key := value]), Status(0)) else PutOrdinary(p, key, value, mem)
    case Get(key) => (p, Found(Lookup(p, key)))
    case Change(key, value) => ChangeAny(p, key, value)
    case Remove(key) => RemoveAny(p, key)
    case Expand => (p.(size := 2 * p.size), Status(0))
    case Size => (p, Count(|p.hash| + |p.tree| + |p.special|))
  }

  /** The same calls on one map. */
  function Reference(m: map<Key, Value>, op: Op): (map<Key, Value>, Answer) {
    match op
    case Put(key, value, _) => (m[key := value], Status(0))
    case Get(key) => (m, Found(if key in m then Some(m[key]) else None))
    case Change(key, value) =>
      if Special(key) || key in m then (m[key := value], Status(0)) else (m, Status(1))
    case Remove(key) => (m - {key}, Status(if key in m then 0 else 1))
    case Expand => (m, Status(0))
    case Size => (m, Count(|m|))
  }

  /** Calls for which the index promises to be one map: new keys are new, and no
      ordinary value that is overwritten is 0. */
  predicate Careful(m: map<Key, Value>, op: Op) {
    match op
    case Put(key, _, _) => Special(key) || key !in m
    case Change(key, _) => Special(key) || key !in m || m[key] != 0
    case _ => true
  }

  lemma KeepsSorted(p: Parts, op: Op)
    requires Sorted(p)
    ensures Sorted(Perform(p, op).0)
  {
    hide Special, Bins.PowerOfTwo, FinalSize, Lands;
    Doubles(p.size);
  }

  // --------------------------------------------------------------- one map

  lemma InView(p: Parts, key: Key)
    requires Sorted(p)
    ensures At(View(p), key) == Lookup(p, key)
  {
    hide Special, Bins.PowerOfTwo;
  }

  lemma ViewIs(p: Parts, m: map<Key, Value>)
    requires Sorted(p) && forall k: Key :: Lookup(p, k) == At(m, k)
    ensures View(p) == m
  {
    hide Sorted, Lookup, View;
    forall k: Key ensures (k in View(p) <==> k in m) && (k in View(p) ==> View(p)[k] == m[k]) {
      InView(p, k);
      assert Lookup(p, k) == At(m, k);
    }
  }

  lemma Sizes(a: set<Key>, b: set<Key>)
    ensures |a + b| == |a| + |b| - |a * b|
  {
    assert a + b == (a - b) + b && (a - b) !! b;
    assert a == (a - b) + (a * b) && (a - b) !! (a * b);
  }

  /** index_size() is the size of the map exactly if no key has two copies. */
  lemma SizeIsExact(p: Parts)
    requires Sorted(p)
    ensures |p.hash| + |p.tree| + |p.special| == |View(p)| <==> OneCopy(p)
  {
    hide Special, Bins.PowerOfTwo;
    Sizes(p.tree.Keys, p.hash.Keys);
    Sizes(p.tree.Keys + p.hash.Keys, p.special.Keys);
    assert View(p).Keys == p.tree.Keys + p.hash.Keys + p.special.Keys;
    assert (p.tree.Keys + p.hash.Keys) * p.special.Keys == {};
    assert |View(p).Keys| == |View(p)| && |p.tree.Keys| == |p.tree|;
    assert |p.hash.Keys| == |p.hash| && |p.special.Keys| == |p.special|;
    assert OneCopy(p) <==> p.tree.Keys * p.hash.Keys == {};
    assert |p.tree.Keys * p.hash.Keys| == 0 <==> p.tree.Keys * p.hash.Keys == {};
  }

  /** index_delete() removes the key from the map exactly if it has no second copy,
      which would otherwise come to light. */
  lemma RemovalIsExact(p: Parts, key: Key)
    requires Sorted(p)
    ensures var (q, a) := Perform(p, Remove(key));
            && (View(q) == View(p) - {key} <==> !(key in p.hash && key in p.tree))
            && (key in p.hash && key in p.tree ==> View(q) == View(p)[key := p.tree[key]])
            && a == Status(if key in View(p) then 0 else 1)
  {
    hide Special, View, RemoveAny;
    RemovalEffect(p, key);
    InView(p, key);
  }

  lemma RemovalEffect(p: Parts, key: Key)
    requires Sorted(p)
    ensures var (q, a) := RemoveAny(p, key);
            && View(q) == (if key in p.hash && key in p.tree then View(p)[key := p.tree[key]] else View(p) - {key})
            && a == Status(if Lookup(p, key).Some? then 0 else 1)
  {
    hide Special, View, Lookup, RemoveAny, Sorted;
    KeepsSorted(p, Remove(key));
    RemovedLookup(p, key);
    var q := RemoveAny(p, key).0;
    forall k: Key | k != key ensures Lookup(q, k) == Lookup(p, k) { OtherLookup(p, key, k); }
    Changed(p, q, key, if key in p.hash && key in p.tree then Some(p.tree[key]) else None);
  }

  lemma RemovedLookup(p: Parts, key: Key)
    requires Sorted(p)
    ensures var (q, a) := RemoveAny(p, key);
            && Lookup(q, key) == (if key in p.hash && key in p.tree then Some(p.tree[key]) else None)
            && a == Status(if Lookup(p, key).Some? then 0 else 1)
  {
    hide Special, Bins.PowerOfTwo;
  }

  lemma OtherLookup(p: Parts, key: Key, k: Key)
    requires k != key
    ensures Lookup(RemoveAny(p, key).0, k) == Lookup(p, k)
  {
    hide Special, At;
    Without(p.hash, key, k);
    Without(p.tree, key, k);
    Without(p.special, key, k);
  }

  lemma Without(m: map<Key, Value>, key: Key, k: Key)
    requires k != key
    ensures At(m - {key}, k) == At(m, k) && (k in m - {key} <==> k in m)
    ensures k in m ==> (m - {key})[k] == m[k]
  {
  }

  /** One key's entry is another one now, or none. */
  lemma Changed(p: Parts, q: Parts, key: Key, v: Option<Value>)
    requires Sorted(p) && Sorted(q) && Lookup(q, key) == v
    requires forall k: Key :: k != key ==> Lookup(q, k) == Lookup(p, k)
    ensures View(q) == match v case None => View(p) - {key} case Some(x) => View(p)[key := x]
  {
    hide Sorted, Lookup, View;
    var m := match v case None => View(p) - {key} case Some(x) => View(p)[key := x];
    forall k: Key ensures Lookup(q, k) == At(m, k) {
      InView(p, k);
      if k != key { assert Lookup(q, k) == Lookup(p, k); }
    }
    ViewIs(q, m);
  }

  /** index_insert() creates a second copy exactly if an ordinary key that is in one
      part only goes into the other: a key of the tree that lands in the hash table,
      or a key of the hash table that is put into the tree. */
  lemma PutKeepsOneCopy(p: Parts, key: Key, value: Value, mem: bool)
    requires Sorted(p) && OneCopy(p)
    ensures OneCopy(Perform(p, Put(key, value, mem)).0) <==>
            Special(key) || if mem then !(key in p.tree && Lands(p, key)) else key !in p.hash
  {
    hide Special, View, FindsRoom, FinalSize;
    var q := Perform(p, Put(key, value, mem)).0;
    if !OneCopy(q) {
      var k :| k in q.hash.Keys && k in q.tree.Keys;
    } else {
      assert !(key in q.hash.Keys && key in q.tree.Keys);
    }
  }

  /** size doubled i times. */
  function Times(size: nat, i: nat): (n: nat)
    requires Bins.PowerOfTwo(size)
    ensures Bins.PowerOfTwo(n)
    decreases i
  {
    if i == 0 then size else Doubles(size); Times(2 * size, i - 1)
  }

  /** At all sizes before the i-th the tree is more than four times as big as the
      table would be. */
  ghost predicate Reached(p: Parts, size: nat, i: nat)
    requires Bins.PowerOfTwo(size)
  {
    forall j: nat :: j < i ==> Times(size, j) * 8 * 4 < |p.tree|
  }

  ghost predicate RoomAt(p: Parts, key: Key, size: nat, i: nat)
    requires Bins.PowerOfTwo(size)
  {
    var n := Times(size, i);
    Reached(p, size, i) && |Hash.OfBin(p.hash.Keys, Bins.BinOf(p.f(key), n), p.f, n)| < 8
  }

  /** The condition on the state before the call for a key that the table does not have
      to land there: after some number of doublings that the size of the tree allows,
      its bin has less than eight keys. */
  lemma LandsExactly(p: Parts, key: Key)
    requires Bins.PowerOfTwo(p.size) && key !in p.hash
    ensures Lands(p, key) <==> exists i: nat :: RoomAt(p, key, p.size, i)
  {
    hide FindsRoom, FinalSize, RoomAt;
    LandsFrom(p, key, p.size);
  }

  lemma {:induction false} LandsFrom(p: Parts, key: Key, size: nat)
    requires Bins.PowerOfTwo(size) && key !in p.hash
    ensures FindsRoom(p, key, FinalSize(p, key, size)) <==> exists i: nat :: RoomAt(p, key, size, i)
    decreases |p.tree| - size
  {
    hide FindsRoom, Bins.PowerOfTwo, Reached, RoomAt;
    Doubles(size);
    NoDoubling(p, size);
    RoomIsRoom(p, key, size, 0);
    if FindsRoom(p, key, size) {
      assert RoomAt(p, key, size, 0);
    } else if size * BIN_CAPACITY * MAX_TREE_HASH_RATIO < |p.tree| {
      LandsFrom(p, key, 2 * size);
      forall i: nat ensures i > 0 ==> (RoomAt(p, key, size, i) <==> RoomAt(p, key, 2 * size, i - 1)) {
        if i > 0 { RoomFrom(p, key, size, i); }
      }
      if i: nat :| RoomAt(p, key, 2 * size, i) { assert RoomAt(p, key, size, i + 1); }
      if i: nat :| RoomAt(p, key, size, i) { assert i > 0 && RoomAt(p, key, 2 * size, i - 1); }
    } else {
      forall i: nat ensures !RoomAt(p, key, size, i) {
        RoomIsRoom(p, key, size, i);
        if i > 0 { OneDoubling(p, size, i); }
      }
    }
  }

  lemma NoDoubling(p: Parts, size: nat)
    requires Bins.PowerOfTwo(size)
    ensures Times(size, 0) == size && Reached(p, size, 0)
  {
  }

  lemma OneDoubling(p: Parts, size: nat, i: nat)
    requires Bins.PowerOfTwo(size) && i > 0
    ensures Bins.PowerOfTwo(2 * size) && Times(size, i) == Times(2 * size, i - 1)
    ensures Reached(p, size, i) <==>
            size * BIN_CAPACITY * MAX_TREE_HASH_RATIO < |p.tree| && Reached(p, 2 * size, i - 1)
  {
    hide Bins.PowerOfTwo;
    Doubles(size);
    assert Times(size, 0) == size;
    forall j: nat ensures Times(size, j + 1) == Times(2 * size, j) { }
    if size * BIN_CAPACITY * MAX_TREE_HASH_RATIO < |p.tree| && Reached(p, 2 * size, i - 1) {
      forall j: nat | j < i ensures Times(size, j) * BIN_CAPACITY * MAX_TREE_HASH_RATIO < |p.tree| {
        if j > 0 { assert Times(size, j) == Times(2 * size, j - 1); }
      }
    }
    if Reached(p, size, i) {
      forall j: nat | j < i - 1 ensures Times(2 * size, j) * BIN_CAPACITY * MAX_TREE_HASH_RATIO < |p.tree| {
        assert Times(size, j + 1) == Times(2 * size, j);
      }
    }
  }

  /** Where the doubling ends: at the first size with room for the key, or at the first
      that the tree is not more than four times as big as. */
  lemma {:induction false} FinalSizeIs(p: Parts, key: Key, size: nat) returns (i: nat)
    requires Bins.PowerOfTwo(size) && key !in p.hash
    ensures FinalSize(p, key, size) == Times(size, i) && Reached(p, size, i)
    ensures forall j: nat :: j < i ==> !RoomAt(p, key, size, j)
    ensures RoomAt(p, key, size, i) || !(Times(size, i) * 8 * 4 < |p.tree|)
    decreases |p.tree| - size
  {
    hide Bins.PowerOfTwo, Reached, Times, RoomAt;
    Doubles(size);
    NoDoubling(p, size);
    RoomIsRoom(p, key, size, 0);
    i := 0;
    if key !in p.hash && !FindsRoom(p, key, size) && size * BIN_CAPACITY * MAX_TREE_HASH_RATIO < |p.tree| {
      var h := FinalSizeIs(p, key, 2 * size);
      i := h + 1;
      OneDoubling(p, size, i);
      RoomFrom(p, key, size, i);
      forall j: nat | j < i ensures !RoomAt(p, key, size, j) {
        if j > 0 { RoomFrom(p, key, size, j); }
      }
    }
  }

  lemma RoomIsRoom(p: Parts, key: Key, size: nat, i: nat)
    requires Bins.PowerOfTwo(size)
    ensures RoomAt(p, key, size, i) <==> Reached(p, size, i) && FindsRoom(p, key, Times(size, i))
  {
    hide Times, Reached;
  }

  lemma RoomFrom(p: Parts, key: Key, size: nat, i: nat)
    requires Bins.PowerOfTwo(size) && i > 0 && size * BIN_CAPACITY * MAX_TREE_HASH_RATIO < |p.tree|
    ensures Bins.PowerOfTwo(2 * size) && (RoomAt(p, key, size, i) <==> RoomAt(p, key, 2 * size, i - 1))
  {
    hide Times, Reached, FindsRoom, RoomAt, Bins.PowerOfTwo;
    OneDoubling(p, size, i);
    RoomIsRoom(p, key, size, i);
    RoomIsRoom(p, key, 2 * size, i - 1);
  }

  /** index_insert(), call by call: a special key gets its value.  An ordinary key of
      the hash table, or one that finds room there after the doublings allowed, gets
      its value there if the storage type is MEM_TYPE.  Otherwise the tree decides: a
      key that it has keeps its old value and the status is 1, another one is added.
      What index_query() then finds is the new value, except where the tree refused
      it or the hash table hides it. */
  lemma PutIsExact(p: Parts, key: Key, value: Value, mem: bool)
    requires Sorted(p)
    ensures Special(key) ==>
              Perform(p, Put(key, value, mem)) == (p.(special := p.special[key := value]), Status(0))
    ensures var (q, a) := Perform(p, Put(key, value, mem));
            !Special(key) ==>
              && q.special == p.special && q.f == p.f
              && (!mem || key in p.hash ==> q.size == p.size)
              && (if mem && (key in p.hash || exists i: nat :: RoomAt(p, key, p.size, i)) then
                    q.hash == p.hash[key := value] && q.tree == p.tree && a == Status(0)
                  else if key in p.tree then q.hash == p.hash && q.tree == p.tree && a == Status(1)
                  else q.hash == p.hash && q.tree == p.tree[key := value] && a == Status(0))
              && (mem && key !in p.hash ==> q.size == FinalSize(p, key, p.size))
    ensures var q := Perform(p, Put(key, value, mem)).0;
            Lookup(q, key) ==
            if Special(key) || (mem && (key in p.hash || exists i: nat :: RoomAt(p, key, p.size, i)))
            then Some(value)
            else if key in p.hash then Some(p.hash[key])
            else if key in p.tree then Some(p.tree[key])
            else Some(value)
  {
    hide Special, FindsRoom, RoomAt, Bins.PowerOfTwo;
    if key !in p.hash { LandsExactly(p, key); }
  }

  /** The status of index_update() is wrong exactly when it overwrites a 0 in the
      tree; the new value is stored all the same. */
  lemma ChangeIsExact(p: Parts, key: Key, value: Value)
    requires Sorted(p)
    ensures var ((q, a), (m, b)) := (Perform(p, Change(key, value)), Reference(View(p), Change(key, value)));
            && View(q) == m
            && (a == b <==> Special(key) || key in p.hash || key !in p.tree || p.tree[key] != 0)
            && a == Status(if Special(key) || key in p.hash || (key in p.tree && p.tree[key] != 0) then 0 else 1)
  {
    hide Special, View, Bins.PowerOfTwo;
    KeepsSorted(p, Change(key, value));
    InView(p, key);
    if Special(key) || key in p.hash || key in p.tree { Changed(p, ChangeAny(p, key, value).0, key, Some(value)); }
  }

  /** One careful call: the parts stay apart, and the map and the answer are those
      of one map. */
  lemma PerformIsReference(p: Parts, op: Op)
    requires Sorted(p) && OneCopy(p) && Careful(View(p), op)
    ensures var (q, a) := Perform(p, op);
            Sorted(q) && OneCopy(q) && (View(q), a) == Reference(View(p), op)
  {
    hide View, Special, Sorted, PutOrdinary, ChangeAny, RemoveAny;
    KeepsSorted(p, op);
    match op
    case Put(key, value, mem) => CarefulPut(p, key, value, mem);
    case Get(key) => InView(p, key);
    case Change(key, value) => CarefulChange(p, key, value);
    case Remove(key) => CarefulRemove(p, key);
    case Expand => SameView(p, p.(size := 2 * p.size));
    case Size => SizeIsExact(p);
  }

  lemma SameView(p: Parts, q: Parts)
    requires q == p.(size := q.size)
    ensures View(q) == View(p)
  {
  }

  lemma CarefulPut(p: Parts, key: Key, value: Value, mem: bool)
    requires Sorted(p) && OneCopy(p) && Careful(View(p), Put(key, value, mem))
    ensures var (q, a) := Perform(p, Put(key, value, mem));
            OneCopy(q) && (View(q), a) == Reference(View(p), Put(key, value, mem))
  {
    hide View, Special, Bins.PowerOfTwo, Lands, FinalSize;
    KeepsSorted(p, Put(key, value, mem));
    InView(p, key);
    PutKeepsOneCopy(p, key, value, mem);
    Changed(p, Perform(p, Put(key, value, mem)).0, key, Some(value));
  }

  lemma CarefulChange(p: Parts, key: Key, value: Value)
    requires Sorted(p) && OneCopy(p) && Careful(View(p), Change(key, value))
    ensures var (q, a) := Perform(p, Change(key, value));
            OneCopy(q) && (View(q), a) == Reference(View(p), Change(key, value))
  {
    hide View, Special, Sorted;
    InView(p, key);
    ChangeIsExact(p, key, value);
  }

  lemma CarefulRemove(p: Parts, key: Key)
    requires Sorted(p) && OneCopy(p)
    ensures var (q, a) := Perform(p, Remove(key));
            OneCopy(q) && (View(q), a) == Reference(View(p), Remove(key))
  {
    hide View, Special, Sorted;
    RemovalIsExact(p, key);
  }

  // ------------------------------------------------------------------- runs

  ghost function Run(p: Parts, ops: seq<Op>): (r: (Parts, seq<Answer>))
    requires Sorted(p)
    ensures Sorted(r.0)
    decreases |ops|
  {
    if ops == [] then (p, [])
    else
      KeepsSorted(p, ops[0]);
      var (q, a) := Perform(p, ops[0]);
      var (r, rest) := Run(q, ops[1..]);
      (r, [a] + rest)
  }

  function ReferenceRun(m: map<Key, Value>, ops: seq<Op>): (map<Key, Value>, seq<Answer>)
    decreases |ops|
  {
    if ops == [] then (m, [])
    else
      var (n, a) := Reference(m, ops[0]);
      var (o, rest) := ReferenceRun(n, ops[1..]);
      (o, [a] + rest)
  }

  predicate CarefulRun(m: map<Key, Value>, ops: seq<Op>)
    decreases |ops|
  {
    ops == [] || (Careful(m, ops[0]) && CarefulRun(Reference(m, ops[0]).0, ops[1..]))
  }

  /** Whatever the hash table and the tree do with the keys, every careful run of the
      index answers call by call as one map does, and no key has two copies. */
  lemma {:induction false} RunIsReferenceRun(p: Parts, ops: seq<Op>)
    requires Sorted(p) && OneCopy(p) && CarefulRun(View(p), ops)
    ensures OneCopy(Run(p, ops).0)
    ensures (View(Run(p, ops).0), Run(p, ops).1) == ReferenceRun(View(p), ops)
    decreases |ops|
  {
    hide Perform, OneCopy, View, Reference, Careful, Special, Bins.PowerOfTwo;
    if ops != [] {
      KeepsSorted(p, ops[0]);
      PerformIsReference(p, ops[0]);
      RunIsReferenceRun(Perform(p, ops[0]).0, ops[1..]);
    }
  }

  // ---------------------------------------------- runs that are not careful

  lemma EmptySorted(f: Key -> nat, size: nat)
    requires Bins.PowerOfTwo(size)
    ensures Sorted(Empty(f, size)) && OneCopy(Empty(f, size)) && View(Empty(f, size)) == map[]
  {
  }

  lemma RunCons(p: Parts, op: Op, q: Parts, a: Answer, ops: seq<Op>)
    requires Sorted(p) && Perform(p, op) == (q, a)
    ensures Sorted(q) && Run(p, [op] + ops) == (Run(q, ops).0, [a] + Run(q, ops).1)
  {
    hide Perform, Special, Bins.PowerOfTwo;
    KeepsSorted(p, op);
    assert ([op] + ops)[1..] == ops;
  }

  lemma RunNone(p: Parts)
    requires Sorted(p)
    ensures Run(p, []) == (p, [])
  {
  }

  /** A key is put into the tree and then inserted with MEM_TYPE: it has two copies,
      index_size() counts it twice, and index_delete() brings back the old value. */
  lemma SecondCopy(f: Key -> nat, size: nat, k: Key, v: Value, w: Value)
    requires Bins.PowerOfTwo(size) && !Special(k)
    ensures Sorted(Empty(f, size))
    ensures !OneCopy(Run(Empty(f, size), [Put(k, v, false), Put(k, w, true)]).0)
    ensures Run(Empty(f, size), [Put(k, v, false), Put(k, w, true), Size, Remove(k), Get(k)]).1 ==
            [Status(0), Status(0), Count(2), Status(0), Found(Some(v))]
  {
    hide Special, Bins.PowerOfTwo, Run, Perform;
    EmptySorted(f, size);
    var p2 := TwoPuts(f, size, k, v, w, []);
    RunNone(p2);
    assert k in p2.hash.Keys && k in p2.tree.Keys;
    assert [Put(k, v, false), Put(k, w, true)] + [] == [Put(k, v, false), Put(k, w, true)];
    var rest := [Size, Remove(k), Get(k)];
    p2 := TwoPuts(f, size, k, v, w, rest);
    LastThree(p2, p2.(hash := map[]), k, v);
    assert [Put(k, v, false), Put(k, w, true)] + rest == [Put(k, v, false), Put(k, w, true), Size, Remove(k), Get(k)];
  }

  lemma TwoPuts(f: Key -> nat, size: nat, k: Key, v: Value, w: Value, rest: seq<Op>) returns (p2: Parts)
    requires Bins.PowerOfTwo(size) && !Special(k) && Sorted(Empty(f, size))
    ensures p2 == Parts(map[k := w], map[k := v], map[], f, size) && Sorted(p2)
    ensures var r := Run(Empty(f, size), [Put(k, v, false), Put(k, w, true)] + rest);
            r == (Run(p2, rest).0, [Status(0), Status(0)] + Run(p2, rest).1)
  {
    hide Special, Bins.PowerOfTwo, Run, Perform;
    var p0 := Empty(f, size);
    var p1 := p0.(tree := map[k := v]);
    p2 := p1.(hash := map[k := w]);
    FirstTwo(f, size, k, v, w);
    RunCons(p0, Put(k, v, false), p1, Status(0), [Put(k, w, true)] + rest);
    RunCons(p1, Put(k, w, true), p2, Status(0), rest);
    assert [Put(k, v, false)] + ([Put(k, w, true)] + rest) == [Put(k, v, false), Put(k, w, true)] + rest;
    var answers := Run(p2, rest).1;
    assert [Status(0)] + ([Status(0)] + answers) == [Status(0), Status(0)] + answers;
  }

  lemma FirstTwo(f: Key -> nat, size: nat, k: Key, v: Value, w: Value)
    requires Bins.PowerOfTwo(size) && !Special(k)
    ensures var p0 := Empty(f, size);
            var p1 := p0.(tree := map[k := v]);
            && Perform(p0, Put(k, v, false)) == (p1, Status(0))
            && Perform(p1, Put(k, w, true)) == (p1.(hash := map[k := w]), Status(0))
  {
    hide Special, Bins.PowerOfTwo, FindsRoom, FinalSize, Lands;
    var p0 := Empty(f, size);
    assert Stored(p0.tree, k, v, false) == map[k := v];
    RoomInEmpty(p0.(tree := map[k := v]), k);
  }

  lemma LastThree(p2: Parts, p3: Parts, k: Key, v: Value)
    requires Sorted(p2) && !Special(k) && p2.special == map[] && p2.tree == map[k := v]
    requires p2.hash.Keys == {k} && p3 == p2.(hash := map[])
    ensures Run(p2, [Size, Remove(k), Get(k)]).1 == [Count(2), Status(0), Found(Some(v))]
  {
    hide Special, Bins.PowerOfTwo, Run;
    assert p2.hash - {k} == map[];
    assert |p2.hash| == |p2.hash.Keys| == 1 && |p2.tree| == 1;
    RunCons(p2, Size, p2, Count(2), [Remove(k), Get(k)]);
    RunCons(p2, Remove(k), p3, Status(0), [Get(k)]);
    RunCons(p3, Get(k), p3, Found(Some(v)), []);
    RunNone(p3);
    assert [Size] + ([Remove(k)] + ([Get(k)] + [])) == [Size, Remove(k), Get(k)];
    assert [Get(k)] + [] == [Get(k)] && [Remove(k)] + [Get(k)] == [Remove(k), Get(k)];
  }

  lemma RoomInEmpty(p: Parts, k: Key)
    requires Bins.PowerOfTwo(p.size) && p.hash == map[]
    ensures FindsRoom(p, k, p.size) && FinalSize(p, k, p.size) == p.size && Lands(p, k)
  {
    hide Bins.PowerOfTwo, Bins.BinOf;
    assert Hash.OfBin(p.hash.Keys, Bins.BinOf(p.f(k), p.size), p.f, p.size) == {};
  }

  /** The value 0 is put into the tree and overwritten: index_update() says that it
      failed, and has stored the new value. */
  lemma WrongStatus(f: Key -> nat, size: nat, k: Key, v: Value)
    requires Bins.PowerOfTwo(size) && !Special(k)
    ensures Sorted(Empty(f, size))
    ensures Run(Empty(f, size), [Put(k, 0, false), Change(k, v), Get(k)]).1 ==
            [Status(0), Status(1), Found(Some(v))]
  {
    hide Special, Bins.PowerOfTwo, Sorted, Run;
    EmptySorted(f, size);
    var p0 := Empty(f, size);
    var p1, p2 := p0.(tree := map[k := 0]), p0.(tree := map[k := v]);
    assert Stored(map[], k, 0, false) == map[k := 0];
    assert Perform(p0, Put(k, 0, false)) == (p1, Status(0));
    assert map[k := 0][k := v] == map[k := v];
    assert Perform(p1, Change(k, v)) == (p2, Status(1));
    assert Perform(p2, Get(k)) == (p2, Found(Some(v)));
    RunCons(p0, Put(k, 0, false), p1, Status(0), [Change(k, v), Get(k)]);
    RunCons(p1, Change(k, v), p2, Status(1), [Get(k)]);
    RunCons(p2, Get(k), p2, Found(Some(v)), []);
    RunNone(p2);
    assert [Get(k)] + [] == [Get(k)] && [Change(k, v)] + [Get(k)] == [Change(k, v), Get(k)];
    assert [Put(k, 0, false)] + [Change(k, v), Get(k)] == [Put(k, 0, false), Change(k, v), Get(k)];
  }
}
