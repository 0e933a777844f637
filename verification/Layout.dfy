/** The four node layouts of sequential/art.h as values: what byte-to-child map the
    keys and children arrays of a node stand for, and what adding and removing one
    child does to the arrays. */
module Layout {
  import opened Trie

  /** keys and children of art_node4 ... art_node256; a NULL child is None.  n is
      num_children, a uint8_t: 256 children are counted as 0. */
  datatype Layout<T> = Layout(kind: Kind, n: nat, keys: seq<nat>, slots: seq<Option<T>>)

  function KeysLength(kind: Kind): nat {
    match kind case Node4 => 4 case Node16 => 16 case Node48 => 256 case Node256 => 0
  }

  function SlotsLength(kind: Kind): nat {
    match kind case Node4 => 4 case Node16 => 16 case Node48 => 48 case Node256 => 256
  }

  predicate Sized<T>(l: Layout<T>) {
    |l.keys| == KeysLength(l.kind) && |l.slots| == SlotsLength(l.kind)
  }

  predicate Small(kind: Kind) { kind.Node4? || kind.Node16? }

  // --------------------------------------------------------------- the view

  /** Sorted arrays without gaps (Node4 and Node16). */
  ghost predicate SmallOk<T>(l: Layout<T>) {
    && Sized(l) && Small(l.kind) && l.n <= |l.slots|
    && (forall i :: 0 <= i < l.n ==> l.keys[i] < 256 && l.slots[i].Some?)
    && forall i, j :: 0 <= i < j < l.n ==> l.keys[i] < l.keys[j]
  }

  /** An index table that is injective onto the non-null slots (Node48). */
  ghost predicate IndexedOk<T>(l: Layout<T>) {
    && Sized(l) && l.kind.Node48?
    && (forall b :: 0 <= b < 256 && l.keys[b] != 0 ==> l.keys[b] <= 48 && l.slots[l.keys[b] - 1].Some?)
    && (forall b, c :: 0 <= b < c < 256 && l.keys[b] != 0 ==> l.keys[b] != l.keys[c])
    && (forall j :: 0 <= j < 48 && l.slots[j].Some? ==> Used(l.keys, j + 1))
  }

  /** Some byte's index table entry is p. */
  ghost predicate Used(keys: seq<nat>, p: nat) { exists b :: 0 <= b < |keys| && keys[b] == p }

  lemma UsedAfter(keys: seq<nat>, b: nat, p: nat, q: nat)
    requires b < |keys| && Used(keys, q) && keys[b] != q
    ensures Used(keys[b := p], q)
  {
    var c :| 0 <= c < |keys| && keys[c] == q;
    assert keys[b := p][c] == q;
  }

  lemma UsedNow(keys: seq<nat>, b: nat, p: nat)
    requires b < |keys|
    ensures Used(keys[b := p], p)
  {
    assert keys[b := p][b] == p;
  }

  ghost predicate Ok<T>(l: Layout<T>) {
    match l.kind
    case Node4 => SmallOk(l)
    case Node16 => SmallOk(l)
    case Node48 => IndexedOk(l)
    case Node256 => Sized(l)
  }

  /** The index find_child() arrives at, if any. */
  function Position(keys: seq<nat>, n: nat, b: nat): (i: nat)
    requires n <= |keys|
    ensures i <= n && (i < n ==> keys[i] == b) && forall j :: 0 <= j < i ==> keys[j] != b
    decreases n
  {
    if n == 0 then 0
    else
      var i := Position(keys, n - 1, b);
      if i < n - 1 || keys[n - 1] == b then i else n
  }

  ghost function Child<T>(l: Layout<T>, b: Byte): Option<T>
    requires Ok(l)
  {
    match l.kind
    case Node48 => if l.keys[b] == 0 then None else l.slots[l.keys[b] - 1]
    case Node256 => l.slots[b]
    case _ =>
      var i := Position(l.keys, l.n, b);
      if i < l.n then l.slots[i] else None
  }

  /** The byte-to-child map of a node. */
  ghost function View<T>(l: Layout<T>): map<Byte, T>
    requires Ok(l)
  {
    map b: Byte | b in Bytes(256) && Child(l, b).Some? :: Child(l, b).value
  }

  lemma InView<T>(l: Layout<T>, b: Byte)
    requires Ok(l)
    ensures Child(l, b) == if b in View(l) then Some(View(l)[b]) else None
  {
  }

  /** Layouts with the same children have the same view. */
  lemma ViewIs<T>(l: Layout<T>, m: map<Byte, T>)
    requires Ok(l) && forall b: Byte :: Child(l, b) == if b in m then Some(m[b]) else None
    ensures View(l) == m
  {
    hide Ok, Child, View;
    forall b: Byte ensures (b in View(l) <==> b in m) && (b in m ==> View(l)[b] == m[b]) { InView(l, b); }
    assert View(l).Keys == m.Keys;
  }

  lemma SmallChild<T>(l: Layout<T>, i: nat)
    requires SmallOk(l) && i < l.n
    ensures Child(l, l.keys[i]) == l.slots[i]
  {
    var j := Position(l.keys, l.n, l.keys[i]);
    assert !(j < i) && !(i < j);
  }

  lemma SmallAbsent<T>(l: Layout<T>, b: Byte)
    requires SmallOk(l) && forall i :: 0 <= i < l.n ==> l.keys[i] != b
    ensures Child(l, b) == None
  {
  }

  // ------------------------------------------------------------ child counts

  ghost function FirstBytes(keys: seq<nat>, n: nat): set<nat>
    requires n <= |keys|
  {
    if n == 0 then {} else FirstBytes(keys, n - 1) + {keys[n - 1]}
  }

  lemma {:induction false} FirstBytesCount(keys: seq<nat>, n: nat)
    requires n <= |keys| && forall i, j :: 0 <= i < j < n ==> keys[i] < keys[j]
    ensures |FirstBytes(keys, n)| == n
    ensures forall b :: b in FirstBytes(keys, n) ==> n > 0 && b <= keys[n - 1]
  {
    if n > 0 { FirstBytesCount(keys, n - 1); }
  }

  lemma {:induction false} InFirstBytes(keys: seq<nat>, n: nat, b: nat)
    requires n <= |keys|
    ensures b in FirstBytes(keys, n) <==> Position(keys, n, b) < n
  {
    if n > 0 { InFirstBytes(keys, n - 1, b); }
  }

  /** num_children is the number of children, modulo 256. */
  ghost predicate Counted<T>(l: Layout<T>)
    requires Ok(l)
  {
    l.n == |View(l)| % 256
  }

  lemma SmallCounted<T>(l: Layout<T>)
    requires SmallOk(l)
    ensures Ok(l) && |View(l)| == l.n && Counted(l)
  {
    hide View, FirstBytes, Position, SmallOk, Child;
    SmallSorted(l);
    FirstBytesCount(l.keys, l.n);
    forall b: nat ensures b in FirstBytes(l.keys, l.n) <==> b < 256 && b in View(l) { SmallView(l, b); }
    SameSize(View(l).Keys, FirstBytes(l.keys, l.n));
  }

  lemma SmallSorted<T>(l: Layout<T>)
    requires SmallOk(l)
    ensures Ok(l) && l.n <= |l.keys| && l.n <= 16 && forall i, j :: 0 <= i < j < l.n ==> l.keys[i] < l.keys[j]
  {
  }

  lemma SmallView<T>(l: Layout<T>, b: nat)
    requires SmallOk(l)
    ensures Ok(l) && l.n <= |l.keys| && (b in FirstBytes(l.keys, l.n) <==> b < 256 && b in View(l))
  {
    InFirstBytes(l.keys, l.n, b);
    if b < 256 { InView(l, b); }
  }

  lemma {:induction false} SameSize(a: set<Byte>, b: set<nat>)
    requires forall x: Byte :: x in a <==> x in b
    requires forall x :: x in b ==> x < 256
    ensures |a| == |b|
  {
    if a == {} {
      assert forall x: nat :: x in b ==> x < 256;
      assert forall x: Byte :: x !in b;
      assert b == {};
    } else {
      var x: Byte :| x in a;
      SameSize(a - {x}, b - {x});
    }
  }

  /** The bytes whose index table entry is at most j. */
  ghost function Under(keys: seq<nat>, j: nat): set<Byte>
    requires |keys| == 256
  {
    set b: Byte | b in Bytes(256) && 0 < keys[b] <= j
  }

  lemma IndexedView<T>(l: Layout<T>)
    requires IndexedOk(l)
    ensures Ok(l) && |l.keys| == 256 && View(l).Keys == Under(l.keys, 48) && OneKeyEach(l.keys)
  {
    hide Bytes, Used, View;
    forall b: Byte ensures b in View(l) <==> b in Under(l.keys, 48) { InView(l, b); }
  }

  ghost predicate OneKeyEach(keys: seq<nat>) {
    |keys| == 256 && forall b, c :: 0 <= b < c < 256 && keys[b] != 0 ==> keys[b] != keys[c]
  }

  lemma UnderStep(keys: seq<nat>, j: nat)
    requires OneKeyEach(keys) && j > 0
    ensures |Under(keys, j)| == |Under(keys, j - 1)| + (if Used(keys, j) then 1 else 0)
  {
    hide Bytes;
    if Used(keys, j) {
      var b: Byte :| keys[b] == j;
      assert Under(keys, j) == Under(keys, j - 1) + {b};
    } else {
      assert Under(keys, j) == Under(keys, j - 1);
    }
  }

  /** An injective table has at most j bytes at slots below j, and exactly j if it
      covers them. */
  lemma {:induction false} UnderCount(keys: seq<nat>, j: nat)
    requires |keys| == 256 && OneKeyEach(keys)
    ensures |Under(keys, j)| <= j
    ensures (forall i :: 0 < i <= j ==> Used(keys, i)) ==> |Under(keys, j)| == j
  {
    hide OneKeyEach, Under, Used;
    if j == 0 {
      UnderZero(keys);
    } else {
      UnderCount(keys, j - 1);
      UnderStep(keys, j);
    }
  }

  lemma UnderZero(keys: seq<nat>)
    requires |keys| == 256
    ensures Under(keys, 0) == {}
  {
  }

  lemma IndexedCounted<T>(l: Layout<T>)
    requires IndexedOk(l)
    ensures Ok(l) && |View(l)| <= 48 && (Counted(l) ==> |View(l)| == l.n)
  {
    hide View, Under, IndexedOk, OneKeyEach, Child, Used;
    IndexedView(l);
    UnderCount(l.keys, 48);
    assert |View(l)| == |View(l).Keys|;
  }

  /** A full Node48 has 48 children: with fewer there is a free slot. */
  lemma FreeSlot<T>(l: Layout<T>)
    requires IndexedOk(l) && |View(l)| < 48
    ensures exists j :: 0 <= j < 48 && l.slots[j].None?
  {
    hide View, Under, OneKeyEach, Child, Used;
    IndexedView(l);
    UnderCount(l.keys, 48);
    assert |View(l)| == |View(l).Keys|;
    if forall j :: 0 <= j < 48 ==> l.slots[j].Some? {
      forall i | 0 < i <= 48 ensures Used(l.keys, i) {
        assert l.slots[i - 1].Some?;
      }
    }
  }

  // ------------------------------------------------- adding and removing one

  /** memmove() of [i..n) up by one, and x in the gap. */
  function InsertAt<A>(s: seq<A>, n: nat, i: nat, x: A): (r: seq<A>)
    requires i <= n < |s|
    ensures |r| == |s|
    ensures forall k :: 0 <= k < |s| ==> r[k] == if k < i || k > n then s[k] else if k == i then x else s[k - 1]
  {
    s[..i] + [x] + s[i..n] + s[n + 1..]
  }

  /** memmove() of [i+1..n) down by one; what was at n-1 stays there. */
  function RemoveAt<A>(s: seq<A>, n: nat, i: nat): (r: seq<A>)
    requires i < n <= |s|
    ensures |r| == |s|
    ensures forall k :: 0 <= k < |s| ==> r[k] == if k < i || k >= n - 1 then s[k] else s[k + 1]
  {
    s[..i] + s[i + 1..n] + s[n - 1..]
  }

  function SmallAdd<T>(l: Layout<T>, i: nat, b: Byte, x: T): Layout<T>
    requires l.n < |l.keys| && l.n < |l.slots| && i <= l.n
  {
    Layout(l.kind, l.n + 1, InsertAt(l.keys, l.n, i, b), InsertAt(l.slots, l.n, i, Some(x)))
  }

  lemma SmallAddOk<T>(l: Layout<T>, i: nat, b: Byte, x: T)
    requires SmallOk(l) && l.n < |l.slots| && i <= l.n
    requires (forall j :: 0 <= j < i ==> l.keys[j] < b) && forall j :: i <= j < l.n ==> b < l.keys[j]
    ensures SmallOk(SmallAdd(l, i, b, x))
    ensures View(SmallAdd(l, i, b, x)) == View(l)[b := x]
  {
    hide View, Child;
    var r := SmallAdd(l, i, b, x);
    SmallAddKeeps(l, i, b, x);
    forall c: Byte ensures Child(r, c) == if c in View(l)[b := x] then Some(View(l)[b := x][c]) else None {
      InView(l, c);
      SmallAddChild(l, r, i, b, x, c);
    }
    ViewIs(r, View(l)[b := x]);
  }

  lemma SmallAddKeeps<T>(l: Layout<T>, i: nat, b: Byte, x: T)
    requires SmallOk(l) && l.n < |l.slots| && i <= l.n
    requires (forall j :: 0 <= j < i ==> l.keys[j] < b) && forall j :: i <= j < l.n ==> b < l.keys[j]
    ensures SmallOk(SmallAdd(l, i, b, x))
  {
    InsertSorted(l.keys, l.n, i, b);
  }

  lemma InsertSorted(keys: seq<nat>, n: nat, i: nat, b: nat)
    requires i <= n < |keys| && forall j, k :: 0 <= j < k < n ==> keys[j] < keys[k]
    requires (forall j :: 0 <= j < i ==> keys[j] < b) && forall j :: i <= j < n ==> b < keys[j]
    ensures forall j, k :: 0 <= j < k < n + 1 ==> InsertAt(keys, n, i, b)[j] < InsertAt(keys, n, i, b)[k]
  {
  }

  lemma SmallAddChild<T>(l: Layout<T>, r: Layout<T>, i: nat, b: Byte, x: T, c: Byte)
    requires SmallOk(l) && SmallOk(r) && l.n < |l.slots| && i <= l.n && r == SmallAdd(l, i, b, x)
    ensures Child(r, c) == if c == b then Some(x) else Child(l, c)
  {
    hide Child;
    var j := Position(l.keys, l.n, c);
    if c == b {
      SmallAddNew(l, r, i, b, x);
    } else if j < l.n {
      SmallChild(l, j);
      SmallAddMoved(l, r, i, b, x, j);
    } else {
      SmallAbsent(l, c);
      SmallAbsent(r, c);
    }
  }

  lemma SmallAddNew<T>(l: Layout<T>, r: Layout<T>, i: nat, b: Byte, x: T)
    requires SmallOk(r) && l.n < |l.slots| && l.n < |l.keys| && i <= l.n && r == SmallAdd(l, i, b, x)
    ensures Child(r, b) == Some(x)
  {
    hide Child;
    SmallChild(r, i);
  }

  lemma SmallAddMoved<T>(l: Layout<T>, r: Layout<T>, i: nat, b: Byte, x: T, j: nat)
    requires SmallOk(l) && SmallOk(r) && l.n < |l.slots| && i <= l.n && r == SmallAdd(l, i, b, x) && j < l.n
    ensures Child(r, l.keys[j]) == l.slots[j]
  {
    hide Child;
    SmallChild(r, if j < i then j else j + 1);
  }

  function SmallRemove<T>(l: Layout<T>, i: nat): Layout<T>
    requires i < l.n <= |l.keys| && l.n <= |l.slots|
  {
    Layout(l.kind, l.n - 1, RemoveAt(l.keys, l.n, i), RemoveAt(l.slots, l.n, i))
  }

  lemma SmallRemoveOk<T>(l: Layout<T>, i: nat)
    requires SmallOk(l) && i < l.n
    ensures SmallOk(SmallRemove(l, i))
    ensures View(SmallRemove(l, i)) == View(l) - {l.keys[i]}
  {
    hide View, Child;
    var r, b: Byte := SmallRemove(l, i), l.keys[i];
    SmallRemoveKeeps(l, i);
    forall c: Byte ensures Child(r, c) == if c in View(l) - {b} then Some((View(l) - {b})[c]) else None {
      InView(l, c);
      SmallRemoveChild(l, r, i, c);
    }
    ViewIs(r, View(l) - {b});
  }

  lemma SmallRemoveKeeps<T>(l: Layout<T>, i: nat)
    requires SmallOk(l) && i < l.n
    ensures SmallOk(SmallRemove(l, i))
  {
  }

  lemma SmallRemoveChild<T>(l: Layout<T>, r: Layout<T>, i: nat, c: Byte)
    requires SmallOk(l) && SmallOk(r) && i < l.n && r == SmallRemove(l, i)
    ensures Child(r, c) == if c == l.keys[i] then None else Child(l, c)
  {
    hide Child;
    var j := Position(l.keys, l.n, c);
    if j < l.n && j != i {
      SmallChild(l, j);
      SmallRemoveMoved(l, r, i, j);
    } else {
      forall m | 0 <= m < r.n ensures r.keys[m] != c {
        assert r.keys[m] == l.keys[if m < i then m else m + 1];
      }
      SmallAbsent(r, c);
      if j == l.n { SmallAbsent(l, c); }
    }
  }

  lemma SmallRemoveMoved<T>(l: Layout<T>, r: Layout<T>, i: nat, j: nat)
    requires SmallOk(l) && SmallOk(r) && i < l.n && r == SmallRemove(l, i) && j < l.n && j != i
    ensures Child(r, l.keys[j]) == l.slots[j]
  {
    hide Child;
    SmallChild(r, if j < i then j else j - 1);
  }

  function IndexedAdd<T>(l: Layout<T>, pos: nat, b: Byte, x: T): Layout<T>
    requires |l.keys| == 256 && pos < |l.slots|
  {
    Layout(l.kind, l.n + 1, l.keys[b := pos + 1], l.slots[pos := Some(x)])
  }

  lemma IndexedAddOk<T>(l: Layout<T>, pos: nat, b: Byte, x: T)
    requires IndexedOk(l) && pos < 48 && l.slots[pos].None? && l.keys[b] == 0
    ensures IndexedOk(IndexedAdd(l, pos, b, x))
    ensures View(IndexedAdd(l, pos, b, x)) == View(l)[b := x]
  {
    hide View, Child, Used;
    var r := IndexedAdd(l, pos, b, x);
    IndexedAddKeeps(l, pos, b, x);
    forall c: Byte ensures Child(r, c) == if c in View(l)[b := x] then Some(View(l)[b := x][c]) else None {
      InView(l, c);
      IndexedAddChild(l, pos, b, x, c);
    }
    ViewIs(r, View(l)[b := x]);
  }

  lemma IndexedAddKeeps<T>(l: Layout<T>, pos: nat, b: Byte, x: T)
    requires IndexedOk(l) && pos < 48 && l.slots[pos].None? && l.keys[b] == 0
    ensures IndexedOk(IndexedAdd(l, pos, b, x))
  {
    hide Used;
    var r := IndexedAdd(l, pos, b, x);
    UsedNow(l.keys, b, pos + 1);
    forall j | 0 <= j < 48 && r.slots[j].Some? ensures Used(r.keys, j + 1) {
      if j != pos { UsedAfter(l.keys, b, pos + 1, j + 1); }
    }
  }

  lemma IndexedAddChild<T>(l: Layout<T>, pos: nat, b: Byte, x: T, c: Byte)
    requires IndexedOk(l) && pos < 48 && l.slots[pos].None? && l.keys[b] == 0
    requires IndexedOk(IndexedAdd(l, pos, b, x))
    ensures Child(IndexedAdd(l, pos, b, x), c) == if c == b then Some(x) else Child(l, c)
  {
    hide Used;
  }

  function IndexedRemove<T>(l: Layout<T>, b: Byte): Layout<T>
    requires |l.keys| == 256 && 0 < l.keys[b] <= |l.slots| && l.n > 0
  {
    Layout(l.kind, l.n - 1, l.keys[b := 0], l.slots[l.keys[b] - 1 := None])
  }

  lemma IndexedRemoveOk<T>(l: Layout<T>, b: Byte)
    requires IndexedOk(l) && l.keys[b] != 0 && l.n > 0
    ensures IndexedOk(IndexedRemove(l, b))
    ensures View(IndexedRemove(l, b)) == View(l) - {b}
  {
    hide View, Child, Used;
    var r := IndexedRemove(l, b);
    IndexedRemoveKeeps(l, b);
    forall c: Byte ensures Child(r, c) == if c in View(l) - {b} then Some((View(l) - {b})[c]) else None {
      InView(l, c);
      IndexedRemoveChild(l, b, c);
    }
    ViewIs(r, View(l) - {b});
  }

  lemma IndexedRemoveKeeps<T>(l: Layout<T>, b: Byte)
    requires IndexedOk(l) && l.keys[b] != 0 && l.n > 0
    ensures IndexedOk(IndexedRemove(l, b))
  {
    hide Used;
    var r := IndexedRemove(l, b);
    forall j | 0 <= j < 48 && r.slots[j].Some? ensures Used(r.keys, j + 1) {
      UsedAfter(l.keys, b, 0, j + 1);
    }
  }

  lemma IndexedRemoveChild<T>(l: Layout<T>, b: Byte, c: Byte)
    requires IndexedOk(l) && l.keys[b] != 0 && l.n > 0 && IndexedOk(IndexedRemove(l, b))
    ensures Child(IndexedRemove(l, b), c) == if c == b then None else Child(l, c)
  {
    hide Used;
    assert c != b ==> l.keys[c] == 0 || l.keys[c] != l.keys[b];
  }

  lemma DirectIs<T>(l: Layout<T>, r: Layout<T>, b: Byte, x: Option<T>)
    requires Sized(l) && l.kind.Node256? && r.kind.Node256? && r.keys == l.keys && r.slots == l.slots[b := x]
    ensures View(r) == if x.Some? then View(l)[b := x.value] else View(l) - {b}
  {
    var m := if x.Some? then View(l)[b := x.value] else View(l) - {b};
    forall c: Byte ensures Child(r, c) == if c in m then Some(m[c]) else None {
      InView(l, c);
    }
    ViewIs(r, m);
  }

  /** Layouts of any two kinds with the same children. */
  lemma SameView<T>(l: Layout<T>, r: Layout<T>)
    requires Ok(l) && Ok(r) && forall b: Byte :: Child(l, b) == Child(r, b)
    ensures View(l) == View(r)
  {
    hide Ok, Child, View;
    forall b: Byte ensures Child(r, b) == if b in View(l) then Some(View(l)[b]) else None { InView(l, b); }
    ViewIs(r, View(l));
  }
}
