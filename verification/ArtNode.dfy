/** The nodes of sequential/art.c in the heap, buffers off: find_child(),
    add_child*() and remove_child*() working in place on the arrays of a node.
    Where the C code hands back a replacement node through `ref`, these methods
    return it. */
module ArtNode {
  import opened Trie
  import opened Layout

  const MAX_PREFIX_LEN := KEY_LEN

  class LeafObj {
    const key: Key
    var value: Value

    constructor (key: Key, value: Value)
      ensures this.key == key && this.value == value
    {
      this.key, this.value := key, value;
    }
  }

  /** A child pointer with its tag bit. */
  datatype Ref = LeafRef(leaf: LeafObj) | NodeRef(node: NodeObj)

  /** memmove(a+i+1, a+i, n-i) and a[i] = x. */
  method ShiftUp<A>(a: array<A>, n: nat, i: nat, x: A)
    requires i <= n < a.Length
    modifies a
    ensures a[..] == InsertAt(old(a[..]), n, i, x)
  {
    forall k | i < k <= n { a[k] := a[k - 1]; }
    a[i] := x;
    assert a[..] == InsertAt(old(a[..]), n, i, x);
  }

  /** memmove(a+i, a+i+1, n-1-i). */
  method ShiftDown<A>(a: array<A>, n: nat, i: nat)
    requires i < n <= a.Length
    modifies a
    ensures a[..] == RemoveAt(old(a[..]), n, i)
  {
    forall k | i <= k < n - 1 { a[k] := a[k + 1]; }
    assert a[..] == RemoveAt(old(a[..]), n, i);
  }

  class NodeObj {
    const kind: Kind
    var numChildren: nat
    var partialLen: nat
    const partial: array<Byte>
    const keys: array<nat>
    const children: array<Option<Ref>>
    /** The objects below each child. */
    ghost var sub: map<Byte, set<object>>

    ghost function L(): Layout<Ref>
      reads this, keys, children
    {
      Layout(kind, numChildren, keys[..], children[..])
    }

    ghost function Prefix(): seq<Byte>
      reads this, partial
      requires partialLen <= partial.Length
    {
      partial[..partialLen]
    }

    ghost function Own(): set<object> { {this, partial, keys, children} }

    /** The arrays are what the header says. */
    ghost predicate Sound()
      reads this, partial, keys, children
    {
      && keys as object != children as object && keys as object != partial as object
      && children as object != partial as object
      && partial.Length == MAX_PREFIX_LEN && partialLen <= MAX_PREFIX_LEN
      && Ok(L()) && Counted(L())
    }

    /** alloc_node(): everything zero but the type. */
    constructor (kind: Kind)
      ensures this.kind == kind && numChildren == 0 && partialLen == 0 && partial.Length == MAX_PREFIX_LEN
      ensures keys.Length == KeysLength(kind) && children.Length == SlotsLength(kind)
      ensures (forall i :: 0 <= i < keys.Length ==> keys[i] == 0)
      ensures (forall i :: 0 <= i < children.Length ==> children[i].None?)
      ensures fresh(partial) && fresh(keys) && fresh(children)
      ensures keys as object != children as object && keys as object != partial as object
      ensures children as object != partial as object
      ensures sub == map[]
    {
      this.kind, numChildren, partialLen := kind, 0, 0;
      var noBytes := new Byte[MAX_PREFIX_LEN](_ => 0);
      var noKeys := new nat[KeysLength(kind)](_ => 0);
      var noChildren := new Option<Ref>[SlotsLength(kind)](_ => None);
      partial, keys, children, sub := noBytes, noKeys, noChildren, map[];
    }

    /** find_child(): the slot of byte c, or -1. */
    method FindChild(c: Byte) returns (pos: int)
      requires Sound()
      ensures -1 <= pos < children.Length
      ensures pos == -1 <==> c !in View(L())
      ensures pos >= 0 ==> children[pos] == Some(View(L())[c])
      ensures pos >= 0 && Small(kind) ==> pos < numChildren <= keys.Length && keys[pos] == c
      ensures pos >= 0 && kind.Node48? ==> keys.Length == 256 && keys[c] == pos + 1
      ensures pos >= 0 && kind.Node256? ==> pos == c
    {
      hide View, Used, Counted, SmallOk;
      InView(L(), c);
      match kind {
        case Node4 => pos := FindSmall(c);
        case Node16 => pos := FindSmall(c);
        case Node48 =>
          var entry: int := keys[c];
          pos := entry - 1;
        case Node256 => pos := if children[c].Some? then c else -1;
      }
    }

    method FindSmall(c: Byte) returns (pos: int)
      requires Ok(L()) && Small(kind)
      ensures -1 <= pos < numChildren <= children.Length && numChildren <= keys.Length
      ensures pos == -1 <==> Child(L(), c).None?
      ensures pos >= 0 ==> children[pos] == Child(L(), c) && keys[pos] == c
    {
      hide View, Child;
      pos := 0;
      while pos < numChildren && keys[pos] != c
        invariant 0 <= pos <= numChildren && forall i :: 0 <= i < pos ==> keys[i] != c
      {
        pos := pos + 1;
      }
      if pos == numChildren {
        SmallAbsent(L(), c);
        pos := -1;
      } else {
        SmallChild(L(), pos);
      }
    }

    /** copy_header(). */
    method CopyHeader(src: NodeObj)
      requires src != this && src.partial != partial
      requires partial.Length == src.partial.Length == MAX_PREFIX_LEN && src.partialLen <= MAX_PREFIX_LEN
      modifies this`numChildren, this`partialLen, this`sub, partial
      ensures numChildren == src.numChildren && partialLen == src.partialLen && Prefix() == src.Prefix()
      ensures sub == src.sub
    {
      numChildren, partialLen, sub := src.numChildren, src.partialLen, src.sub;
      forall i | 0 <= i < partialLen { partial[i] := src.partial[i]; }
    }

    /** The part of add_child4() and add_child16() for a node with room. */
    method AddSmall(c: Byte, child: Ref)
      requires Sound() && Small(kind) && numChildren < children.Length && c !in View(L())
      modifies this`numChildren, keys, children
      ensures Sound() && View(L()) == old(View(L()))[c := child]
    {
      hide View, Child, InsertAt, Counted;
      ghost var l := L();
      var idx := Gap(c);
      ShiftUp(keys, numChildren, idx, c);
      ShiftUp(children, numChildren, idx, Some(child));
      numChildren := numChildren + 1;
      SmallAddOk(l, idx, c, child);
      assert L() == SmallAdd(l, idx, c, child);
      SmallCounted(L());
    }

    method Gap(c: Byte) returns (idx: nat)
      requires Ok(L()) && Small(kind) && c !in View(L())
      ensures idx <= numChildren <= keys.Length
      ensures forall i :: 0 <= i < idx ==> keys[i] < c
      ensures forall i :: idx <= i < numChildren ==> c < keys[i]
    {
      hide View, Child;
      InView(L(), c);
      idx := 0;
      while idx < numChildren && !(c < keys[idx])
        invariant 0 <= idx <= numChildren && forall i :: 0 <= i < idx ==> keys[i] < c
      {
        SmallChild(L(), idx);
        idx := idx + 1;
      }
    }
  
    /** The part of add_child48() for a node with room. */
    method AddIndexed(c: Byte, child: Ref)
      requires Sound() && kind.Node48? && numChildren < 48 && c !in View(L())
      modifies this`numChildren, keys, children
      ensures Sound() && View(L()) == old(View(L()))[c := child]
    {
      hide View, Used;
      ghost var l := L();
      InView(l, c);
      IndexedCounted(l);
      FreeSlot(l);
      var pos := 0;
      while children[pos].Some?
        invariant 0 <= pos < 48 && forall j :: 0 <= j < pos ==> children[j].Some?
        decreases 48 - pos
      {
        pos := pos + 1;
      }
      children[pos] := Some(child);
      keys[c] := pos + 1;
      numChildren := numChildren + 1;
      IndexedAddOk(l, pos, c, child);
      assert L() == IndexedAdd(l, pos, c, child);
      OneMore(View(l), c, child);
    }

    static lemma OneMore(m: map<Byte, Ref>, c: Byte, child: Ref)
      requires c !in m
      ensures |m[c := child]| == |m| + 1
    {
      assert m[c := child].Keys == m.Keys + {c};
      assert |m[c := child]| == |m[c := child].Keys|;
    }

    static lemma OneLess(m: map<Byte, Ref>, c: Byte)
      requires c in m
      ensures |m - {c}| == |m| - 1
    {
      assert (m - {c}).Keys == m.Keys - {c};
      assert |m - {c}| == |(m - {c}).Keys|;
    }

    /** add_child256(): num_children is a uint8_t and wraps at 256. */
    method AddDirect(c: Byte, child: Ref)
      requires Sound() && kind.Node256? && c !in View(L())
      modifies this`numChildren, children
      ensures Sound() && View(L()) == old(View(L()))[c := child]
    {
      hide View;
      ghost var l := L();
      numChildren := (numChildren + 1) % 256;
      children[c] := Some(child);
      DirectIs(l, L(), c, Some(child));
      OneMore(View(l), c, child);
    }

    ghost predicate Replaces(n: NodeObj)
      reads this, partial, keys, children, n, n.partial, n.keys, n.children
    {
      Sound() && n.Sound() && View(L()) == View(n.L()) && Prefix() == n.Prefix() && sub == n.sub
    }

    /** The growth step of add_child4(): copy the children and the keys. */
    method To16() returns (r: NodeObj)
      requires Sound() && kind.Node4? && numChildren == 4
      ensures fresh(r.Own()) && r.kind == Node16 && r.numChildren == 4 && r.children.Length == 16 && r.Replaces(this)
    {
      hide View, Child, Counted;
      r := new NodeObj(Node16);
      forall i | 0 <= i < numChildren { r.children[i] := children[i]; }
      forall i | 0 <= i < numChildren { r.keys[i] := keys[i]; }
      r.CopyHeader(this);
      forall b: Byte ensures Child(L(), b) == Child(r.L(), b) { SmallSame(L(), r.L(), b); }
      SameView(L(), r.L());
      SmallCounted(r.L());
    }

    static lemma SmallSame(l: Layout<Ref>, r: Layout<Ref>, b: Byte)
      requires SmallOk(l) && SmallOk(r) && l.n == r.n
      requires forall i :: 0 <= i < l.n ==> l.keys[i] == r.keys[i] && l.slots[i] == r.slots[i]
      ensures Child(l, b) == Child(r, b)
    {
      hide Child;
      var i := Position(l.keys, l.n, b);
      if i < l.n {
        SmallChild(l, i);
        SmallChild(r, i);
      } else {
        SmallAbsent(l, b);
        SmallAbsent(r, b);
      }
    }

    /** The growth step of add_child16(): copy the children, build the index table. */
    method To48() returns (r: NodeObj)
      requires Sound() && kind.Node16? && numChildren == 16
      ensures fresh(r.Own()) && r.kind == Node48 && r.numChildren == 16 && r.Replaces(this)
    {
      hide View, Child, Counted, Used, Indexes;
      r := Fill48();
      IndexedFromSmall(L(), r.L());
    }

    method Fill48() returns (r: NodeObj)
      requires Sound() && kind.Node16? && numChildren == 16
      ensures fresh(r.Own()) && r.kind == Node48 && r.numChildren == 16 && Indexes(L(), r.L())
      ensures r.partial.Length == MAX_PREFIX_LEN && r.partialLen == partialLen && r.Prefix() == Prefix() && r.sub == sub
      ensures r.keys as object != r.children as object && r.keys as object != r.partial as object
      ensures r.children as object != r.partial as object
    {
      hide View, Child, Counted, Used;
      r := new NodeObj(Node48);
      forall i | 0 <= i < numChildren { r.children[i] := children[i]; }
      FillIndex(r.keys);
      r.CopyHeader(this);
    }

    /** r's table leads from the bytes in l's sorted array to the same slots. */
    ghost static predicate Indexes(l: Layout<Ref>, r: Layout<Ref>) {
      && SmallOk(l) && l.kind.Node16? && Sized(r) && r.kind.Node48? && l.n == r.n == 16
      && (forall i :: 0 <= i < 48 ==> r.slots[i] == if i < 16 then l.slots[i] else None)
      && (forall b :: 0 <= b < 256 ==> r.keys[b] <= 16)
      && (forall b :: 0 <= b < 256 && r.keys[b] != 0 ==> l.keys[r.keys[b] - 1] == b)
      && (forall j :: 0 <= j < 16 ==> r.keys[l.keys[j]] == j + 1)
    }

    method FillIndex(table: array<nat>)
      requires SmallOk(L()) && kind.Node16? && numChildren == 16 && table.Length == 256 && table != keys
      requires forall b :: 0 <= b < 256 ==> table[b] == 0
      modifies table
      ensures forall b :: 0 <= b < 256 ==> table[b] <= 16
      ensures forall b :: 0 <= b < 256 && table[b] != 0 ==> keys[table[b] - 1] == b
      ensures forall j :: 0 <= j < 16 ==> table[keys[j]] == j + 1
    {
      for i := 0 to numChildren
        invariant forall b :: 0 <= b < 256 ==> table[b] <= i
        invariant forall b :: 0 <= b < 256 && table[b] != 0 ==> keys[table[b] - 1] == b
        invariant forall j :: 0 <= j < i ==> table[keys[j]] == j + 1
      {
        table[keys[i]] := i + 1;
      }
    }

    static lemma IndexedFromSmall(l: Layout<Ref>, r: Layout<Ref>)
      requires Indexes(l, r)
      ensures IndexedOk(r) && View(r) == View(l) && Counted(r)
    {
      hide View, Child, Counted, Used;
      forall j | 0 <= j < 48 && r.slots[j].Some? ensures Used(r.keys, j + 1) {
        IsUsed(r.keys, l.keys[j], j + 1);
      }
      assert IndexedOk(r);
      forall b: Byte ensures Child(l, b) == Child(r, b) { IndexedSameAsSmall(l, r, b); }
      SameView(l, r);
      SmallCounted(l);
      CountedIs(r, 16);
    }

    static lemma CountedIs(l: Layout<Ref>, n: nat)
      requires Ok(l) && l.n == n && |View(l)| == n && n < 256
      ensures Counted(l)
    {
      hide Ok, View;
    }

    static lemma IsUsed(keys: seq<nat>, b: nat, p: nat)
      requires b < |keys| && keys[b] == p
      ensures Used(keys, p)
    {
    }

    static lemma IndexedSameAsSmall(l: Layout<Ref>, r: Layout<Ref>, b: Byte)
      requires SmallOk(l) && IndexedOk(r) && l.kind.Node16? && l.n == 16
      requires forall i :: 0 <= i < 16 ==> r.slots[i] == l.slots[i]
      requires r.keys[b] <= 16 && (r.keys[b] != 0 ==> l.keys[r.keys[b] - 1] == b)
      requires forall j :: 0 <= j < 16 ==> r.keys[l.keys[j]] == j + 1
      ensures Child(l, b) == Child(r, b)
    {
      hide Used;
      if r.keys[b] == 0 {
        SmallAbsent(l, b);
      } else {
        SmallChild(l, r.keys[b] - 1);
      }
    }

    /** The growth step of add_child48(): spread the children over their bytes. */
    method To256() returns (r: NodeObj)
      requires Sound() && kind.Node48? && numChildren == 48
      ensures fresh(r.Own()) && r.kind == Node256 && r.numChildren == 48 && r.Replaces(this)
    {
      hide View, Counted, Used;
      IndexedCounted(L());
      r := new NodeObj(Node256);
      for i := 0 to 256
        invariant forall b :: i <= b < 256 ==> r.children[b].None?
        invariant forall b: Byte :: 0 <= b < i ==> r.children[b] == Child(L(), b)
      {
        if keys[i] != 0 { r.children[i] := children[keys[i] - 1]; }
      }
      r.CopyHeader(this);
      SameView(L(), r.L());
      CountedIs(r.L(), 48);
    }
  
    /** add_child(): the node to be stored through `ref`, which is this one unless
        it was full. */
    method AddChild(c: Byte, child: Ref) returns (r: NodeObj)
      requires Sound() && Holds(kind, |View(L())|) && c !in View(L())
      modifies this`numChildren, keys, children
      ensures r.Sound() && View(r.L()) == old(View(L()))[c := child]
      ensures r.kind == Grown(kind, |old(View(L()))|) && r.Prefix() == old(Prefix()) && r.sub == old(sub)
      ensures r == this || fresh(r.Own())
      ensures var n := |old(View(L()))|;
              r.kind == if kind.Node4? && n == 4 then Node16
                        else if kind.Node16? && n == 16 then Node48
                        else if kind.Node48? && n == 48 then Node256
                        else kind
    {
      hide View, Ok, Counted, Child;
      Counts();
      match kind {
        case Node4 => r := AddChild4(c, child);
        case Node16 => r := AddChild16(c, child);
        case Node48 => r := AddChild48(c, child);
        case Node256 =>
          AddDirect(c, child);
          r := this;
      }
    }

    lemma Sizes()
      requires Sound()
      ensures keys.Length == KeysLength(kind) && children.Length == SlotsLength(kind)
    {
    }

    /** num_children is exact in the three smaller layouts. */
    lemma Counts()
      requires Sound()
      ensures !kind.Node256? ==> numChildren == |View(L())| <= children.Length
    {
      hide View, Child;
      if Small(kind) {
        SmallCounted(L());
      } else if kind.Node48? {
        IndexedCounted(L());
      }
    }

    method AddChild4(c: Byte, child: Ref) returns (r: NodeObj)
      requires Sound() && kind.Node4? && numChildren == |View(L())| <= 4 && c !in View(L())
      modifies this`numChildren, keys, children
      ensures r.Sound() && View(r.L()) == old(View(L()))[c := child]
      ensures r.kind == Grown(kind, |old(View(L()))|) && r.Prefix() == old(Prefix()) && r.sub == old(sub)
      ensures r == this || fresh(r.Own())
      ensures old(numChildren) < 4 ==> r == this && unchanged(`sub) && unchanged(`partialLen)
    {
      hide View, Ok, Counted, Child;
      Sizes();
      if numChildren < 4 {
        AddSmall(c, child);
        r := this;
      } else {
        r := To16();
        r.AddSmall(c, child);
      }
    }

    method AddChild16(c: Byte, child: Ref) returns (r: NodeObj)
      requires Sound() && kind.Node16? && numChildren == |View(L())| <= 16 && c !in View(L())
      modifies this`numChildren, keys, children
      ensures r.Sound() && View(r.L()) == old(View(L()))[c := child]
      ensures r.kind == Grown(kind, |old(View(L()))|) && r.Prefix() == old(Prefix()) && r.sub == old(sub)
      ensures r == this || fresh(r.Own())
    {
      hide View, Ok, Counted, Child;
      Sizes();
      if numChildren < 16 {
        AddSmall(c, child);
        r := this;
      } else {
        r := To48();
        r.AddIndexed(c, child);
      }
    }

    method AddChild48(c: Byte, child: Ref) returns (r: NodeObj)
      requires Sound() && kind.Node48? && numChildren == |View(L())| <= 48 && c !in View(L())
      modifies this`numChildren, keys, children
      ensures r.Sound() && View(r.L()) == old(View(L()))[c := child]
      ensures r.kind == Grown(kind, |old(View(L()))|) && r.Prefix() == old(Prefix()) && r.sub == old(sub)
      ensures r == this || fresh(r.Own())
    {
      hide View, Ok, Counted, Child;
      if numChildren < 48 {
        AddIndexed(c, child);
        r := this;
      } else {
        r := To256();
        r.AddDirect(c, child);
      }
    }

    // ------------------------------------------------------------- removing

    /** The part of remove_child4() and remove_child16() that closes the gap. */
    method RemoveSmall(c: Byte, pos: nat)
      requires Sound() && Small(kind) && pos < numChildren && keys[pos] == c
      modifies this`numChildren, keys, children
      ensures Sound() && View(L()) == old(View(L())) - {c}
    {
      hide View, Child, RemoveAt, Counted;
      ghost var l := L();
      ShiftDown(keys, numChildren, pos);
      ShiftDown(children, numChildren, pos);
      numChildren := numChildren - 1;
      SmallRemoveOk(l, pos);
      assert L() == SmallRemove(l, pos);
      SmallCounted(L());
    }

    /** The part of remove_child48() that clears the slot. */
    method RemoveIndexed(c: Byte)
      requires Sound() && kind.Node48? && c in View(L())
      modifies this`numChildren, keys, children
      ensures Sound() && View(L()) == old(View(L())) - {c}
    {
      hide View, Used;
      ghost var l := L();
      InView(l, c);
      IndexedCounted(l);
      OneLess(View(l), c);
      var pos := keys[c];
      keys[c] := 0;
      children[pos - 1] := None;
      numChildren := numChildren - 1;
      IndexedRemoveOk(l, c);
      assert L() == IndexedRemove(l, c);
    }

    /** The part of remove_child256() that clears the slot; the counter wraps from 0 to 255. */
    method RemoveDirect(c: Byte)
      requires Sound() && kind.Node256? && c in View(L())
      modifies this`numChildren, children
      ensures Sound() && View(L()) == old(View(L())) - {c}
    {
      hide View;
      ghost var l := L();
      InView(l, c);
      children[c] := None;
      numChildren := (numChildren + 255) % 256;
      DirectIs(l, L(), c, None);
      OneLess(View(l), c);
    }

    /** The shrink step of remove_child16(): four keys and pointers are copied, of
        which three are live. */
    method To4() returns (r: NodeObj)
      requires Sound() && kind.Node16? && numChildren == 3
      ensures fresh(r.Own()) && r.kind == Node4 && r.numChildren == 3 && r.Replaces(this)
    {
      hide View, Child, Counted;
      r := new NodeObj(Node4);
      r.CopyHeader(this);
      forall i | 0 <= i < 4 { r.keys[i] := keys[i]; }
      forall i | 0 <= i < 4 { r.children[i] := children[i]; }
      forall b: Byte ensures Child(L(), b) == Child(r.L(), b) { SmallSame(L(), r.L(), b); }
      SameView(L(), r.L());
      SmallCounted(r.L());
    }
  
    /** How many of the bytes below b have a child. */
    ghost function Below(m: map<Byte, Ref>, b: nat): set<Byte>
    {
      set c: Byte | c in m && c < b
    }

    static lemma BelowStep(n: NodeObj, m: map<Byte, Ref>, b: Byte)
      ensures |n.Below(m, b + 1)| == |n.Below(m, b)| + (if b in m then 1 else 0)
      ensures |n.Below(m, b + 1)| <= |m|
    {
      assert n.Below(m, b + 1) == n.Below(m, b) + (if b in m then {b} else {});
      Subset(n.Below(m, b + 1), m.Keys);
    }

    static lemma BelowAll(n: NodeObj, m: map<Byte, Ref>)
      ensures n.Below(m, 0) == {} && n.Below(m, 256) == m.Keys && |n.Below(m, 256)| == |m|
    {
    }

    /** The shrink step of remove_child48(): the children in the order of their bytes. */
    method Index16() returns (r: NodeObj)
      requires Sound() && kind.Node48? && numChildren == 12
      ensures fresh(r.Own()) && r.kind == Node16 && r.numChildren == 12 && r.Replaces(this)
    {
      hide View, Used, Counted, Below, Gathered;
      IndexedCounted(L());
      ghost var m := View(L());
      BelowAll(this, m);
      r := new NodeObj(Node16);
      r.CopyHeader(this);
      var child := 0;
      GatherNone(L(), r.L());
      for i := 0 to 256
        invariant child == |Below(m, i)| <= 12
        invariant r.numChildren == 12 && r.partialLen == partialLen && r.Prefix() == Prefix() && r.sub == sub
        invariant Gathered(L(), r.L(), i, child)
      {
        InView(L(), i);
        IndexedChild(L(), i);
        BelowStep(this, m, i);
        var pos := keys[i];
        ghost var before := r.L();
        if pos != 0 {
          r.keys[child] := i;
          r.children[child] := children[pos - 1];
          GatherOne(L(), before, r.L(), i, child);
          child := child + 1;
        } else {
          GatherSkip(L(), before, i, child);
        }
      }
      SmallFromIndexed(L(), r.L());
    }

    ghost static predicate Listed(keys: seq<nat>, n: nat, b: nat)
      requires n <= |keys|
    {
      exists j :: 0 <= j < n && keys[j] == b
    }

    /** The first n entries of r are the children of l under the bytes below i. */
    ghost static predicate Gathered(l: Layout<Ref>, r: Layout<Ref>, i: nat, n: nat) {
      && IndexedOk(l) && Sized(r) && r.kind.Node16? && i <= 256 && n <= 16
      && (forall j :: 0 <= j < n ==> r.keys[j] < i && l.keys[r.keys[j]] != 0)
      && (forall j :: 0 <= j < n ==> r.slots[j] == l.slots[l.keys[r.keys[j]] - 1])
      && (forall j, k :: 0 <= j < k < n ==> r.keys[j] < r.keys[k])
      && (forall b :: 0 <= b < i && l.keys[b] != 0 ==> Listed(r.keys, n, b))
    }

    static lemma GatherNone(l: Layout<Ref>, r: Layout<Ref>)
      requires IndexedOk(l) && Sized(r) && r.kind.Node16?
      ensures Gathered(l, r, 0, 0)
    {
      hide Used;
    }

    static lemma GatherSkip(l: Layout<Ref>, r: Layout<Ref>, i: nat, n: nat)
      requires Gathered(l, r, i, n) && i < 256 && l.keys[i] == 0
      ensures Gathered(l, r, i + 1, n)
    {
      hide Used, Listed;
    }

    static lemma GatherOne(l: Layout<Ref>, r: Layout<Ref>, s: Layout<Ref>, i: nat, n: nat)
      requires Gathered(l, r, i, n) && i < 256 && l.keys[i] != 0 && n < 16
      requires s == r.(keys := r.keys[n := i], slots := r.slots[n := l.slots[l.keys[i] - 1]])
      ensures Gathered(l, s, i + 1, n + 1)
    {
      hide Used, Listed;
      forall b | 0 <= b < i + 1 && l.keys[b] != 0 ensures Listed(s.keys, n + 1, b) {
        ListedAfter(r.keys, n, i, b);
      }
    }

    static lemma ListedAfter(keys: seq<nat>, n: nat, i: nat, b: nat)
      requires n < |keys| && (Listed(keys, n, b) || b == i)
      ensures Listed(keys[n := i], n + 1, b)
    {
      if b == i {
        assert keys[n := i][n] == b;
      } else {
        var j :| 0 <= j < n && keys[j] == b;
        assert keys[n := i][j] == b;
      }
    }

    static lemma SmallFromIndexed(l: Layout<Ref>, r: Layout<Ref>)
      requires Gathered(l, r, 256, 12) && r.n == 12
      ensures SmallOk(r) && View(r) == View(l) && Counted(r)
    {
      hide View, Child, Used, Counted;
      GatheredOk(l, r);
      forall b: Byte ensures Child(l, b) == Child(r, b) {
        IndexedChild(l, b);
        if l.keys[b] == 0 {
          SmallAbsent(r, b);
        } else {
          var j :| 0 <= j < 12 && r.keys[j] == b;
          SmallChild(r, j);
        }
      }
      SameView(l, r);
      SmallCounted(r);
    }

    static lemma GatheredOk(l: Layout<Ref>, r: Layout<Ref>)
      requires Gathered(l, r, 256, 12) && r.n == 12
      ensures SmallOk(r)
    {
      hide Used, Listed;
    }

    static lemma IndexedChild(l: Layout<Ref>, b: Byte)
      requires IndexedOk(l)
      ensures Child(l, b) == if l.keys[b] == 0 then None else l.slots[l.keys[b] - 1]
    {
      hide Used;
    }

    /** The shrink step of remove_child256(). */
    method Direct48() returns (r: NodeObj)
      requires Sound() && kind.Node256? && |View(L())| == numChildren == 37
      ensures fresh(r.Own()) && r.kind == Node48 && r.numChildren == 37 && r.Replaces(this)
    {
      hide View, Used, Counted, Below, Packed;
      ghost var m := View(L());
      BelowAll(this, m);
      r := new NodeObj(Node48);
      r.CopyHeader(this);
      var pos := 0;
      PackNone(L(), r.L());
      for i := 0 to 256
        invariant pos == |Below(m, i)| <= 37
        invariant r.numChildren == 37 && r.partialLen == partialLen && r.Prefix() == Prefix() && r.sub == sub
        invariant Packed(L(), r.L(), i, pos)
      {
        InView(L(), i);
        DirectChild(L(), i);
        BelowStep(this, m, i);
        ghost var before := r.L();
        if children[i].Some? {
          r.children[pos] := children[i];
          r.keys[i] := pos + 1;
          PackOne(L(), before, r.L(), i, pos);
          pos := pos + 1;
        } else {
          PackSkip(L(), before, i, pos);
        }
      }
      IndexedFromDirect(L(), r.L());
    }

    /** The children of l under the bytes below i fill the first n slots of r. */
    ghost static predicate Packed(l: Layout<Ref>, r: Layout<Ref>, i: nat, n: nat) {
      && Sized(l) && l.kind.Node256? && Sized(r) && r.kind.Node48? && i <= 256 && n <= 48
      && (forall j :: n <= j < 48 ==> r.slots[j].None?)
      && (forall b :: i <= b < 256 ==> r.keys[b] == 0)
      && (forall b :: 0 <= b < i ==> r.keys[b] <= n && (r.keys[b] == 0 <==> l.slots[b].None?))
      && (forall b :: 0 <= b < i && r.keys[b] != 0 ==> r.slots[r.keys[b] - 1] == l.slots[b])
      && (forall b, c :: 0 <= b < c < i && r.keys[b] != 0 && r.keys[c] != 0 ==> r.keys[b] < r.keys[c])
      && (forall p :: 0 < p <= n ==> Used(r.keys, p))
    }

    static lemma PackNone(l: Layout<Ref>, r: Layout<Ref>)
      requires Sized(l) && l.kind.Node256? && Sized(r) && r.kind.Node48?
      requires (forall b :: 0 <= b < 256 ==> r.keys[b] == 0) && forall j :: 0 <= j < 48 ==> r.slots[j].None?
      ensures Packed(l, r, 0, 0)
    {
      hide Used;
    }

    static lemma PackSkip(l: Layout<Ref>, r: Layout<Ref>, i: nat, n: nat)
      requires Packed(l, r, i, n) && i < 256 && l.slots[i].None?
      ensures Packed(l, r, i + 1, n)
    {
      hide Used;
    }

    static lemma PackOne(l: Layout<Ref>, r: Layout<Ref>, s: Layout<Ref>, i: nat, n: nat)
      requires Packed(l, r, i, n) && i < 256 && l.slots[i].Some? && n < 48
      requires s == r.(keys := r.keys[i := n + 1], slots := r.slots[n := l.slots[i]])
      ensures Packed(l, s, i + 1, n + 1)
    {
      hide Used;
      UsedNow(r.keys, i, n + 1);
      forall p | 0 < p <= n + 1 ensures Used(s.keys, p) {
        if p <= n { UsedAfter(r.keys, i, n + 1, p); }
      }
    }

    static lemma IndexedFromDirect(l: Layout<Ref>, r: Layout<Ref>)
      requires Packed(l, r, 256, 37) && r.n == 37 == |View(l)|
      ensures IndexedOk(r) && View(r) == View(l) && Counted(r)
    {
      hide View, Child, Used, Counted;
      PackedOk(l, r);
      forall b: Byte ensures Child(l, b) == Child(r, b) {
        IndexedChild(r, b);
        DirectChild(l, b);
      }
      SameView(l, r);
      CountedIs(r, 37);
    }

    static lemma PackedOk(l: Layout<Ref>, r: Layout<Ref>)
      requires Packed(l, r, 256, 37)
      ensures IndexedOk(r)
    {
      hide Used;
    }

    static lemma DirectChild(l: Layout<Ref>, b: Byte)
      requires Sized(l) && l.kind.Node256?
      ensures Child(l, b) == l.slots[b]
    {
    }

    /** remove_child() without the collapse of remove_child4(): the node to be
        stored through `ref`. */
    method RemoveChild(c: Byte, pos: nat) returns (r: NodeObj)
      requires Sound() && Holds(kind, |View(L())|) && c in View(L())
      requires Small(kind) ==> pos < numChildren && numChildren <= keys.Length && keys[pos] == c
      modifies this`numChildren, keys, children
      ensures r.Sound() && View(r.L()) == old(View(L())) - {c}
      ensures r.kind == Shrunk(kind, |old(View(L()))| - 1) && r.Prefix() == old(Prefix()) && r.sub == old(sub)
      ensures r == this || fresh(r.Own())
      ensures var n := |old(View(L()))|;
              r.kind == if kind.Node16? && n == 4 then Node4
                        else if kind.Node48? && n == 13 then Node16
                        else if kind.Node256? && n == 38 then Node48
                        else kind
      ensures !r.kind.Node256? ==> r.numChildren == |View(r.L())|
    {
      hide View, Ok, Counted, Child;
      Counts();
      Sizes();
      OneLess(View(L()), c);
      r := this;
      match kind {
        case Node4 =>
          RemoveSmall(c, pos);
        case Node16 =>
          RemoveSmall(c, pos);
          Counts();
          if numChildren == 3 { r := To4(); }
        case Node48 =>
          RemoveIndexed(c);
          Counts();
          if numChildren == 12 { r := Index16(); }
        case Node256 =>
          RemoveDirect(c);
          WrappedCount();
          if numChildren == 37 { r := Direct48(); }
      }
      r.Counts();
    }

    /** With at most 255 children left the wrapping counter is exact. */
    lemma WrappedCount()
      requires Sound() && |View(L())| < 256
      ensures numChildren == |View(L())|
    {
      hide View, Ok;
    }
  
    /** Storing through the child pointer that find_child() returned. */
    method Repoint(c: Byte, pos: nat, child: Ref)
      requires Sound() && c in View(L()) && pos < children.Length && children[pos] == Some(View(L())[c])
      requires Small(kind) ==> pos < numChildren && numChildren <= keys.Length && keys[pos] == c
      requires kind.Node48? ==> keys.Length == 256 && keys[c] == pos + 1
      requires kind.Node256? ==> pos == c
      modifies children
      ensures Sound() && View(L()) == old(View(L()))[c := child]
    {
      hide View, Child, Used;
      ghost var l := L();
      children[pos] := Some(child);
      assert L() == l.(slots := l.slots[pos := Some(child)]);
      RepointView(l, c, pos, child);
      SameCount(View(l), c, child);
    }

    static lemma SameCount(m: map<Byte, Ref>, c: Byte, child: Ref)
      requires c in m
      ensures |m[c := child]| == |m|
    {
      assert m[c := child].Keys == m.Keys;
      assert |m[c := child]| == |m[c := child].Keys|;
    }

    static lemma RepointView(l: Layout<Ref>, c: Byte, pos: nat, child: Ref)
      requires Ok(l) && pos < |l.slots| && l.slots[pos].Some?
      requires Small(l.kind) ==> pos < l.n && l.n <= |l.keys| && l.keys[pos] == c
      requires l.kind.Node48? ==> |l.keys| == 256 && l.keys[c] == pos + 1
      requires l.kind.Node256? ==> pos == c
      ensures var r := l.(slots := l.slots[pos := Some(child)]); Ok(r) && View(r) == View(l)[c := child]
    {
      hide View, Child, Used;
      var r := l.(slots := l.slots[pos := Some(child)]);
      assert Ok(r);
      forall b: Byte ensures Child(r, b) == if b in View(l)[c := child] then Some(View(l)[c := child][b]) else None {
        InView(l, b);
        if Small(l.kind) {
          RepointSmall(l, c, pos, child, b);
        } else if l.kind.Node48? {
          IndexedChild(l, b);
          IndexedChild(r, b);
        } else {
          DirectChild(l, b);
          DirectChild(r, b);
        }
      }
      ViewIs(r, View(l)[c := child]);
    }

    static lemma RepointSmall(l: Layout<Ref>, c: Byte, pos: nat, child: Ref, b: Byte)
      requires SmallOk(l) && pos < l.n && l.keys[pos] == c
      requires SmallOk(l.(slots := l.slots[pos := Some(child)]))
      ensures Child(l.(slots := l.slots[pos := Some(child)]), b) == if b == c then Some(child) else Child(l, b)
    {
      hide Child;
      var r := l.(slots := l.slots[pos := Some(child)]);
      var i := Position(l.keys, l.n, b);
      if i < l.n {
        SmallChild(l, i);
        SmallChild(r, i);
      } else {
        SmallAbsent(l, b);
        SmallAbsent(r, b);
      }
    }
  }
}
