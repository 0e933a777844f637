/** sequential/hetero.c with buffers off and USE_CM undefined: an index made of a hash
    table, a tree for what does not fit or does not belong into it, and two special
    keys.  Each method does what module Parts says of its call. */
module Hetero {
  import opened Trie
  import opened Slots
  import Bins
  import opened Hash
  import opened ArtTree
  import opened Parts

  lemma SpecialKeys(key: Key)
    ensures Special(key) <==> key == (if key[0] == 0 then ZERO else ONE)
  {
    if Special(key) {
      assert forall i :: 0 <= i < KEY_LEN ==> key[i] == (if key[0] == 0 then ZERO else ONE)[i];
    }
  }

  /** The two one-entry tables for the keys 0 and 1. */
  ghost function SpecialMap(has: seq<bool>, val: seq<Value>): map<Key, Value>
    requires |has| == |val| == 2
  {
    (if has[0] then map[ZERO := val[0]] else map[]) + (if has[1] then map[ONE := val[1]] else map[])
  }

  lemma SpecialLookup(has: seq<bool>, val: seq<Value>, key: Key)
    requires |has| == |val| == 2 && Special(key)
    ensures At(SpecialMap(has, val), key) == if has[key[0]] then Some(val[key[0]]) else None
  {
    SpecialKeys(key);
  }

  lemma SpecialPut(has: seq<bool>, val: seq<Value>, key: Key, value: Value)
    requires |has| == |val| == 2 && Special(key)
    ensures SpecialMap(has[key[0] := true], val[key[0] := value]) == SpecialMap(has, val)[key := value]
  {
    SpecialKeys(key);
  }

  lemma SpecialRemove(has: seq<bool>, val: seq<Value>, key: Key)
    requires |has| == |val| == 2 && Special(key)
    ensures SpecialMap(has[key[0] := false], val) == SpecialMap(has, val) - {key}
    ensures key in SpecialMap(has, val) <==> has[key[0]]
  {
    SpecialKeys(key);
  }

  class IndexSys {
    var hash: HashSys
    const tree: TreeObj
    const hasSpecial: array<bool>
    const specialVal: array<Value>

    ghost function P(): Parts
      reads this, hash, hash.entries, tree, hasSpecial, specialVal
      requires hasSpecial.Length == specialVal.Length == 2
    {
      Parts(hash.M(), tree.M(), SpecialMap(hasSpecial[..], specialVal[..]), Bins.HashOf(hash.seed), hash.size)
    }

    ghost function Repr(): set<object>
      reads this, hash, tree
    {
      {this, hash, hash.entries, tree, hasSpecial, specialVal} + tree.repr
    }

    ghost predicate Apart()
      reads this, hash, tree
    {
      && hash.entries as object != hasSpecial as object && hash.entries as object != specialVal as object
      && hasSpecial as object != specialVal as object
      && this !in tree.repr && hash !in tree.repr && hash.entries !in tree.repr
      && hasSpecial !in tree.repr && specialVal !in tree.repr
    }

    ghost predicate Formed()
      reads this, hash, hash.entries, tree, tree.repr, hasSpecial, specialVal
    {
      && Apart() && hash.Valid() && hash.seed != 0 && tree.Linked()
      && hasSpecial.Length == specialVal.Length == 2
    }

    ghost predicate Valid()
      reads this, hash, hash.entries, tree, tree.repr, hasSpecial, specialVal
    {
      Formed() && Sorted(P())
    }

    /** index_construct(), where a table has been made. */
    constructor (hash: HashSys, tree: TreeObj)
      requires hash.M() == map[] && tree.Linked() && tree.M() == map[]
      requires hash !in tree.repr && hash.entries !in tree.repr
      ensures this.hash == hash && this.tree == tree && fresh(Repr() - {hash, hash.entries, tree} - tree.repr)
      ensures hash.Valid() && hash.seed != 0 ==> Valid() && P() == Empty(Bins.HashOf(hash.seed), hash.size)
    {
      hide HashSys.M, HashSys.Valid, TreeObj.M, TreeObj.Linked, Bins.HashOf, Sorted, SpecialMap;
      this.hash, this.tree := hash, tree;
      hasSpecial := new bool[2](_ => false);
      specialVal := new Value[2](_ => 0);
      new;
      NoSpecials(hasSpecial[..], specialVal[..]);
      if hash.Valid() {
        TableShape(hash);
        EmptySorted(Bins.HashOf(hash.seed), hash.size);
      }
    }

    static lemma NoSpecials(has: seq<bool>, val: seq<Value>)
      requires |has| == |val| == 2 && !has[0] && !has[1]
      ensures SpecialMap(has, val) == map[]
    {
    }

    /** index_construct(); the seed of the hash table has 32 bits, and 0 asks for a
        drawn one.  With no bins, or a drawn seed that is 0 again, there is an index,
        but none that keeps its promises. */
    static method Construct(hashSize: nat, seed: nat, drawn: Bins.Seed) returns (index: Option<IndexSys>)
      ensures index.None? <==> hashSize > 0 && !Bins.PowerOfTwo(hashSize)
      ensures index.Some? ==> fresh(index.value)
      ensures var used := if seed % 0x1_0000_0000 != 0 then seed % 0x1_0000_0000 else drawn;
              index.Some? && hashSize > 0 && used != 0 ==>
                index.value.Valid() && index.value.P() == Empty(Bins.HashOf(used), hashSize)
    {
      hide Bins.PowerOfTwo, HashSys.M, HashSys.Valid, TreeObj.M, TreeObj.Linked, Bins.HashOf;
      var hash := HashSys.Construct(hashSize, seed % 0x1_0000_0000, drawn);
      if hash.None? { return None; }
      var tree := new TreeObj();
      var made := new IndexSys(hash.value, tree);
      index := Some(made);
    }

    static lemma TableShape(hash: HashSys)
      requires hash.Valid()
      ensures Bins.PowerOfTwo(hash.size) && hash.size > 0
    {
    }

    /** index_query(): None for a non-zero return. */
    method Query(key: Key) returns (result: Option<Value>)
      requires Valid()
      ensures (P(), Found(result)) == Perform(P(), Get(key))
    {
      hide Special, SpecialMap, HashSys.M, HashSys.Valid, HashSys.HasRoom, TreeObj.M, TreeObj.Linked, Bins.HashOf,
        Bins.PowerOfTwo;
      KeyFacts(key);
      if Special(key) {
        SpecialLookup(hasSpecial[..], specialVal[..], key);
        return if hasSpecial[key[0]] then Some(specialVal[key[0]]) else None;
      }
      result := hash.Query(key);
      if result.None? { result := tree.Search(key); }
    }

    static lemma KeyFacts(key: Key)
      ensures !Special(key) ==> key != ZERO
      ensures Special(key) ==> key[0] <= 1
    {
    }

    /** The common first lines of index_insert() and index_update(). */
    method SetSpecial(key: Key, value: Value)
      requires Valid() && Special(key)
      modifies hasSpecial, specialVal
      ensures Valid() && P() == old(P()).(special := old(P()).special[key := value])
    {
      hide SpecialMap, HashSys.M, HashSys.Valid, HashSys.HasRoom, TreeObj.M, TreeObj.Linked, Bins.HashOf,
        Bins.PowerOfTwo;
      SpecialPut(hasSpecial[..], specialVal[..], key, value);
      specialVal[key[0]] := value;
      hasSpecial[key[0]] := true;
    }

    /** index_insert().  `mem` stands for storage_type == MEM_TYPE and `copying` for
        the expansion function that is installed. */
    method Insert(key: Key, value: Value, mem: bool, copying: bool) returns (status: nat)
      requires Valid()
      modifies Repr()
      ensures Valid() && fresh(Repr() - old(Repr()))
      ensures (P(), Status(status)) == Perform(old(P()), Put(key, value, mem))
    {
      hide Special, SpecialMap, HashSys.M, HashSys.Valid, HashSys.HasRoom, TreeObj.M, TreeObj.Linked, Bins.HashOf,
        Bins.PowerOfTwo, Sorted, Lands, FinalSize;
      ghost var p := P();
      TableShape(hash);
      KeyFacts(key);
      if Special(key) {
        SetSpecial(key, value);
        status := 0;
      } else {
        var stored := false;
        if mem { stored := InsertHashed(key, value, copying); }
        status := 0;
        if !stored {
          var existed := TreeInsert(key, value);
          status := if existed then 1 else 0;
        }
      }
      KeepsSorted(p, Put(key, value, mem));
    }

    /** art_insert_no_replace(). */
    method TreeInsert(key: Key, value: Value) returns (existed: bool)
      requires Formed()
      modifies tree, tree.repr
      ensures Formed() && fresh(tree.repr - old(tree.repr)) && existed == (key in old(P()).tree)
      ensures P() == if existed then old(P()) else old(P()).(tree := old(P()).tree[key := value])
    {
      hide Special, SpecialMap, HashSys.M, HashSys.Valid, HashSys.HasRoom, TreeObj.M, TreeObj.Linked, Bins.HashOf,
        Bins.PowerOfTwo;
      existed := tree.Insert(key, value, false);
    }

    /** The loop at REINSERT: the table grows as long as the key finds no room and the
        tree is more than four times its size.  Whether the key is stored is decided
        by the state before the call. */
    method InsertHashed(key: Key, value: Value, copying: bool) returns (stored: bool)
      requires Valid() && !Special(key)
      modifies this`hash, hash`count, hash.entries
      ensures Valid() && fresh(Repr() - old(Repr())) && tree.repr == old(tree.repr)
      ensures stored == Lands(old(P()), key)
      ensures P() == var p := old(P()).(size := FinalSize(old(P()), key, old(P()).size));
                     if stored then p.(hash := p.hash[key := value]) else p
    {
      hide Special, SpecialMap, HashSys.M, HashSys.Valid, HashSys.HasRoom, TreeObj.M, TreeObj.Linked, Bins.HashOf,
        Bins.PowerOfTwo, Sorted, FindsRoom, FinalSize;
      ghost var p := P();
      TableShape(hash);
      stored := false;
      while true
        invariant Valid() && P() == p.(size := hash.size) && fresh(Repr() - old(Repr())) && tree.repr == old(tree.repr)
        invariant hash == old(hash) || (fresh(hash) && fresh(hash.entries))
        invariant Bins.PowerOfTwo(hash.size) && FinalSize(p, key, hash.size) == FinalSize(p, key, p.size)
        decreases tree.size - hash.size
      {
        RoomInTable(key, p);
        Turn(p, key, hash.size);
        HashPut(P(), key, value);
        var status := HashModify(key, value, INSERT);
        if status == OK { return true; }
        TreeSize();
        if hash.size * BIN_CAPACITY * MAX_TREE_HASH_RATIO < tree.size {
          ExpandHash(copying);
        } else {
          return false;
        }
      }
    }

    /** The free slot that hash_modify() looks for, in terms of the table's keys. */
    lemma RoomInTable(key: Key, p: Parts)
      requires Formed() && P() == p.(size := hash.size)
      ensures Bins.PowerOfTwo(hash.size) && hash.size > 0 && (hash.HasRoom(key) <==> FindsRoom(p, key, hash.size))
    {
      hide Special, SpecialMap, TreeObj.M, TreeObj.Linked, Bins.BinOf, Bins.Hash, Pairs;
      TableShape(hash);
      Hash.RoomIs(hash.entries[..], Bins.HashOf(hash.seed), hash.size, Bins.Home(key, hash.seed, hash.size));
    }

    static lemma Turn(p: Parts, key: Key, size: nat)
      requires Bins.PowerOfTwo(size)
      ensures key in p.hash || FindsRoom(p, key, size) || !(size * BIN_CAPACITY * MAX_TREE_HASH_RATIO < |p.tree|) ==>
                FinalSize(p, key, size) == size
      ensures key !in p.hash && !FindsRoom(p, key, size) && size * BIN_CAPACITY * MAX_TREE_HASH_RATIO < |p.tree| ==>
                Bins.PowerOfTwo(2 * size) && FinalSize(p, key, size) == FinalSize(p, key, 2 * size)
    {
      hide FindsRoom, Bins.PowerOfTwo;
      Doubles(size);
    }

    lemma HashSize()
      requires Formed()
      ensures hash.count == |P().hash|
    {
    }

    lemma TreeSize()
      requires Formed()
      ensures tree.size == |P().tree|
    {
    }

    /** hash_expand(&index->hash). */
    method ExpandHash(copying: bool)
      requires Valid()
      modifies this`hash
      ensures Valid() && P() == old(P()).(size := hash.size) && fresh(hash) && fresh(hash.entries)
      ensures hash.size == 2 * old(hash.size) > 0 && hash.seed == old(hash.seed)
    {
      hide Special, SpecialMap, HashSys.M, HashSys.Valid, HashSys.HasRoom, TreeObj.M, TreeObj.Linked, Bins.HashOf,
        Bins.PowerOfTwo, Sorted, Fits, Bins.Home, Bins.BinOf;
      TableShape(hash);
      Doubles(hash.size);
      Resized(P(), 2 * hash.size);
      if copying { hash := hash.ExpandCopy(0); } else { hash := hash.ExpandReinsert(0); }
    }

    static lemma Resized(p: Parts, n: nat)
      requires Sorted(p) && Bins.PowerOfTwo(n)
      ensures Sorted(p.(size := n))
    {
      hide Special;
    }

    static lemma HashPut(p: Parts, key: Key, value: Value)
      requires Sorted(p) && !Special(key)
      ensures Sorted(p.(hash := p.hash[key := value]))
    {
      hide Special;
    }

    method HashModify(key: Key, value: Value, mode: Mode) returns (status: Hash.Status)
      requires Formed() && !Special(key)
      modifies hash`count, hash.entries
      ensures Formed()
      ensures key in old(P()).hash ==> status == if mode == STRICT_INSERT then ELEMENT_ALREADY_EXISTS else OK
      ensures key !in old(P()).hash && mode == STRICT_UPDATE ==> status == ELEMENT_NOT_FOUND
      ensures key !in old(P()).hash && mode != STRICT_UPDATE ==>
                status == if old(hash.HasRoom(key)) then OK else HASH_BIN_FULL
      ensures P() == if status == OK then old(P()).(hash := old(P()).hash[key := value]) else old(P())
    {
      hide Special, SpecialMap, HashSys.M, HashSys.Valid, HashSys.HasRoom, TreeObj.M, TreeObj.Linked, Bins.HashOf,
        Bins.PowerOfTwo;
      KeyFacts(key);
      status := hash.Modify(key, value, mode);
    }

    method HashDelete(key: Key) returns (found: bool)
      requires Formed() && !Special(key)
      modifies hash`count, hash.entries
      ensures Formed() && found == (key in old(P()).hash)
      ensures P() == old(P()).(hash := old(P()).hash - {key})
    {
      hide Special, SpecialMap, HashSys.M, HashSys.Valid, HashSys.HasRoom, TreeObj.M, TreeObj.Linked, Bins.HashOf,
        Bins.PowerOfTwo;
      KeyFacts(key);
      found := hash.Delete(key);
    }

    method TreeUpdate(key: Key, value: Value) returns (was: Option<Value>)
      requires Formed()
      modifies tree, tree.repr
      ensures Formed() && tree.repr == old(tree.repr)
      ensures was == if key in old(P()).tree then Some(old(P()).tree[key]) else None
      ensures P() == if was.Some? then old(P()).(tree := old(P()).tree[key := value]) else old(P())
    {
      hide Special, SpecialMap, HashSys.M, HashSys.Valid, HashSys.HasRoom, TreeObj.M, TreeObj.Linked, Bins.HashOf,
        Bins.PowerOfTwo;
      was := tree.Update(key, value);
    }

    method TreeDelete(key: Key) returns (existed: bool)
      requires Formed()
      modifies tree, tree.repr
      ensures Formed() && fresh(tree.repr - old(tree.repr)) && existed == (key in old(P()).tree)
      ensures P() == old(P()).(tree := old(P()).tree - {key})
    {
      hide Special, SpecialMap, HashSys.M, HashSys.Valid, HashSys.HasRoom, TreeObj.M, TreeObj.Linked, Bins.HashOf,
        Bins.PowerOfTwo;
      existed := tree.Delete(key);
    }

    /** index_update(). */
    method Update(key: Key, value: Value) returns (status: nat)
      requires Valid()
      modifies Repr()
      ensures Valid() && fresh(Repr() - old(Repr()))
      ensures (P(), Status(status)) == Perform(old(P()), Change(key, value))
    {
      hide Special, SpecialMap, HashSys.M, HashSys.Valid, HashSys.HasRoom, TreeObj.M, TreeObj.Linked, Bins.HashOf,
        Bins.PowerOfTwo, Sorted;
      ghost var p := P();
      KeyFacts(key);
      if Special(key) {
        SetSpecial(key, value);
        status := 0;
      } else {
        var found := HashModify(key, value, STRICT_UPDATE);
        status := 0;
        if found == ELEMENT_NOT_FOUND {
          var was := TreeUpdate(key, value);
          status := if was.None? || was.value == 0 then 1 else 0;
        }
      }
      KeepsSorted(p, Change(key, value));
    }

    /** index_delete(). */
    method Delete(key: Key) returns (status: nat)
      requires Valid()
      modifies Repr()
      ensures Valid() && fresh(Repr() - old(Repr()))
      ensures (P(), Status(status)) == Perform(old(P()), Remove(key))
    {
      hide Special, SpecialMap, HashSys.M, HashSys.Valid, HashSys.HasRoom, TreeObj.M, TreeObj.Linked, Bins.HashOf,
        Bins.PowerOfTwo, Sorted, RemoveAny;
      ghost var p := P();
      TableShape(hash);
      KeyFacts(key);
      if Special(key) { status := UnsetSpecial(key); } else { status := DeleteOrdinary(key); }
      KeepsSorted(p, Remove(key));
    }

    method DeleteOrdinary(key: Key) returns (status: nat)
      requires Formed() && !Special(key)
      modifies tree, tree.repr, hash`count, hash.entries
      ensures Formed() && fresh(tree.repr - old(tree.repr))
      ensures (P(), Status(status)) == RemoveAny(old(P()), key)
    {
      hide Special, SpecialMap, HashSys.M, HashSys.Valid, HashSys.HasRoom, TreeObj.M, TreeObj.Linked, Bins.HashOf,
        Bins.PowerOfTwo;
      ghost var p := P();
      var found := HashDelete(key);
      if found { return 0; }
      assert p.hash - {key} == p.hash;
      var existed := TreeDelete(key);
      status := if existed then 0 else 1;
    }

    method UnsetSpecial(key: Key) returns (status: nat)
      requires Valid() && Special(key)
      modifies hasSpecial
      ensures Formed()
      ensures (P(), Status(status)) == Perform(old(P()), Remove(key))
    {
      hide SpecialMap, HashSys.M, HashSys.Valid, HashSys.HasRoom, TreeObj.M, TreeObj.Linked, Bins.HashOf,
        Bins.PowerOfTwo, Sorted;
      SpecialRemove(hasSpecial[..], specialVal[..], key);
      status := if hasSpecial[key[0]] then 0 else 1;
      if hasSpecial[key[0]] { hasSpecial[key[0]] := false; }
      assert hasSpecial[..] == old(hasSpecial[..])[key[0] := false];
    }

    /** index_expand(). */
    method Grow(copying: bool) returns (status: nat)
      requires Valid()
      modifies Repr()
      ensures Valid() && fresh(Repr() - old(Repr()))
      ensures (P(), Status(status)) == Perform(old(P()), Expand)
    {
      hide Special, SpecialMap, HashSys.M, HashSys.Valid, HashSys.HasRoom, TreeObj.M, TreeObj.Linked, Bins.HashOf,
        Bins.PowerOfTwo;
      ExpandHash(copying);
      status := 0;
    }

    /** index_size(). */
    method Count() returns (n: nat)
      requires Valid()
      ensures (P(), Answer.Count(n)) == Perform(P(), Size)
    {
      hide Special, SpecialMap, HashSys.M, HashSys.Valid, TreeObj.M, TreeObj.Linked, Bins.HashOf, Bins.PowerOfTwo;
      TableShape(hash);
      TreeSize();
      HashSize();
      SpecialSize(hasSpecial[..], specialVal[..]);
      n := hash.count + tree.size + (if hasSpecial[0] then 1 else 0) + (if hasSpecial[1] then 1 else 0);
    }

    static lemma SpecialSize(has: seq<bool>, val: seq<Value>)
      requires |has| == |val| == 2
      ensures |SpecialMap(has, val)| == (if has[0] then 1 else 0) + (if has[1] then 1 else 0)
    {
      var m := SpecialMap(has, val);
      assert ZERO != ONE by { assert ZERO[0] != ONE[0]; }
      assert m.Keys == (if has[0] then {ZERO} else {}) + (if has[1] then {ONE} else {});
      assert |m| == |m.Keys|;
    }
  }
}
