/** The slots of a hash table as one sequence, eight to a bin, and the map they stand
    for. */
module Slots {
  import opened Trie

  const BIN_CAPACITY := 8

  /** The key 0 marks a slot as empty; its value is then of no account. */
  datatype Entry = Entry(key: Key, value: Value)

  const ZERO: Key := [0, 0, 0, 0, 0, 0, 0, 0]

  /** The key 1 marks, in the concurrent table, a slot that is claimed. */
  const ONE: Key := [1, 0, 0, 0, 0, 0, 0, 0]

  ghost predicate Used(s: seq<Entry>, p: int) { 0 <= p < |s| && s[p].key != ZERO }

  ghost predicate Distinct(s: seq<Entry>) {
    forall p, q :: Used(s, p) && Used(s, q) && s[p].key == s[q].key ==> p == q
  }

  ghost function KeysOf(s: seq<Entry>): set<Key> {
    set p | 0 <= p < |s| && Used(s, p) :: s[p].key
  }

  ghost function ValueOf(s: seq<Entry>, k: Key): Value
    requires k in KeysOf(s)
  {
    var p :| Used(s, p) && s[p].key == k;
    s[p].value
  }

  /** What is stored. */
  ghost function Pairs(s: seq<Entry>): map<Key, Value> {
    map k | k in KeysOf(s) :: ValueOf(s, k)
  }

  lemma InPairs(s: seq<Entry>, p: nat)
    requires Distinct(s) && Used(s, p)
    ensures s[p].key in Pairs(s) && Pairs(s)[s[p].key] == s[p].value
  {
  }

  lemma SlotOf(s: seq<Entry>, k: Key) returns (p: nat)
    requires k in Pairs(s)
    ensures Used(s, p) && s[p].key == k
  {
    p :| Used(s, p) && s[p].key == k;
  }

  lemma PairsAre(s: seq<Entry>, m: map<Key, Value>)
    requires Distinct(s)
    requires forall p :: Used(s, p) ==> s[p].key in m && m[s[p].key] == s[p].value
    requires forall k :: k in m ==> k in KeysOf(s)
    ensures Pairs(s) == m
  {
    assert Pairs(s).Keys == m.Keys;
  }

  /** The value in a used slot is replaced. */
  lemma Overwrite(s: seq<Entry>, p: nat, v: Value)
    requires Distinct(s) && Used(s, p)
    ensures var r := s[p := Entry(s[p].key, v)];
            Distinct(r) && KeysOf(r) == KeysOf(s) && Pairs(r) == Pairs(s)[s[p].key := v]
  {
    var r := s[p := Entry(s[p].key, v)];
    forall q ensures Used(r, q) == Used(s, q) { }
    assert forall q :: Used(r, q) ==> r[q].key == s[q].key;
    KeysMatch(s, r);
    forall q | Used(r, q)
      ensures r[q].key in Pairs(s)[s[p].key := v] && Pairs(s)[s[p].key := v][r[q].key] == r[q].value
    {
      InPairs(s, q);
    }
    PairsAre(r, Pairs(s)[s[p].key := v]);
  }

  lemma KeysMatch(s: seq<Entry>, r: seq<Entry>)
    requires |s| == |r| && forall q :: Used(r, q) == Used(s, q) && (Used(r, q) ==> r[q].key == s[q].key)
    ensures KeysOf(s) == KeysOf(r)
  {
    forall k ensures k in KeysOf(s) <==> k in KeysOf(r) {
      if k in KeysOf(s) {
        var q :| Used(s, q) && s[q].key == k;
        assert Used(r, q) && r[q].key == k;
      }
      if k in KeysOf(r) {
        var q :| Used(r, q) && r[q].key == k;
        assert Used(s, q) && s[q].key == k;
      }
    }
  }

  lemma InKeys(s: seq<Entry>, p: nat)
    requires Used(s, p)
    ensures s[p].key in KeysOf(s)
  {
  }

  lemma WithKey(s: seq<Entry>, k: Key) returns (p: nat)
    requires k in KeysOf(s)
    ensures Used(s, p) && s[p].key == k
  {
    p :| Used(s, p) && s[p].key == k;
  }

  lemma AddedKey(s: seq<Entry>, p: nat, e: Entry)
    requires p < |s| && !Used(s, p) && e.key != ZERO
    ensures KeysOf(s[p := e]) == KeysOf(s) + {e.key}
  {
    hide KeysOf;
    var r := s[p := e];
    InKeys(r, p);
    forall k: Key ensures k in KeysOf(r) <==> k in KeysOf(s) || k == e.key {
      if k in KeysOf(s) {
        var q := WithKey(s, k);
        assert r[q] == s[q];
        InKeys(r, q);
      }
      if k in KeysOf(r) {
        var q := WithKey(r, k);
        if q != p { InKeys(s, q); }
      }
    }
  }

  /** An empty slot takes a new key. */
  lemma Fill(s: seq<Entry>, p: nat, e: Entry)
    requires Distinct(s) && p < |s| && !Used(s, p) && e.key != ZERO && e.key !in Pairs(s)
    ensures Distinct(s[p := e]) && Pairs(s[p := e]) == Pairs(s)[e.key := e.value]
    ensures |Pairs(s[p := e])| == |Pairs(s)| + 1
  {
    var r, m := s[p := e], Pairs(s)[e.key := e.value];
    AddedKey(s, p, e);
    forall q | Used(r, q) && q != p ensures Used(s, q) && r[q].key in Pairs(s) && Pairs(s)[r[q].key] == r[q].value {
      assert Used(s, q);
      InPairs(s, q);
    }
    forall k | k in m ensures k in KeysOf(r) { }
    PairsAre(r, m);
    assert m.Keys == Pairs(s).Keys + {e.key};
    assert |m.Keys| == |m| && |Pairs(s).Keys| == |Pairs(s)|;
  }

  /** A used slot is cleared; the value may stay behind. */
  lemma Clear(s: seq<Entry>, p: nat)
    requires Distinct(s) && Used(s, p)
    ensures var r := s[p := Entry(ZERO, s[p].value)];
            Distinct(r) && Pairs(r) == Pairs(s) - {s[p].key} && |Pairs(r)| == |Pairs(s)| - 1
  {
    var r := s[p := Entry(ZERO, s[p].value)];
    var m := Pairs(s) - {s[p].key};
    InPairs(s, p);
    forall q | Used(r, q) ensures Used(s, q) && r[q].key in m && m[r[q].key] == r[q].value {
      assert Used(s, q);
      InPairs(s, q);
    }
    forall k | k in m ensures k in KeysOf(r) {
      var q := SlotOf(s, k);
      assert Used(r, q) && r[q].key == k;
    }
    PairsAre(r, m);
    assert m.Keys == Pairs(s).Keys - {s[p].key};
    assert |m.Keys| == |m| && |Pairs(s).Keys| == |Pairs(s)|;
  }

  /** An entry moves to an empty slot. */
  lemma Move(s: seq<Entry>, p: nat, q: nat)
    requires Distinct(s) && p < |s| && Used(s, p) && q < |s| && !Used(s, q)
    ensures var r := s[q := s[p]][p := Entry(ZERO, s[p].value)];
            Distinct(r) && Pairs(r) == Pairs(s)
  {
    hide Used, Distinct, Pairs, KeysOf;
    var e := s[p];
    var c := s[p := Entry(ZERO, e.value)];
    InPairs(s, p);
    Clear(s, p);
    StillEmpty(s, p, q);
    Fill(c, q, e);
    assert c[q := e] == s[q := e][p := Entry(ZERO, e.value)];
    RemovedAndBack(Pairs(s), e);
  }

  lemma RemovedAndBack(m: map<Key, Value>, e: Entry)
    requires e.key in m && m[e.key] == e.value
    ensures (m - {e.key})[e.key := e.value] == m
  {
  }

  lemma StillEmpty(s: seq<Entry>, p: nat, q: nat)
    requires p < |s| && Used(s, p) && q < |s| && !Used(s, q)
    ensures p != q && !Used(s[p := Entry(ZERO, s[p].value)], q) && s[p].key != ZERO
  {
  }
}
