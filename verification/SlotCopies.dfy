/** What the slot protocol of src/hash.c promises about one key: when it is stored
    only once, and when an update in place lands on its own key; and, by runs from an
    empty table, that it promises no more. */
module SlotCopies {
  import opened Trie
  import opened Slots
  import opened Bins
  import Parts
  import opened Hash
  import opened SlotProtocol

  // ------------------------------------------------------------ one copy of a key

  /** The thread is on its way to storing k in a new slot. */
  predicate Inserting(th: Thread, k: Key) {
    match th
    case Scan(key, _, mode, _, _) => key == k && mode != STRICT_UPDATE
    case Claim(key, _, _) => key == k
    case Store(key, _, _) => key == k
    case Publish(key, _, _) => key == k
    case _ => false
  }

  /** No two insertions of k overlap. */
  ghost predicate Sole(s: State, k: Key) {
    forall t, u ::
      0 <= t < |s.threads| && Inserting(s.threads[t], k) && 0 <= u < |s.threads| && Inserting(s.threads[u], k)
      ==> t == u
  }

  ghost predicate Missing(s: State, k: Key) { forall p :: 0 <= p < |s.slots| ==> s.slots[p] != k }

  ghost predicate OneSlot(s: State, k: Key) {
    forall p, q :: 0 <= p < |s.slots| && 0 <= q < |s.slots| && s.slots[p] == k == s.slots[q] ==> p == q
  }

  /** What an insertion of k has found out is still so. */
  ghost predicate Past(s: State, th: Thread, k: Key)
    requires Shaped(s)
  {
    Inserting(th, k) ==>
      if th.Scan? then forall q :: Base(s, k) <= q < th.p && q < |s.slots| ==> s.slots[q] != k else Missing(s, k)
  }

  ghost predicate Single(s: State, k: Key) {
    Shaped(s) && OneSlot(s, k) && forall t :: 0 <= t < |s.threads| ==> Past(s, s.threads[t], k)
  }

  /** hash_insert_nocheck() takes the caller's word that the key is missing. */
  ghost predicate Warranted(s: State, a: Action, k: Key) {
    a.t < |s.threads| && s.threads[a.t].Idle? && a.call.InsertNocheck? && a.call.key == k ==> Missing(s, k)
  }

  /** The slots that hold k after a step held it before, unless k is published. */
  lemma HoldersShrink(s: State, t: nat, call: Call, k: Key)
    requires Inv(s) && t < |s.threads| && Placed(s, s.threads[t]) && !Parts.Special(k)
    ensures var n, c := Next(s, t, call), ChangeOf(s, t);
            forall p :: 0 <= p < |s.slots| && n.slots[p] == k ==> s.slots[p] == k || c == Shown(p, k)
    ensures ChangeOf(s, t).Shown? ==> s.threads[t].Publish? && s.threads[t].key == ChangeOf(s, t).key
  {
    hide PowerOfTwo, BinOf, Parts.Special, Owned, AtHome, Balanced, Next, Base, InBin;
    StepChanges(s, t, call);
    Flags();
  }

  lemma OneSlotStep(s: State, t: nat, call: Call, k: Key)
    requires Inv(s) && t < |s.threads| && Placed(s, s.threads[t]) && !Parts.Special(k) && Single(s, k)
    ensures OneSlot(Next(s, t, call), k)
  {
    hide PowerOfTwo, BinOf, Parts.Special, Inv, Next, Base, ChangeOf;
    HoldersShrink(s, t, call, k);
    assert Past(s, s.threads[t], k);
  }

  lemma PastOther(s: State, t: nat, call: Call, k: Key, u: nat)
    requires Inv(s) && t < |s.threads| && Placed(s, s.threads[t]) && !Parts.Special(k) && Single(s, k) && Sole(s, k)
    requires u < |s.threads| && u != t
    ensures var n := Next(s, t, call); Shaped(n) && Past(n, n.threads[u], k)
  {
    hide PowerOfTwo, BinOf, Parts.Special, Inv, Next, Base, ChangeOf, Placed;
    KeptShape(s, t, call);
    PlacedNext(s, t, call);
    HoldersShrink(s, t, call, k);
    KeptBase(s, t, call, k);
    assert Past(s, s.threads[u], k);
  }

  lemma KeptShape(s: State, t: nat, call: Call)
    requires Inv(s) && t < |s.threads| && Placed(s, s.threads[t])
    ensures var n := Next(s, t, call); Shaped(s) && Shaped(n) && |n.slots| == |s.slots|
  {
    ShapeStep(s, t, call);
  }

  lemma KeptBase(s: State, t: nat, call: Call, k: Key)
    requires Inv(s) && t < |s.threads| && Placed(s, s.threads[t])
    ensures var n := Next(s, t, call); Shaped(n) && Base(n, k) == Base(s, k)
  {
    ShapeStep(s, t, call);
  }

  /** A key is nowhere but in its bin. */
  lemma MissingFromBin(s: State, k: Key)
    requires Inv(s) && !Parts.Special(k)
    requires forall q :: Base(s, k) <= q < Base(s, k) + BIN_CAPACITY && q < |s.slots| ==> s.slots[q] != k
    ensures Missing(s, k)
  {
    hide PowerOfTwo, BinOf, Parts.Special, Owned, Balanced, AllPlaced;
    assert forall p :: 0 <= p < |s.slots| && s.slots[p] == k ==> p / BIN_CAPACITY == BinOf(s.hash(k), s.size);
  }

  lemma StillMissing(s: State, t: nat, call: Call, k: Key)
    requires Inv(s) && t < |s.threads| && Placed(s, s.threads[t]) && !Parts.Special(k) && Missing(s, k)
    requires !s.threads[t].Publish?
    ensures Missing(Next(s, t, call), k)
  {
    hide PowerOfTwo, BinOf, Parts.Special, Inv, Next, Base, ChangeOf;
    HoldersShrink(s, t, call, k);
  }

  /** The thread that moves. */
  lemma PastSelf(s: State, t: nat, call: Call, k: Key)
    requires Inv(s) && t < |s.threads| && Placed(s, s.threads[t]) && !Parts.Special(k) && Single(s, k)
    requires Warranted(s, Action(t, call), k)
    ensures var n := Next(s, t, call); Shaped(n) && Past(n, n.threads[t], k)
  {
    hide PowerOfTwo, BinOf, Parts.Special, Inv, Next, Base, Placed;
    var n, th := Next(s, t, call), s.threads[t];
    KeptBase(s, t, call, k);
    assert Past(s, th, k);
    if th.Scan? {
      PastScan(s, t, call, k);
    } else if th.Idle? {
      PastStart(s, t, call, k);
    } else {
      Onward(s, t, call, k);
      if Inserting(n.threads[t], k) { StillMissing(s, t, call, k); }
    }
  }

  lemma Onward(s: State, t: nat, call: Call, k: Key)
    requires Shaped(s) && t < |s.threads| && Placed(s, s.threads[t]) && !s.threads[t].Scan? && !s.threads[t].Idle?
    ensures var th := Next(s, t, call).threads[t];
            Inserting(th, k) ==>
              !th.Scan? && Inserting(s.threads[t], k) && !s.threads[t].Publish? && !s.threads[t].Scan?
  {
    hide PowerOfTwo, BinOf, Parts.Special, InBin, Base;
  }

  lemma PastStart(s: State, t: nat, call: Call, k: Key)
    requires Inv(s) && t < |s.threads| && s.threads[t].Idle? && Placed(s, s.threads[t]) &&
             Warranted(s, Action(t, call), k)
    ensures var n := Next(s, t, call); Shaped(n) && Past(n, n.threads[t], k)
  {
    hide PowerOfTwo, BinOf, Parts.Special, Owned, AtHome, Balanced, AllPlaced;
    KeptBase(s, t, call, k);
  }

  lemma PastScan(s: State, t: nat, call: Call, k: Key)
    requires Inv(s) && t < |s.threads| && s.threads[t].Scan? && Placed(s, s.threads[t]) && !Parts.Special(k)
    requires Past(s, s.threads[t], k)
    ensures var n := Next(s, t, call); Shaped(n) && Past(n, n.threads[t], k)
  {
    hide PowerOfTwo, BinOf, Parts.Special, Owned, AtHome, Balanced, AllPlaced, Base, Next;
    var n, th := Next(s, t, call), s.threads[t];
    KeptBase(s, t, call, k);
    ScanMoves(s, t, call);
    if Inserting(n.threads[t], k) && n.threads[t].Claim? { MissingFromBin(s, k); }
  }

  lemma ScanMoves(s: State, t: nat, call: Call)
    requires Shaped(s) && t < |s.threads| && s.threads[t].Scan? && Placed(s, s.threads[t])
    ensures var n, th := Next(s, t, call), s.threads[t];
            && n.slots == s.slots && n.threads[t] == Scanned(s, th)
            && Base(s, th.key) <= th.p < |s.slots|
  {
    hide PowerOfTwo, BinOf, Parts.Special, Base, Scanned;
  }

  /** Exactly when a step makes a second copy: a claimant publishes k, without a second
      look, while another slot holds it. */
  lemma SecondCopyExactly(s: State, t: nat, call: Call, k: Key)
    requires Inv(s) && t < |s.threads| && !Parts.Special(k) && OneSlot(s, k)
    ensures Shaped(s) && Placed(s, s.threads[t])
    ensures OneSlot(Next(s, t, call), k) <==> !(s.threads[t].Publish? && s.threads[t].key == k && !Missing(s, k))
  {
    hide PowerOfTwo, BinOf, Parts.Special, AtHome, Balanced, Next, Base, InBin;
    assert Placed(s, s.threads[t]);
    HoldersShrink(s, t, call, k);
    StepChanges(s, t, call);
    Flags();
    var th, n := s.threads[t], Next(s, t, call);
    if th.Publish? && th.key == k && !Missing(s, k) {
      var q :| 0 <= q < |s.slots| && s.slots[q] == k;
      OwnerMarks(s, t, th.p);
      assert n.slots[q] == k && n.slots[th.p] == k && q != th.p;
    }
  }

  /** Without overlapping insertions of k, no step stores it twice. */
  lemma SingleStep(s: State, t: nat, call: Call, k: Key)
    requires Inv(s) && t < |s.threads| && !Parts.Special(k) && Single(s, k) && Sole(s, k) &&
             Warranted(s, Action(t, call), k)
    ensures Shaped(s) && Placed(s, s.threads[t]) && Single(Next(s, t, call), k)
  {
    hide PowerOfTwo, BinOf, Parts.Special, Owned, AtHome, Balanced, Next, Base, OneSlot, Past, Sole, Warranted, Placed,
      Shaped;
    assert Placed(s, s.threads[t]);
    KeptShape(s, t, call);
    OneSlotStep(s, t, call, k);
    var n := Next(s, t, call);
    forall u | 0 <= u < |n.threads| ensures Past(n, n.threads[u], k) {
      if u == t { PastSelf(s, t, call, k); } else { PastOther(s, t, call, k, u); }
    }
  }

  lemma InitialSingle(hash: Key -> nat, size: nat, n: nat, k: Key)
    requires PowerOfTwo(size) && !Parts.Special(k)
    ensures Single(Initial(hash, size, n), k)
  {
    hide PowerOfTwo, BinOf;
    Flags();
    var s := Initial(hash, size, n);
    forall p | 0 <= p < |s.slots| ensures s.slots[p] != k { assert s.slots[p] == ZERO; }
    forall t | 0 <= t < |s.threads| ensures !Inserting(s.threads[t], k) { }
  }

  /** In every interleaving in which no two insertions of k overlap (and none without
      check starts while k is there), k is stored at most once at every moment,
      whatever the insertions, updates and deletions of other keys, and the updates
      and deletions of k, do. */
  lemma {:induction false} NeverTwice(states: seq<State>, actions: seq<Action>, k: Key, i: nat)
    requires Run(states, actions) && Inv(states[0]) && Single(states[0], k) && !Parts.Special(k) && i < |states|
    requires forall j :: 0 <= j < i ==> Sole(states[j], k) && Warranted(states[j], actions[j], k)
    ensures OneSlot(states[i], k) && Single(states[i], k)
  {
    hide Inv, Next, Placed, Shaped, OneSlot, Past, Sole, Warranted, Parts.Special;
    if i > 0 {
      NeverTwice(states, actions, k, i - 1);
      RunInv(states, actions, i - 1);
      SingleStep(states[i - 1], actions[i - 1].t, actions[i - 1].call, k);
    }
  }

  // -------------------------------------------------------- updating in place

  /** The step takes key out of slot p. */
  predicate Erases(s: State, a: Action, key: Key, p: nat) {
    a.t < |s.threads| && p < |s.slots| && s.threads[a.t] == Erase(key, p) && s.slots[p] == key
  }

  /** A published key leaves its slot by an erasure of that key in that slot, and in
      no other way. */
  lemma KeyStays(s: State, a: Action, key: Key, p: nat)
    requires Inv(s) && a.t < |s.threads| && p < |s.slots| && s.slots[p] == key && !Parts.Special(key)
    ensures Shaped(s) && Placed(s, s.threads[a.t]) && p < |Next(s, a.t, a.call).slots|
    ensures Next(s, a.t, a.call).slots[p] == key <==> !Erases(s, a, key, p)
  {
    hide PowerOfTwo, BinOf, Owned, AtHome, Balanced, Next, Base, InBin;
    assert Placed(s, s.threads[a.t]);
    StepChanges(s, a.t, a.call);
    ChangeFacts(s, a.t);
    Flags();
    if ChangeOf(s, a.t).Shown? { OwnerMarks(s, a.t, ChangeOf(s, a.t).p); }
  }

  /** A call that is about to store a value in place has just seen its key there. */
  lemma SawItsKey(s: State, t: nat, call: Call)
    requires Shaped(s) && t < |s.threads| && Placed(s, s.threads[t])
    requires Next(s, t, call).threads[t].Overwrite?
    ensures var n := Next(s, t, call);
            var th := n.threads[t];
            && s.threads[t].Scan? && s.threads[t].value == th.value
            && th.p < |s.slots| && s.slots[th.p] == th.key && n.slots == s.slots && !Parts.Special(th.key)
  {
    hide PowerOfTwo, BinOf, Parts.Special, Base;
  }

  /** The slots of all moments from i to m hold key in slot p. */
  ghost predicate HoldsKey(states: seq<State>, i: nat, m: nat, key: Key, p: nat) {
    forall j :: i <= j <= m && j < |states| ==> p < |states[j].slots| && states[j].slots[p] == key
  }

  ghost predicate NoErasure(states: seq<State>, actions: seq<Action>, i: nat, m: nat, key: Key, p: nat) {
    forall j :: i <= j < m && j < |states| && j < |actions| ==> !Erases(states[j], actions[j], key, p)
  }

  lemma {:induction false} HoldsUnlessErased(states: seq<State>, actions: seq<Action>, i: nat, m: nat, key: Key, p: nat)
    requires Run(states, actions) && Inv(states[0]) && !Parts.Special(key)
    requires i <= m < |states| && p < |states[i].slots| && states[i].slots[p] == key
    ensures HoldsKey(states, i, m, key, p) <==> NoErasure(states, actions, i, m, key, p)
    decreases m - i
  {
    hide Inv, Next, Placed, Shaped, Erases, Parts.Special;
    if i < m {
      HoldsUnlessErased(states, actions, i, m - 1, key, p);
      HoldsLast(states, i, m, key, p);
      ErasureLast(states, actions, i, m, key, p);
      if HoldsKey(states, i, m - 1, key, p) {
        assert states[m - 1].slots[p] == key;
        RunInv(states, actions, m - 1);
        KeyStays(states[m - 1], actions[m - 1], key, p);
        assert states[m] == Next(states[m - 1], actions[m - 1].t, actions[m - 1].call);
      }
    }
  }

  lemma HoldsLast(states: seq<State>, i: nat, m: nat, key: Key, p: nat)
    requires i < m < |states|
    ensures HoldsKey(states, i, m, key, p) <==>
            HoldsKey(states, i, m - 1, key, p) && p < |states[m].slots| && states[m].slots[p] == key
  {
  }

  lemma ErasureLast(states: seq<State>, actions: seq<Action>, i: nat, m: nat, key: Key, p: nat)
    requires i < m < |states| && m <= |actions|
    ensures NoErasure(states, actions, i, m, key, p) <==>
            NoErasure(states, actions, i, m - 1, key, p) && !Erases(states[m - 1], actions[m - 1], key, p)
  {
    hide Erases;
  }

  /** The update in place of hash_modify(): thread t finds its key in slot p at step
      i, and makes its next step, the store of the value, at step m.  The key has been
      in the slot all the time, and is there when its value is stored, if and only if
      no other thread erased it from the slot in between. */
  lemma UpdateLandsOnItsKey(states: seq<State>, actions: seq<Action>, i: nat, m: nat, t: nat)
    requires Run(states, actions) && Inv(states[0]) && i < m < |actions|
    requires actions[i].t == t == actions[m].t && forall j :: i < j < m ==> actions[j].t != t
    requires t < |states[i + 1].threads| && states[i + 1].threads[t].Overwrite?
    ensures t < |states[m].threads| && states[m].threads[t] == states[i + 1].threads[t]
    ensures var th := states[i + 1].threads[t];
            HoldsKey(states, i + 1, m, th.key, th.p) <==> NoErasure(states, actions, i + 1, m, th.key, th.p)
    ensures var th := states[i + 1].threads[t];
            NoErasure(states, actions, i + 1, m, th.key, th.p) ==>
              var n := states[m + 1];
              th.p < |n.slots| == |n.values| && n.slots[th.p] == th.key && n.values[th.p] == th.value
  {
    hide Inv, Next, Placed, Shaped, Erases, Parts.Special;
    SawItsKey(states[i], t, actions[i].call);
    var th := states[i + 1].threads[t];
    HoldsUnlessErased(states, actions, i + 1, m, th.key, th.p);
    Waits(states, actions, i + 1, m, t);
    RunInv(states, actions, m);
    InvShape(states[m]);
    Overwrites(states[m], t, actions[m].call);
  }

  /** A thread that does not move stays where it is. */
  lemma {:induction false} Waits(states: seq<State>, actions: seq<Action>, i: nat, m: nat, t: nat)
    requires Run(states, actions) && Inv(states[0]) && i <= m <= |actions| && t < |states[i].threads|
    requires forall j :: i <= j < m ==> actions[j].t != t
    ensures t < |states[m].threads| && states[m].threads[t] == states[i].threads[t]
    decreases m - i
  {
    hide Inv, Next, Placed, Shaped;
    if i < m {
      Waits(states, actions, i, m - 1, t);
      PlacedNext(states[m - 1], actions[m - 1].t, actions[m - 1].call);
    }
  }

  lemma InvShape(s: State)
    requires Inv(s)
    ensures Shaped(s) && |s.slots| == |s.values|
  {
  }

  lemma Overwrites(s: State, t: nat, call: Call)
    requires Shaped(s) && t < |s.threads| && s.threads[t].Overwrite? && Placed(s, s.threads[t])
    ensures var n, th := Next(s, t, call), s.threads[t];
            n.slots == s.slots && th.p < |s.values| && n.values == s.values[th.p := th.value]
  {
    hide PowerOfTwo, BinOf, Parts.Special, Base;
  }

  // ------------------------------------------------ what is not promised: runs

  /** n differs from m in what the three arguments say only. */
  ghost predicate Becomes(m: State, n: State, slots: seq<Key>, values: seq<Value>, t: nat, th: Thread) {
    && t < |m.threads| && Shaped(m) && Inv(n) && n.hash == m.hash && n.size == m.size
    && n.slots == slots && n.values == values && n.threads == m.threads[t := th]
  }

  /** A thread starts a call. */
  lemma Begins(s: State, m: State, who: set<nat>, calls: seq<Action>, t: nat, call: Call) returns (n: State)
    requires Leads(s, m, who, calls) && Inv(m) && t < |m.threads| && t in who && m.threads[t].Idle?
    ensures Leads(s, n, who, calls + [Action(t, call)]) && Becomes(m, n, m.slots, m.values, t, Start(m, call))
  {
    hide PowerOfTwo, BinOf, Parts.Special, Inv, Leads, Base, Start, Placed;
    n := LeadsOn(s, m, who, calls, t, call);
  }

  /** One step of a thread that is under way. */
  lemma Goes(s: State, m: State, who: set<nat>, calls: seq<Action>, t: nat) returns (n: State)
    requires Leads(s, m, who, calls) && Inv(m) && t < |m.threads| && !m.threads[t].Idle?
    ensures Leads(s, n, who, calls) && Inv(n) && Shaped(m) && Placed(m, m.threads[t]) && n == Next(m, t, ANY)
    ensures n.size == m.size && n.hash == m.hash
  {
    hide PowerOfTwo, BinOf, Parts.Special, Inv, Leads, Next, Placed;
    n := LeadsOn(s, m, who, calls, t, ANY);
  }

  /** The scan of a bin without any key ends with a claim to its first slot. */
  lemma {:induction false} ScansEmptyBin(s: State, m: State, who: set<nat>, calls: seq<Action>, t: nat, key: Key,
                                         v: Value, mode: Mode, j: nat)
    returns (n: State)
    requires Leads(s, m, who, calls) && Inv(m) && t < |m.threads| && j < BIN_CAPACITY && mode != STRICT_UPDATE
    requires Shaped(m) && m.threads[t] ==
             Scan(key, v, mode, Base(m, key) + j, if j == 0 then None else Some(Base(m, key)))
    requires forall p :: 0 <= p < |m.slots| ==> m.slots[p] == ZERO
    ensures Leads(s, n, who, calls) && Becomes(m, n, m.slots, m.values, t, Claim(key, v, Base(m, key)))
    decreases BIN_CAPACITY - j
  {
    hide PowerOfTwo, BinOf, Parts.Special, Inv, Leads, Next, Base;
    n := Goes(s, m, who, calls, t);
    ScanStep(m, t, key, v, mode, j);
    if j + 1 < BIN_CAPACITY {
      SameBase(m, n, key);
      var n1 := ScansEmptyBin(s, n, who, calls, t, key, v, mode, j + 1);
      assert n.threads[t := n1.threads[t]] == m.threads[t := n1.threads[t]];
      n := n1;
    }
  }

  lemma SameBase(m: State, n: State, key: Key)
    requires Shaped(m) && n.hash == m.hash && n.size == m.size && Inv(n)
    ensures Shaped(n) && Base(n, key) == Base(m, key)
  {
  }

  lemma ScanStep(m: State, t: nat, key: Key, v: Value, mode: Mode, j: nat)
    requires Shaped(m) && t < |m.threads| && Placed(m, m.threads[t]) && j < BIN_CAPACITY && mode != STRICT_UPDATE
    requires m.threads[t] == Scan(key, v, mode, Base(m, key) + j, if j == 0 then None else Some(Base(m, key)))
    requires forall p :: 0 <= p < |m.slots| ==> m.slots[p] == ZERO
    ensures var n := Next(m, t, ANY);
            && n.slots == m.slots && n.values == m.values
            && n.threads == m.threads[t := if j + 1 < BIN_CAPACITY
                                           then Scan(key, v, mode, Base(m, key) + j + 1, Some(Base(m, key)))
                                           else Claim(key, v, Base(m, key))]
  {
    hide PowerOfTwo, BinOf, Parts.Special, Base;
    ZeroIsSpecial(key);
  }

  lemma ZeroIsSpecial(key: Key)
    ensures !Parts.Special(key) ==> key != ZERO && key != ONE
  {
  }

  /** A claimant that finds its slot free stores and counts its pair. */
  lemma Finishes(s: State, m: State, who: set<nat>, calls: seq<Action>, t: nat, key: Key, v: Value, p: nat)
    returns (n: State)
    requires Leads(s, m, who, calls) && Inv(m) && t < |m.threads| && m.threads[t] == Claim(key, v, p)
    requires p < |m.slots| == |m.values| && m.slots[p] == ZERO
    ensures Leads(s, n, who, calls) && Becomes(m, n, m.slots[p := key], m.values[p := v], t, Idle(OK_CODE))
  {
    hide PowerOfTwo, BinOf, Parts.Special, Inv, Leads, Next, Base;
    var n1 := Goes(s, m, who, calls, t);
    ClaimTakes(m, t, key, v, p);
    var n2 := Goes(s, n1, who, calls, t);
    Stores(n1, t, key, v, p);
    var n3 := Goes(s, n2, who, calls, t);
    Publishes(n2, t, key, v, p);
    n := Goes(s, n3, who, calls, t);
    Tallies(n3, t);
    assert n3.threads[t := Idle(OK_CODE)] == m.threads[t := Idle(OK_CODE)];
  }

  lemma ClaimTakes(s: State, t: nat, key: Key, v: Value, p: nat)
    requires Shaped(s) && t < |s.threads| && s.threads[t] == Claim(key, v, p) && Placed(s, s.threads[t])
    requires s.slots[p] == ZERO
    ensures var n := Next(s, t, ANY);
            n.slots == s.slots[p := ONE] && n.values == s.values && n.threads == s.threads[t := Store(key, v, p)]
  {
    hide PowerOfTwo, BinOf, Parts.Special, Base;
  }

  lemma ClaimMisses(s: State, t: nat, key: Key, v: Value, p: nat)
    requires Shaped(s) && t < |s.threads| && s.threads[t] == Claim(key, v, p) && Placed(s, s.threads[t])
    requires s.slots[p] != ZERO && p + 1 < Base(s, key) + BIN_CAPACITY
    ensures var n := Next(s, t, ANY);
            n.slots == s.slots && n.values == s.values && n.threads == s.threads[t := Claim(key, v, p + 1)]
  {
    hide PowerOfTwo, BinOf, Parts.Special, Base;
  }

  lemma Stores(s: State, t: nat, key: Key, v: Value, p: nat)
    requires Shaped(s) && t < |s.threads| && s.threads[t] == Store(key, v, p) && Placed(s, s.threads[t])
    ensures var n := Next(s, t, ANY);
            n.slots == s.slots && n.values == s.values[p := v] && n.threads == s.threads[t := Publish(key, v, p)]
  {
    hide PowerOfTwo, BinOf, Parts.Special, Base;
  }

  lemma Publishes(s: State, t: nat, key: Key, v: Value, p: nat)
    requires Shaped(s) && t < |s.threads| && s.threads[t] == Publish(key, v, p) && Placed(s, s.threads[t])
    ensures var n := Next(s, t, ANY);
            n.slots == s.slots[p := key] && n.values == s.values && n.threads == s.threads[t := Tally]
  {
    hide PowerOfTwo, BinOf, Parts.Special, Base;
  }

  lemma Tallies(s: State, t: nat)
    requires Shaped(s) && t < |s.threads| && s.threads[t] == Tally
    ensures var n := Next(s, t, ANY);
            n.slots == s.slots && n.values == s.values && n.threads == s.threads[t := Idle(OK_CODE)]
  {
    hide PowerOfTwo, BinOf, Parts.Special, Base;
  }

  /** A table of one bin: slot 0 is where every scan begins. */
  lemma OneBin(s: State, key: Key)
    requires Shaped(s) && s.size == 1
    ensures Base(s, key) == 0 && |s.slots| == BIN_CAPACITY
  {
  }

  /** A whole insertion into the empty table of one bin, up to its claim. */
  lemma ReachesClaim(s: State, m: State, who: set<nat>, calls: seq<Action>, t: nat, key: Key, v: Value)
    returns (n: State)
    requires Leads(s, m, who, calls) && Inv(m) && t < |m.threads| && t in who && m.threads[t].Idle? && m.size == 1
    requires !Parts.Special(key) && forall p :: 0 <= p < |m.slots| ==> m.slots[p] == ZERO
    ensures Leads(s, n, who, calls + [Action(t, Modify(key, v, INSERT))])
    ensures Becomes(m, n, m.slots, m.values, t, Claim(key, v, 0))
  {
    hide PowerOfTwo, BinOf, Parts.Special, Inv, Leads, Next, Base;
    var n1 := Begins(s, m, who, calls, t, Modify(key, v, INSERT));
    OneBin(m, key);
    SameBase(m, n1, key);
    n := ScansEmptyBin(s, n1, who, calls + [Action(t, Modify(key, v, INSERT))], t, key, v, INSERT, 0);
    assert n1.threads[t := n.threads[t]] == m.threads[t := n.threads[t]];
  }

  lemma Starts(hash: Key -> nat) returns (s: State)
    ensures s == Initial(hash, 1, 2) && Leads(s, s, {0, 1}, []) && Inv(s) && Shaped(s)
    ensures forall p :: 0 <= p < |s.slots| ==> s.slots[p] == ZERO
  {
    hide BinOf, Leads;
    s := Initial(hash, 1, 2);
    InitialInv(hash, 1, 2);
    LeadsHere(s, {0, 1});
  }

  /** From an empty table, two insertions of one key that overlap both succeed and
      leave it in two slots: the second claimant moves on and does not look back. */
  lemma TwoCopies(hash: Key -> nat, key: Key, v: Value, w: Value) returns (n: State)
    requires !Parts.Special(key)
    ensures Leads(Initial(hash, 1, 2), n, {0, 1},
            [Action(0, Modify(key, v, INSERT)), Action(1, Modify(key, w, INSERT))])
    ensures n.threads == [Idle(OK_CODE), Idle(OK_CODE)] && |n.slots| == |n.values| == BIN_CAPACITY
    ensures n.slots[0] == key == n.slots[1] && n.values[0] == v && n.values[1] == w
  {
    hide PowerOfTwo, BinOf, Parts.Special, Inv, Leads, Next, Base, Placed;
    var s := Starts(hash);
    ZeroIsSpecial(key);
    var who, a, b := {0, 1}, Action(0, Modify(key, v, INSERT)), Action(1, Modify(key, w, INSERT));
    var n1 := ReachesClaim(s, s, who, [], 0, key, v);
    var n2 := ReachesClaim(s, n1, who, [] + [a], 1, key, w);
    assert [] + [a] + [b] == [a, b];
    OneBin(s, key);
    InvShape(n2);
    var n3 := Finishes(s, n2, who, [a, b], 0, key, v, 0);
    SameBase(s, n3, key);
    var n4 := Goes(s, n3, who, [a, b], 1);
    ClaimMisses(n3, 1, key, w, 0);
    InvShape(n4);
    n := Finishes(s, n4, who, [a, b], 1, key, w, 1);
  }

  /** From an empty table, an update in place can land on another key: between its
      load of the key and its store of the value the slot is emptied and claimed anew. */
  lemma LateOverwrite(hash: Key -> nat, key: Key, other: Key, u: Value, v: Value, w: Value) returns (n: State)
    requires !Parts.Special(key) && !Parts.Special(other) && key != other
    ensures Leads(Initial(hash, 1, 2), n, {0, 1},
                  [Action(0, Modify(key, u, INSERT)), Action(0, Modify(key, v, UPDATE)),
                   Action(1, Delete(key)), Action(1, Modify(other, w, INSERT))])
    ensures n.threads == [Idle(OK_CODE), Idle(OK_CODE)] && |n.slots| == |n.values| == BIN_CAPACITY
    ensures n.slots[0] == other && n.values[0] == v
  {
    hide PowerOfTwo, BinOf, Parts.Special, Inv, Leads, Next, Base, Placed;
    var s := Starts(hash);
    var a, b := Action(0, Modify(key, u, INSERT)), Action(0, Modify(key, v, UPDATE));
    var c, d := Action(1, Delete(key)), Action(1, Modify(other, w, INSERT));
    var n1 := UpdateUnderWay(s, key, u, v);
    var n2 := Deletes(s, n1, [a, b], key);
    assert [a, b] + [c] == [a, b, c];
    var n3 := ReachesClaim(s, n2, {0, 1}, [a, b, c], 1, other, w);
    assert [a, b, c] + [d] == [a, b, c, d];
    InvShape(n3);
    var n4 := Finishes(s, n3, {0, 1}, [a, b, c, d], 1, other, w, 0);
    n := Goes(s, n4, {0, 1}, [a, b, c, d], 0);
    InvShape(n4);
    OverwritesNow(n4, 0, key, v, 0);
  }

  lemma OverwritesNow(s: State, t: nat, key: Key, v: Value, p: nat)
    requires Shaped(s) && t < |s.threads| && s.threads[t] == Overwrite(key, v, p) && Placed(s, s.threads[t])
    ensures var n := Next(s, t, ANY);
            && n.slots == s.slots && p < |s.values| && n.values == s.values[p := v]
            && n.threads == s.threads[t := Idle(OK_CODE)]
  {
    hide PowerOfTwo, BinOf, Parts.Special, Base;
  }

  /** Thread 0 inserts a key and is about to overwrite its value. */
  lemma UpdateUnderWay(s: State, key: Key, u: Value, v: Value) returns (n: State)
    requires Leads(s, s, {0, 1}, []) && Inv(s) && Shaped(s) && s.size == 1 && s.threads == [Idle(0), Idle(0)]
    requires !Parts.Special(key) && forall p :: 0 <= p < |s.slots| ==> s.slots[p] == ZERO
    ensures Leads(s, n, {0, 1}, [Action(0, Modify(key, u, INSERT)), Action(0, Modify(key, v, UPDATE))])
    ensures Inv(n) && n.hash == s.hash && n.size == 1 && n.threads == [Overwrite(key, v, 0), Idle(0)]
    ensures |s.slots| == BIN_CAPACITY && n.slots == s.slots[0 := key] && |n.values| == BIN_CAPACITY
  {
    hide PowerOfTwo, BinOf, Parts.Special, Inv, Leads, Next, Base, Placed;
    var who, a, b := {0, 1}, Action(0, Modify(key, u, INSERT)), Action(0, Modify(key, v, UPDATE));
    OneBin(s, key);
    var n1 := ReachesClaim(s, s, who, [], 0, key, u);
    InvShape(n1);
    var n2 := Finishes(s, n1, who, [] + [a], 0, key, u, 0);
    var n3 := Begins(s, n2, who, [] + [a], 0, Modify(key, v, UPDATE));
    assert [] + [a] + [b] == [a, b];
    SameBase(s, n2, key);
    n := Goes(s, n3, who, [a, b], 0);
    FindsKey(n3, 0, key, v, UPDATE, 0);
    InvShape(n);
  }

  lemma FindsKey(s: State, t: nat, key: Key, v: Value, mode: Mode, p: nat)
    requires Shaped(s) && t < |s.threads| && s.threads[t] == Scan(key, v, mode, p, None) && Placed(s, s.threads[t])
    requires s.slots[p] == key && mode != STRICT_INSERT
    ensures var n := Next(s, t, ANY);
            n.slots == s.slots && n.values == s.values && n.threads == s.threads[t := Overwrite(key, v, p)]
  {
    hide PowerOfTwo, BinOf, Parts.Special, Base;
  }

  /** Thread 1 deletes the key in slot 0. */
  lemma Deletes(s: State, m: State, calls: seq<Action>, key: Key) returns (n: State)
    requires Leads(s, m, {0, 1}, calls) && Inv(m) && Shaped(m) && m.size == 1 && !Parts.Special(key)
    requires |m.threads| == 2 && m.threads[1].Idle? && m.slots[0] == key
    ensures Leads(s, n, {0, 1}, calls + [Action(1, Delete(key))])
    ensures Becomes(m, n, m.slots[0 := ZERO], m.values, 1, Idle(1))
  {
    hide PowerOfTwo, BinOf, Parts.Special, Inv, Leads, Next, Base, Placed;
    var after := calls + [Action(1, Delete(key))];
    OneBin(m, key);
    var n1 := Begins(s, m, {0, 1}, calls, 1, Delete(key));
    var n2 := Goes(s, n1, {0, 1}, after, 1);
    Seeks(n1, 1, key, 0);
    var n3 := Goes(s, n2, {0, 1}, after, 1);
    Erasing(n2, 1, key, 0);
    n := Goes(s, n3, {0, 1}, after, 1);
    Untallies(n3, 1);
    assert n3.threads[1 := Idle(1)] == m.threads[1 := Idle(1)];
  }

  lemma Seeks(s: State, t: nat, key: Key, p: nat)
    requires Shaped(s) && t < |s.threads| && s.threads[t] == Seek(key, p) && Placed(s, s.threads[t]) &&
             s.slots[p] == key
    ensures var n := Next(s, t, ANY);
            n.slots == s.slots && n.values == s.values && n.threads == s.threads[t := Erase(key, p)]
  {
    hide PowerOfTwo, BinOf, Parts.Special, Base;
  }

  lemma Erasing(s: State, t: nat, key: Key, p: nat)
    requires Shaped(s) && t < |s.threads| && s.threads[t] == Erase(key, p) && Placed(s, s.threads[t]) &&
             s.slots[p] == key
    ensures var n := Next(s, t, ANY);
            n.slots == s.slots[p := ZERO] && n.values == s.values && n.threads == s.threads[t := Untally]
  {
    hide PowerOfTwo, BinOf, Parts.Special, Base;
  }

  lemma Untallies(s: State, t: nat)
    requires Shaped(s) && t < |s.threads| && s.threads[t] == Untally
    ensures var n := Next(s, t, ANY);
            n.slots == s.slots && n.values == s.values && n.threads == s.threads[t := Idle(1)]
  {
    hide PowerOfTwo, BinOf, Parts.Special, Base;
  }
}
