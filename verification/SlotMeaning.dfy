/** What the return code of a call on the concurrent slots says about its run: which
    words the calling thread met, and what it wrote.  Everything is stated on the
    words in memory before and after the thread's own steps, whatever the other
    threads do in between. */
module SlotMeaning {
  import opened Trie
  import opened Slots
  import opened Bins
  import Parts
  import opened Hash
  import opened SlotProtocol

  /** What one step of a thread can be: it loads the key word of slot p and misses or
      hits its key, or finds the slot taken; it claims an empty slot, stores its
      value, shows its key in a claimed slot; it erases its key, or finds it gone just
      then; it writes anything at all. */
  datatype Event =
    | Miss(p: nat)
    | Hit(p: nat)
    | Taken(p: nat)
    | Claims(p: nat)
    | Stores(p: nat)
    | Shows(p: nat)
    | Erases(p: nat)
    | Loses(p: nat)
    | Writes

  predicate Looks(th: Thread, p: nat) { (th.Scan? || th.Seek?) && th.p == p }

  predicate Tries(th: Thread, p: nat) { th.Claim? && th.p == p }

  /** Thread t's step from s to n is of this kind. */
  predicate Occurs(e: Event, s: State, n: State, t: nat, call: Call) {
    && t < |s.threads|
    && match e
       case Miss(p) => Looks(s.threads[t], p) && p < |s.slots| && s.slots[p] != call.key
       case Hit(p) => Looks(s.threads[t], p) && p < |s.slots| && s.slots[p] == call.key
       case Taken(p) =>
         (Looks(s.threads[t], p) || Tries(s.threads[t], p)) && p < |s.slots| && s.slots[p] != ZERO
       case Claims(p) => p < |s.slots| == |n.slots| && s.slots[p] == ZERO && n.slots[p] == ONE
       case Stores(p) => p < |s.values| && !call.Delete? && n.values == s.values[p := call.value]
       case Shows(p) => p < |s.slots| == |n.slots| && s.slots[p] == ONE && n.slots[p] == call.key
       case Erases(p) => p < |s.slots| == |n.slots| && s.slots[p] == call.key && n.slots[p] == ZERO
       case Loses(p) => s.threads[t] == Erase(call.key, p) && p < |s.slots| && s.slots[p] != call.key
       case Writes => n.slots != s.slots || n.values != s.values || n.count != s.count
  }

  /** A run, and the one call in it that thread t makes. */
  datatype Trace = Trace(states: seq<State>, actions: seq<Action>, t: nat, call: Call)

  ghost predicate OccursAt(x: Trace, e: Event, i: nat)
    requires i < |x.actions| < |x.states|
  {
    x.actions[i].t == x.t && Occurs(e, x.states[i], x.states[i + 1], x.t, x.call)
  }

  /** Such a step of thread t is among the first k steps of the run. */
  ghost predicate Happened(x: Trace, e: Event, k: nat)
    requires k <= |x.actions| < |x.states|
  {
    exists i: nat :: i < k && OccursAt(x, e, i)
  }

  /** First one, then the other. */
  ghost predicate Then(x: Trace, e1: Event, e2: Event, k: nat)
    requires k <= |x.actions| < |x.states|
  {
    exists j: nat :: j < k && OccursAt(x, e2, j) && Happened(x, e1, j)
  }

  lemma NothingYet(x: Trace)
    requires |x.actions| < |x.states|
    ensures forall e :: !Happened(x, e, 0)
  {
  }

  lemma OneMore(x: Trace, k: nat)
    requires k < |x.actions| < |x.states|
    ensures forall e :: Happened(x, e, k + 1) <==> Happened(x, e, k) || OccursAt(x, e, k)
    ensures forall e1, e2 ::
              Then(x, e1, e2, k + 1) <==> Then(x, e1, e2, k) || (OccursAt(x, e2, k) && Happened(x, e1, k))
  {
    hide OccursAt;
  }

  // ------------------------------------------------ what a thread knows, and when

  ghost predicate NoHit(x: Trace, k: nat)
    requires k <= |x.actions| < |x.states|
  {
    forall q: nat :: !Happened(x, Hit(q), k)
  }

  ghost predicate NoClaim(x: Trace, k: nat)
    requires k <= |x.actions| < |x.states|
  {
    forall q: nat :: !Happened(x, Claims(q), k)
  }

  ghost predicate AllMissed(x: Trace, low: nat, high: nat, k: nat)
    requires k <= |x.actions| < |x.states|
  {
    forall q: nat :: low <= q < high ==> Happened(x, Miss(q), k)
  }

  ghost predicate AllTaken(x: Trace, low: nat, high: nat, k: nat)
    requires k <= |x.actions| < |x.states|
  {
    forall q: nat :: low <= q < high ==> Happened(x, Taken(q), k)
  }

  /** The thread claimed slot p, stored its value there, and then showed its key. */
  ghost predicate Published(x: Trace, p: nat, k: nat)
    requires k <= |x.actions| < |x.states|
  {
    Then(x, Claims(p), Stores(p), k) && Then(x, Stores(p), Shows(p), k)
  }

  /** What the thread has seen and done when it stands at th; b is the first slot of
      the bin of its key. */
  ghost predicate KnowsModify(x: Trace, b: nat, k: nat, th: Thread)
    requires k <= |x.actions| < |x.states| && x.call.Modify?
  {
    var Modify(key, value, mode) := x.call;
    match th
    case Scan(key', value', mode', p, available) =>
      && (key', value', mode') == (key, value, mode) && b <= p < b + 8
      && NoHit(x, k) && !Happened(x, Writes, k) && AllMissed(x, b, p, k)
      && (available.None? ==> AllTaken(x, b, p, k))
      && (available.Some? ==> b <= available.value < p && AllTaken(x, b, available.value, k))
    case Overwrite(key', value', p) =>
      && (key', value') == (key, value) && b <= p < b + 8 && mode != STRICT_INSERT
      && Happened(x, Hit(p), k) && !Happened(x, Writes, k)
    case Claim(key', value', p) =>
      && (key', value') == (key, value) && b <= p < b + 8 && mode != STRICT_UPDATE
      && NoHit(x, k) && !Happened(x, Writes, k) && AllMissed(x, b, b + 8, k) && AllTaken(x, b, p, k)
    case Store(key', value', p) =>
      && (key', value') == (key, value) && b <= p < b + 8 && mode != STRICT_UPDATE
      && NoHit(x, k) && AllMissed(x, b, b + 8, k) && Happened(x, Claims(p), k)
    case Publish(key', value', p) =>
      && (key', value') == (key, value) && b <= p < b + 8 && mode != STRICT_UPDATE
      && NoHit(x, k) && AllMissed(x, b, b + 8, k) && Then(x, Claims(p), Stores(p), k)
    case Tally =>
      && mode != STRICT_UPDATE && NoHit(x, k) && AllMissed(x, b, b + 8, k)
      && exists p: nat :: b <= p < b + 8 && Published(x, p, k)
    case Idle(code) => ModifyTells(x, b, k, code)
    case _ => false
  }

  /** What each code of hash_modify() tells. */
  ghost predicate ModifyTells(x: Trace, b: nat, k: nat, code: nat)
    requires k <= |x.actions| < |x.states| && x.call.Modify?
  {
    var mode := x.call.mode;
    && (code == 0 <==> (mode != STRICT_INSERT && !NoHit(x, k)) || !NoClaim(x, k))
    && (code == 1 <==> mode == STRICT_UPDATE && NoHit(x, k))
    && (code == 2 <==> mode != STRICT_UPDATE && NoHit(x, k) && NoClaim(x, k))
    && (code == 3 <==> mode == STRICT_INSERT && !NoHit(x, k))
    && (NoHit(x, k) ==> AllMissed(x, b, b + 8, k))
    && (code == 0 && !NoHit(x, k) ==> exists p: nat :: b <= p < b + 8 && Then(x, Hit(p), Stores(p), k))
    && (code == 0 && NoHit(x, k) ==> exists p: nat :: b <= p < b + 8 && Published(x, p, k))
    && (code == 2 ==> AllTaken(x, b, b + 8, k))
    && (code != 0 ==> !Happened(x, Writes, k))
  }

  ghost predicate KnowsNocheck(x: Trace, b: nat, k: nat, th: Thread)
    requires k <= |x.actions| < |x.states| && x.call.InsertNocheck?
  {
    var InsertNocheck(key, value) := x.call;
    match th
    case Claim(key', value', p) =>
      (key', value') == (key, value) && b <= p < b + 8 && !Happened(x, Writes, k) && AllTaken(x, b, p, k)
    case Store(key', value', p) => (key', value') == (key, value) && b <= p < b + 8 && Happened(x, Claims(p), k)
    case Publish(key', value', p) =>
      (key', value') == (key, value) && b <= p < b + 8 && Then(x, Claims(p), Stores(p), k)
    case Tally => exists p: nat :: b <= p < b + 8 && Published(x, p, k)
    case Idle(code) => NocheckTells(x, b, k, code)
    case _ => false
  }

  /** What each code of hash_insert_nocheck() tells. */
  ghost predicate NocheckTells(x: Trace, b: nat, k: nat, code: nat)
    requires k <= |x.actions| < |x.states|
  {
    && (code == 0 <==> !NoClaim(x, k)) && (code == 2 <==> NoClaim(x, k))
    && (code == 0 ==> exists p: nat :: b <= p < b + 8 && Published(x, p, k))
    && (code == 2 ==> AllTaken(x, b, b + 8, k) && !Happened(x, Writes, k))
  }

  ghost predicate KnowsDelete(x: Trace, b: nat, k: nat, th: Thread)
    requires k <= |x.actions| < |x.states| && x.call.Delete?
  {
    var key := x.call.key;
    match th
    case Seek(key', p) =>
      key' == key && b <= p < b + 8 && NoHit(x, k) && AllMissed(x, b, p, k) && !Happened(x, Writes, k)
    case Erase(key', p) => key' == key && b <= p < b + 8 && Happened(x, Hit(p), k) && !Happened(x, Writes, k)
    case Untally => exists p: nat :: b <= p < b + 8 && Then(x, Hit(p), Erases(p), k)
    case Idle(code) => DeleteTells(x, b, k, code)
    case _ => false
  }

  /** What each code of the deleting hash_search() tells. */
  ghost predicate DeleteTells(x: Trace, b: nat, k: nat, code: nat)
    requires k <= |x.actions| < |x.states|
  {
    && code <= 1
    && (code == 1 <==> exists p: nat :: Happened(x, Erases(p), k))
    && (code == 1 ==> exists p: nat :: b <= p < b + 8 && Then(x, Hit(p), Erases(p), k))
    && (code == 0 ==> !Happened(x, Writes, k))
    && (code == 0 ==> || (NoHit(x, k) && AllMissed(x, b, b + 8, k))
                      || exists p: nat :: b <= p < b + 8 && Then(x, Hit(p), Loses(p), k))
  }

  ghost predicate Knows(x: Trace, b: nat, k: nat, th: Thread)
    requires k <= |x.actions| < |x.states|
  {
    match x.call
    case Modify(_, _, _) => KnowsModify(x, b, k, th)
    case InsertNocheck(_, _) => KnowsNocheck(x, b, k, th)
    case Delete(_) => KnowsDelete(x, b, k, th)
  }

  /** The k-th step of the run is thread t's, in the bin that starts at b. */
  ghost predicate OwnStep(x: Trace, b: nat, k: nat) {
    && k < |x.actions| < |x.states| && x.actions[k].t == x.t
    && var s := x.states[k];
       && Shaped(s) && x.t < |s.threads| && Placed(s, s.threads[x.t]) && Base(s, x.call.key) == b
       && !Parts.Special(x.call.key)
       && x.states[k + 1] == Next(s, x.t, x.actions[k].call)
  }

  lemma NextSlotIs(s: State, key: Key, p: nat, b: nat)
    requires Shaped(s) && InBin(s, key, p) && Base(s, key) == b
    ensures b <= p < b + 8 && p < |s.slots|
    ensures NextSlot(s, key, p) == if p + 1 < b + 8 then Some(p + 1) else None
  {
    hide PowerOfTwo, BinOf, Base;
  }

  /** Everything but the word that is written stays. */
  lemma NoWrite(x: Trace, b: nat, k: nat)
    requires OwnStep(x, b, k)
    requires var s, n := x.states[k], x.states[k + 1]; n.slots == s.slots && n.values == s.values && n.count == s.count
    ensures !OccursAt(x, Writes, k) && forall q: nat :: !OccursAt(x, Claims(q), k) && !OccursAt(x, Erases(q), k)
  {
    hide PowerOfTwo, BinOf, Placed, Next, Shaped;
    Flags();
  }

  /** The first step of a call. */
  lemma StartKnows(x: Trace, b: nat, k: nat)
    requires OwnStep(x, b, k) && x.states[k].threads[x.t].Idle? && x.actions[k].call == x.call
    requires forall e :: !Happened(x, e, k)
    ensures Knows(x, b, k + 1, x.states[k + 1].threads[x.t])
  {
    hide PowerOfTwo, BinOf, Parts.Special, Base, Happened, Then, OccursAt, Placed;
    OneMore(x, k);
    NoWrite(x, b, k);
    NoLook(x, b, k);
  }

  lemma NoLook(x: Trace, b: nat, k: nat)
    requires OwnStep(x, b, k) && !x.states[k].threads[x.t].Scan? && !x.states[k].threads[x.t].Seek?
    ensures forall q: nat :: !OccursAt(x, Hit(q), k)
  {
    hide PowerOfTwo, BinOf, Parts.Special, Base, Placed, Next;
  }

  /** Where the scan goes from slot p. */
  function ScanNext(th: Thread, b: nat, word: Key): Thread
    requires th.Scan?
  {
    var available := if word == ZERO && th.available.None? then Some(th.p) else th.available;
    if word == th.key then if th.mode == STRICT_INSERT then Idle(EXISTS_CODE) else Overwrite(th.key, th.value, th.p)
    else if th.p + 1 < b + 8 then th.(p := th.p + 1, available := available)
    else if th.mode == STRICT_UPDATE then Idle(NOT_FOUND_CODE)
    else if available.None? then Idle(BIN_FULL_CODE)
    else Claim(th.key, th.value, available.value)
  }

  lemma ScanMoves(x: Trace, b: nat, k: nat)
    requires OwnStep(x, b, k) && x.states[k].threads[x.t].Scan? && x.states[k].threads[x.t].key == x.call.key
    ensures var s, n, th := x.states[k], x.states[k + 1], x.states[k].threads[x.t];
            && b <= th.p < b + 8 && th.p < |s.slots| && x.t < |n.threads|
            && n.threads[x.t] == ScanNext(th, b, s.slots[th.p])
            && n.slots == s.slots && n.values == s.values && n.count == s.count
  {
    hide PowerOfTwo, BinOf, Parts.Special, Base, NextSlot, InBin;
    var s, th := x.states[k], x.states[k].threads[x.t];
    NextSlotIs(s, th.key, th.p, b);
  }

  lemma ScanKnows(x: Trace, b: nat, k: nat)
    requires OwnStep(x, b, k) && x.call.Modify? && x.states[k].threads[x.t].Scan?
    requires KnowsModify(x, b, k, x.states[k].threads[x.t])
    ensures KnowsModify(x, b, k + 1, x.states[k + 1].threads[x.t])
  {
    hide PowerOfTwo, BinOf, Parts.Special, Base, Happened, Then, OccursAt, NoClaim, Next, Placed, Shaped;
    ScanMoves(x, b, k);
    OneMore(x, k);
    NoWrite(x, b, k);
    LookIs(x, b, k);
    QuietNoClaim(x, k + 1);
    var s, th := x.states[k], x.states[k].threads[x.t];
    if s.slots[th.p] == th.key {
      assert OccursAt(x, Hit(th.p), k);
      assert !NoHit(x, k + 1);
    } else {
      assert OccursAt(x, Miss(th.p), k);
      assert NoHit(x, k + 1);
      MissedOneMore(x, b, th.p, k);
      TakenOneMore(x, b, th.p, k);
    }
  }

  lemma MissedOneMore(x: Trace, low: nat, p: nat, k: nat)
    requires k < |x.actions| < |x.states|
    ensures AllMissed(x, low, p, k) && OccursAt(x, Miss(p), k) ==> AllMissed(x, low, p + 1, k + 1)
    ensures forall high: nat :: AllMissed(x, low, high, k) ==> AllMissed(x, low, high, k + 1)
  {
    hide Happened, OccursAt;
    OneMore(x, k);
  }

  lemma TakenOneMore(x: Trace, low: nat, p: nat, k: nat)
    requires k < |x.actions| < |x.states|
    ensures AllTaken(x, low, p, k) && OccursAt(x, Taken(p), k) ==> AllTaken(x, low, p + 1, k + 1)
    ensures forall high: nat :: AllTaken(x, low, high, k) ==> AllTaken(x, low, high, k + 1)
  {
    hide Happened, OccursAt;
    OneMore(x, k);
  }

  lemma LookIs(x: Trace, b: nat, k: nat)
    requires OwnStep(x, b, k)
    requires var th := x.states[k].threads[x.t]; (th.Scan? || th.Seek?) && th.p < |x.states[k].slots|
    ensures var s, p := x.states[k], x.states[k].threads[x.t].p;
            && (forall q: nat :: OccursAt(x, Hit(q), k) <==> q == p && s.slots[p] == x.call.key)
            && (forall q: nat :: OccursAt(x, Miss(q), k) <==> q == p && s.slots[p] != x.call.key)
            && (forall q: nat :: OccursAt(x, Taken(q), k) <==> q == p && s.slots[p] != ZERO)
  {
    hide PowerOfTwo, BinOf, Parts.Special, Base, Placed, Next;
  }

  /** Who has written nothing has claimed and erased nothing. */
  lemma QuietNoClaim(x: Trace, k: nat)
    requires k <= |x.actions| < |x.states|
    ensures !Happened(x, Writes, k) ==> NoClaim(x, k)
    ensures !Happened(x, Writes, k) && !Parts.Special(x.call.key) ==> forall q: nat :: !Happened(x, Erases(q), k)
  {
    hide Parts.Special;
    Flags();
    forall q: nat | Happened(x, Claims(q), k) ensures Happened(x, Writes, k) {
      var i: nat :| i < k && OccursAt(x, Claims(q), i);
      assert OccursAt(x, Writes, i);
    }
    forall q: nat | Happened(x, Erases(q), k) && !Parts.Special(x.call.key) ensures Happened(x, Writes, k) {
      var i: nat :| i < k && OccursAt(x, Erases(q), i);
      assert OccursAt(x, Writes, i);
    }
  }

  /** The steps that follow a load of the key, and those of a claimant. */
  lemma WriterMoves(x: Trace, b: nat, k: nat)
    requires OwnStep(x, b, k)
    requires var th := x.states[k].threads[x.t]; th.Overwrite? || th.Store? || th.Publish? || th.Tally? || th.Untally?
    ensures var s, n, th := x.states[k], x.states[k + 1], x.states[k].threads[x.t];
            && |n.threads| == |s.threads| && |n.slots| == |s.slots| == |s.values|
            && (th.Overwrite? || th.Store? || th.Publish? ==> InBin(s, th.key, th.p))
            && (th.Overwrite? || th.Store? ==> n.slots == s.slots && n.values == s.values[th.p := th.value])
            && (th.Publish? ==> n.slots == s.slots[th.p := th.key])
            && (th.Tally? || th.Untally? ==> n.slots == s.slots)
            && n.threads[x.t] == (match th
                                  case Store(key, value, p) => Publish(key, value, p)
                                  case Publish(_, _, _) => Tally
                                  case Untally => Idle(1)
                                  case _ => Idle(0))
  {
    hide PowerOfTwo, BinOf, Parts.Special, Base, InBin;
  }

  /** From a hit to the store of the value. */
  lemma OverwriteKnows(x: Trace, b: nat, k: nat)
    requires OwnStep(x, b, k) && x.call.Modify? && x.states[k].threads[x.t].Overwrite?
    requires KnowsModify(x, b, k, x.states[k].threads[x.t])
    ensures KnowsModify(x, b, k + 1, x.states[k + 1].threads[x.t])
  {
    hide PowerOfTwo, BinOf, Parts.Special, Base, Happened, Then, OccursAt, NoClaim, Next, Placed;
    WriterMoves(x, b, k);
    OneMore(x, k);
    var p := x.states[k].threads[x.t].p;
    assert OccursAt(x, Stores(p), k) by { StoreOccurs(x, b, k); }
    assert Then(x, Hit(p), Stores(p), k + 1);
  }

  lemma StoreOccurs(x: Trace, b: nat, k: nat)
    requires OwnStep(x, b, k) && !x.call.Delete?
    requires var th := x.states[k].threads[x.t]; (th.Overwrite? || th.Store?) && th.value == x.call.value
    ensures OccursAt(x, Stores(x.states[k].threads[x.t].p), k)
  {
    hide PowerOfTwo, BinOf, Parts.Special, Base, Next, Placed;
    WriterMoves(x, b, k);
  }

  lemma ShowOccurs(x: Trace, b: nat, k: nat)
    requires OwnStep(x, b, k) && Owned(x.states[k])
    requires var th := x.states[k].threads[x.t]; th.Publish? && th.key == x.call.key
    ensures OccursAt(x, Shows(x.states[k].threads[x.t].p), k)
  {
    hide PowerOfTwo, BinOf, Parts.Special, Base, Next, Placed, Owned;
    WriterMoves(x, b, k);
    OwnerMarks(x.states[k], x.t, x.states[k].threads[x.t].p);
  }

  /** Where a lost claim leads, and a won one. */
  lemma ClaimMoves(x: Trace, b: nat, k: nat)
    requires OwnStep(x, b, k) && x.states[k].threads[x.t].Claim? && x.states[k].threads[x.t].key == x.call.key
    ensures var s, n, th := x.states[k], x.states[k + 1], x.states[k].threads[x.t];
            && b <= th.p < b + 8 && th.p < |s.slots| && x.t < |n.threads|
            && (s.slots[th.p] == ZERO ==>
                  n.threads[x.t] == Store(th.key, th.value, th.p) && OccursAt(x, Claims(th.p), k))
            && (s.slots[th.p] != ZERO ==>
                  && n.threads[x.t] == (if th.p + 1 < b + 8 then Claim(th.key, th.value, th.p + 1)
                                        else Idle(BIN_FULL_CODE))
                  && n.slots == s.slots && n.values == s.values && n.count == s.count
                  && OccursAt(x, Taken(th.p), k))
  {
    hide PowerOfTwo, BinOf, Parts.Special, Base, NextSlot, InBin;
    var s, th := x.states[k], x.states[k].threads[x.t];
    NextSlotIs(s, th.key, th.p, b);
  }

  lemma ClaimKnows(x: Trace, b: nat, k: nat)
    requires OwnStep(x, b, k) && x.call.Modify? && x.states[k].threads[x.t].Claim?
    requires KnowsModify(x, b, k, x.states[k].threads[x.t])
    ensures KnowsModify(x, b, k + 1, x.states[k + 1].threads[x.t])
  {
    hide PowerOfTwo, BinOf, Parts.Special, Base, Happened, Then, OccursAt, NoClaim, Next, Placed, Shaped;
    ClaimMoves(x, b, k);
    OneMore(x, k);
    NoLook(x, b, k);
    var s, p := x.states[k], x.states[k].threads[x.t].p;
    MissedOneMore(x, b, p, k);
    TakenOneMore(x, b, p, k);
    if s.slots[p] != ZERO {
      NoWrite(x, b, k);
      QuietNoClaim(x, k + 1);
    }
  }

  /** From the claim to the fetch-and-add. */
  lemma FillKnows(x: Trace, b: nat, k: nat)
    requires OwnStep(x, b, k) && x.call.Modify? && Owned(x.states[k])
    requires var th := x.states[k].threads[x.t]; th.Store? || th.Publish? || th.Tally?
    requires KnowsModify(x, b, k, x.states[k].threads[x.t])
    ensures KnowsModify(x, b, k + 1, x.states[k + 1].threads[x.t])
  {
    hide PowerOfTwo, BinOf, Parts.Special, Base, Happened, Then, OccursAt, Next, Placed, Shaped, Owned;
    var th := x.states[k].threads[x.t];
    WriterMoves(x, b, k);
    OneMore(x, k);
    NoLook(x, b, k);
    MissedOneMore(x, b, b, k);
    if th.Store? {
      StoreOccurs(x, b, k);
    } else if th.Publish? {
      ShowOccurs(x, b, k);
      StoredIs(x, th.p, k);
      assert Published(x, th.p, k + 1);
    } else {
      var p: nat :| b <= p < b + 8 && Published(x, p, k);
      assert Published(x, p, k + 1);
      StoredIs(x, p, k + 1);
      assert Happened(x, Claims(p), k + 1);
    }
  }

  lemma StoredIs(x: Trace, p: nat, k: nat)
    requires k <= |x.actions| < |x.states| && Then(x, Claims(p), Stores(p), k)
    ensures Happened(x, Stores(p), k) && Happened(x, Claims(p), k)
  {
    hide OccursAt;
  }

  lemma NocheckKnows(x: Trace, b: nat, k: nat)
    requires OwnStep(x, b, k) && x.call.InsertNocheck? && Owned(x.states[k]) && !x.states[k].threads[x.t].Idle?
    requires KnowsNocheck(x, b, k, x.states[k].threads[x.t])
    ensures KnowsNocheck(x, b, k + 1, x.states[k + 1].threads[x.t])
  {
    hide PowerOfTwo, BinOf, Parts.Special, Base, Happened, Then, OccursAt, Next, Placed, Shaped, Owned;
    var s, th := x.states[k], x.states[k].threads[x.t];
    OneMore(x, k);
    match th
    case Claim(_, _, p) =>
      ClaimMoves(x, b, k);
      TakenOneMore(x, b, p, k);
      if s.slots[p] != ZERO {
        NoWrite(x, b, k);
        QuietNoClaim(x, k + 1);
      }
    case Store(_, _, p) =>
      WriterMoves(x, b, k);
      StoreOccurs(x, b, k);
    case Publish(_, _, p) =>
      WriterMoves(x, b, k);
      ShowOccurs(x, b, k);
      StoredIs(x, p, k);
      assert Published(x, p, k + 1);
    case Tally =>
      WriterMoves(x, b, k);
      var p: nat :| b <= p < b + 8 && Published(x, p, k);
      assert Published(x, p, k + 1);
      StoredIs(x, p, k + 1);
      assert Happened(x, Claims(p), k + 1);
  }

  /** Where the search goes from slot p, and the compare-and-exchange. */
  lemma SeekMoves(x: Trace, b: nat, k: nat)
    requires OwnStep(x, b, k)
    requires var th := x.states[k].threads[x.t]; (th.Seek? || th.Erase?) && th.key == x.call.key
    ensures var s, n, th := x.states[k], x.states[k + 1], x.states[k].threads[x.t];
            && b <= th.p < b + 8 && th.p < |s.slots| && x.t < |n.threads|
            && (th.Seek? || s.slots[th.p] != th.key ==>
                  n.slots == s.slots && n.values == s.values && n.count == s.count)
            && (th.Seek? ==> n.threads[x.t] == (if s.slots[th.p] == th.key then Erase(th.key, th.p)
                                                else if th.p + 1 < b + 8 then Seek(th.key, th.p + 1) else Idle(0)))
            && (th.Erase? && s.slots[th.p] == th.key ==> n.threads[x.t] == Untally && OccursAt(x, Erases(th.p), k))
            && (th.Erase? && s.slots[th.p] != th.key ==> n.threads[x.t] == Idle(0) && OccursAt(x, Loses(th.p), k))
  {
    hide PowerOfTwo, BinOf, Parts.Special, Base, NextSlot, InBin;
    var s, th := x.states[k], x.states[k].threads[x.t];
    NextSlotIs(s, th.key, th.p, b);
  }

  lemma DeleteKnows(x: Trace, b: nat, k: nat)
    requires OwnStep(x, b, k) && x.call.Delete? && !x.states[k].threads[x.t].Idle?
    requires KnowsDelete(x, b, k, x.states[k].threads[x.t])
    ensures KnowsDelete(x, b, k + 1, x.states[k + 1].threads[x.t])
  {
    hide PowerOfTwo, BinOf, Parts.Special, Base, Happened, Then, OccursAt, Next, Placed, Shaped;
    var s, th := x.states[k], x.states[k].threads[x.t];
    OneMore(x, k);
    match th
    case Seek(key, p) =>
      SeekMoves(x, b, k);
      LookIs(x, b, k);
      NoWrite(x, b, k);
      QuietNoClaim(x, k + 1);
      MissedOneMore(x, b, p, k);
    case Erase(key, p) =>
      SeekMoves(x, b, k);
      if s.slots[p] != key {
        NoWrite(x, b, k);
        QuietNoClaim(x, k + 1);
      }
    case Untally =>
      WriterMoves(x, b, k);
      var p: nat :| b <= p < b + 8 && Then(x, Hit(p), Erases(p), k);
      assert Then(x, Hit(p), Erases(p), k + 1);
      SecondHappened(x, Hit(p), Erases(p), k + 1);
  }

  lemma SecondHappened(x: Trace, e1: Event, e2: Event, k: nat)
    requires k <= |x.actions| < |x.states| && Then(x, e1, e2, k)
    ensures Happened(x, e2, k) && Happened(x, e1, k)
  {
    hide OccursAt;
  }

  /** The thread's own steps keep what it knows up to date. */
  lemma OwnStepKnows(x: Trace, b: nat, k: nat)
    requires OwnStep(x, b, k) && Owned(x.states[k]) && !x.states[k].threads[x.t].Idle?
    requires Knows(x, b, k, x.states[k].threads[x.t])
    ensures Knows(x, b, k + 1, x.states[k + 1].threads[x.t])
  {
    hide PowerOfTwo, BinOf, Parts.Special, Base, Happened, Then, OccursAt, Next, Placed, Shaped, Owned, NoClaim;
    match x.call
    case InsertNocheck(_, _) => NocheckKnows(x, b, k);
    case Delete(_) => DeleteKnows(x, b, k);
    case Modify(_, _, _) =>
      match x.states[k].threads[x.t]
      case Scan(_, _, _, _, _) => ScanKnows(x, b, k);
      case Overwrite(_, _, _) => OverwriteKnows(x, b, k);
      case Claim(_, _, _) => ClaimKnows(x, b, k);
      case _ => FillKnows(x, b, k);
  }

  // ------------------------------------------------------------- whole runs

  /** Thread t is idle at first and makes this one call, among whatever the others do. */
  ghost predicate OneCall(x: Trace) {
    && Run(x.states, x.actions) && Inv(x.states[0]) && x.t < |x.states[0].threads| && x.states[0].threads[x.t].Idle?
    && !Parts.Special(x.call.key) && Started(x.states, x.actions, {x.t}) == [Action(x.t, x.call)]
  }

  ghost function Bin(x: Trace): nat
    requires OneCall(x)
  {
    Base(x.states[0], x.call.key)
  }

  lemma {:induction false} StartedGrows(states: seq<State>, actions: seq<Action>, who: set<nat>, k: nat)
    requires k <= |actions| <= |states|
    ensures Started(states, actions[..k], who) <= Started(states, actions, who)
    decreases |actions|
  {
    hide StartedAt;
    if k == |actions| {
      assert actions[..k] == actions;
    } else {
      var i := |actions| - 1;
      StartedGrows(states, actions[..i], who, k);
      assert actions[..i][..k] == actions[..k];
    }
  }

  lemma StartedOneMore(states: seq<State>, actions: seq<Action>, who: set<nat>, k: nat)
    requires k < |actions| <= |states|
    ensures Started(states, actions[..k + 1], who) ==
            Started(states, actions[..k], who) + StartedAt(states[k], actions[k], who)
  {
    hide StartedAt;
    assert actions[..k + 1][..k] == actions[..k];
  }

  /** What the thread knows after k steps of the run: nothing before its call, and the
      invariant from then on. */
  ghost predicate KnowsAt(x: Trace, k: nat)
    requires OneCall(x) && k <= |x.actions| < |x.states|
  {
    var started := Started(x.states, x.actions[..k], {x.t});
    && x.t < |x.states[k].threads|
    && (started == [] || started == [Action(x.t, x.call)])
    && (started == [] ==> x.states[k].threads[x.t].Idle? && forall e :: !Happened(x, e, k))
    && (started != [] ==> Knows(x, Bin(x), k, x.states[k].threads[x.t]))
  }

  lemma {:induction false} CallKnows(x: Trace, k: nat)
    requires OneCall(x) && k <= |x.actions| < |x.states|
    ensures KnowsAt(x, k)
  {
    hide PowerOfTwo, BinOf, Parts.Special, Base, Happened, Then, OccursAt, Next, Placed, Shaped, Inv, Knows, Run,
      Started;
    if k == 0 {
      NothingStarted(x);
      NothingYet(x);
    } else {
      CallKnows(x, k - 1);
      TableStays(x, k - 1);
      StartedOneMore(x.states, x.actions, {x.t}, k - 1);
      StartedGrows(x.states, x.actions, {x.t}, k);
      if x.actions[k - 1].t == x.t { OwnTurn(x, k - 1); } else { OtherTurn(x, k - 1); }
    }
  }

  lemma NothingStarted(x: Trace)
    requires OneCall(x)
    ensures Started(x.states, x.actions[..0], {x.t}) == []
  {
  }

  /** The table keeps its shape, so the key's bin stays where it is. */
  lemma TableStays(x: Trace, k: nat)
    requires OneCall(x) && k < |x.actions|
    ensures |x.states| == |x.actions| + 1 && x.actions[k].t < |x.states[k].threads|
    ensures var s, n := x.states[k], x.states[k + 1];
            && Inv(s) && Shaped(s) && Owned(s) && Placed(s, s.threads[x.actions[k].t])
            && n == Next(s, x.actions[k].t, x.actions[k].call) && |n.threads| == |s.threads|
            && Base(s, x.call.key) == Bin(x)
            && forall u :: 0 <= u < |s.threads| && u != x.actions[k].t ==> n.threads[u] == s.threads[u]
  {
    hide PowerOfTwo, BinOf, Parts.Special, Next, Placed, Started;
    RunInv(x.states, x.actions, k);
    SameGeometry(x, k);
    PlacedNext(x.states[k], x.actions[k].t, x.actions[k].call);
  }

  lemma {:induction false} SameGeometry(x: Trace, k: nat)
    requires OneCall(x) && k < |x.states|
    ensures x.states[k].size == x.states[0].size && x.states[k].hash == x.states[0].hash
  {
    hide PowerOfTwo, BinOf, Parts.Special, Next, Placed, Started, Inv, Shaped;
    if k > 0 {
      SameGeometry(x, k - 1);
      ShapeStep(x.states[k - 1], x.actions[k - 1].t, x.actions[k - 1].call);
    }
  }

  lemma OtherTurn(x: Trace, k: nat)
    requires OneCall(x) && k < |x.actions| < |x.states| && KnowsAt(x, k) && x.actions[k].t != x.t
    requires x.t < |x.states[k + 1].threads| && x.states[k + 1].threads[x.t] == x.states[k].threads[x.t]
    requires Started(x.states, x.actions[..k + 1], {x.t}) ==
             Started(x.states, x.actions[..k], {x.t}) + StartedAt(x.states[k], x.actions[k], {x.t})
    ensures KnowsAt(x, k + 1)
  {
    hide PowerOfTwo, BinOf, Parts.Special, Base, Happened, Then, OneCall, Knows, Bin, Started;
    OneMore(x, k);
    assert forall e :: !OccursAt(x, e, k);
    var th := x.states[k].threads[x.t];
    assert StartedAt(x.states[k], x.actions[k], {x.t}) == [];
    assert Started(x.states, x.actions[..k + 1], {x.t}) == Started(x.states, x.actions[..k], {x.t});
    assert forall e :: Happened(x, e, k + 1) <==> Happened(x, e, k);
    assert x.states[k + 1].threads[x.t] == th;
    if Started(x.states, x.actions[..k], {x.t}) != [] {
      SameKnown(x, Bin(x), k, th);
      assert Knows(x, Bin(x), k + 1, th);
    } else {
      assert forall e :: !Happened(x, e, k);
      var n := k + 1;
      forall e ensures !Happened(x, e, n) { assert !Happened(x, e, k); }
    }
  }

  lemma SameSummary(x: Trace, k: nat)
    requires k < |x.actions| < |x.states| && x.actions[k].t != x.t
    ensures NoHit(x, k + 1) == NoHit(x, k) && NoClaim(x, k + 1) == NoClaim(x, k)
    ensures forall low: nat, high: nat :: AllMissed(x, low, high, k + 1) == AllMissed(x, low, high, k)
    ensures forall low: nat, high: nat :: AllTaken(x, low, high, k + 1) == AllTaken(x, low, high, k)
    ensures forall p: nat :: Published(x, p, k + 1) == Published(x, p, k)
  {
    hide Happened, Then;
    OneMore(x, k);
    assert forall e :: !OccursAt(x, e, k);
    assert forall e :: Happened(x, e, k + 1) <==> Happened(x, e, k);
  }

  /** What was known stays known, whatever the others do. */
  lemma SameKnown(x: Trace, b: nat, k: nat, th: Thread)
    requires k < |x.actions| < |x.states| && x.actions[k].t != x.t && Knows(x, b, k, th)
    ensures Knows(x, b, k + 1, th)
  {
    hide Happened, Then, NoHit, NoClaim, AllMissed, AllTaken, Published;
    OneMore(x, k);
    assert forall e :: !OccursAt(x, e, k);
    SameSummary(x, k);
    match x.call
    case Modify(_, _, _) =>
      if th.Tally? { var p: nat :| b <= p < b + 8 && Published(x, p, k); assert Published(x, p, k + 1); }
    case InsertNocheck(_, _) =>
    case Delete(_) =>
  }

  lemma OwnTurn(x: Trace, k: nat)
    requires OneCall(x) && k < |x.actions| < |x.states| && KnowsAt(x, k) && x.actions[k].t == x.t
    requires OwnStep(x, Bin(x), k) && Owned(x.states[k]) && x.t < |x.states[k + 1].threads|
    requires Started(x.states, x.actions[..k + 1], {x.t}) ==
             Started(x.states, x.actions[..k], {x.t}) + StartedAt(x.states[k], x.actions[k], {x.t})
    requires Started(x.states, x.actions[..k + 1], {x.t}) <= [Action(x.t, x.call)]
    ensures KnowsAt(x, k + 1)
  {
    hide PowerOfTwo, BinOf, Parts.Special, Base, Happened, Then, OneCall, Knows, Bin, Started, OccursAt, OwnStep, Owned;
    var started := Started(x.states, x.actions[..k], {x.t});
    if started == [] {
      assert x.actions[k] == (started + StartedAt(x.states[k], x.actions[k], {x.t}))[0];
      StartKnows(x, Bin(x), k);
    } else {
      if x.states[k].threads[x.t].Idle? { assert false; }
      OwnStepKnows(x, Bin(x), k);
    }
  }

  /** When the call has returned, its code tells what happened. */
  lemma CallTells(x: Trace, code: nat)
    requires OneCall(x) && x.t < |x.states[|x.actions|].threads| && x.states[|x.actions|].threads[x.t] == Idle(code)
    ensures |x.states| == |x.actions| + 1
    ensures x.call.Modify? ==> ModifyTells(x, Bin(x), |x.actions|, code)
    ensures x.call.InsertNocheck? ==> NocheckTells(x, Bin(x), |x.actions|, code)
    ensures x.call.Delete? ==> DeleteTells(x, Bin(x), |x.actions|, code)
  {
    hide ModifyTells, NocheckTells, DeleteTells, Bin, Happened, PowerOfTwo, BinOf, Parts.Special, Inv, Next, Placed,
      Shaped, Started;
    CallKnows(x, |x.actions|);
    assert x.actions[..|x.actions|] == x.actions;
  }

  /** Step i is thread t's own, and takes the key out of slot p. */
  ghost predicate TakesOut(x: Trace, i: nat, p: nat) {
    && i < |x.actions| < |x.states| && x.actions[i].t == x.t
    && p < |x.states[i].slots| == |x.states[i + 1].slots|
    && x.states[i].slots[p] == x.call.key && x.states[i + 1].slots[p] == ZERO
  }

  /** A deletion returns 1 exactly if one of the thread's own steps took the key out of
      a slot, and 0 exactly if none did. */
  lemma DeleteErases(x: Trace, code: nat)
    requires OneCall(x) && x.call.Delete?
    requires x.t < |x.states[|x.actions|].threads| && x.states[|x.actions|].threads[x.t] == Idle(code)
    ensures code == 1 <==> exists i: nat, p: nat :: TakesOut(x, i, p)
    ensures code == 0 <==> !exists i: nat, p: nat :: TakesOut(x, i, p)
  {
    hide PowerOfTwo, BinOf, Parts.Special, Inv, Placed, Shaped, Started, Next;
    CallTells(x, code);
    if code == 1 {
      var p: nat :| Happened(x, Erases(p), |x.actions|);
      var i: nat :| i < |x.actions| && OccursAt(x, Erases(p), i);
      assert TakesOut(x, i, p);
    }
    if i: nat, p: nat :| TakesOut(x, i, p) {
      TableStays(x, i);
      assert OccursAt(x, Erases(p), i);
      assert Happened(x, Erases(p), |x.actions|);
    }
  }

  // ------------------------------------------------------ for the methods

  /** What the code tells about the run; b is the first slot of the key's bin. */
  ghost predicate Tells(x: Trace, b: nat, code: nat)
    requires |x.actions| < |x.states|
  {
    match x.call
    case Modify(_, _, _) => ModifyTells(x, b, |x.actions|, code)
    case InsertNocheck(_, _) => NocheckTells(x, b, |x.actions|, code)
    case Delete(_) => DeleteTells(x, b, |x.actions|, code)
  }

  /** A run from s to n in which thread t makes just this call; and its code tells what
      it met and what it wrote. */
  ghost predicate Answers(s: State, n: State, t: nat, call: Call, code: nat, x: Trace) {
    && x.t == t && x.call == call && IsRun(x.states, x.actions, s, n)
    && Started(x.states, x.actions, {t}) == [Action(t, call)]
    && s.size > 0 && Tells(x, 8 * (s.hash(call.key) % s.size), code)
  }

  ghost predicate Told(s: State, n: State, t: nat, call: Call, code: nat) {
    exists x: Trace :: Answers(s, n, t, call, code, x)
  }

  lemma LeadsTold(s: State, n: State, t: nat, call: Call, code: nat)
    requires Leads(s, n, {t}, [Action(t, call)]) && Inv(s) && t < |s.threads| && s.threads[t].Idle?
    requires !Parts.Special(call.key) && t < |n.threads| && n.threads[t] == Idle(code)
    ensures Told(s, n, t, call, code)
  {
    hide PowerOfTwo, BinOf, Parts.Special, Inv, Next, Placed, Shaped, Started, ModifyTells, NocheckTells, DeleteTells;
    var states, actions :| IsRun(states, actions, s, n) && |actions| <= |states| &&
                           Started(states, actions, {t}) == [Action(t, call)];
    var x := Trace(states, actions, t, call);
    CallTells(x, code);
    BinStart(x);
    assert Answers(s, n, t, call, code, x);
  }

  lemma BinStart(x: Trace)
    requires OneCall(x)
    ensures var s := x.states[0]; s.size > 0 && Bin(x) == 8 * (s.hash(x.call.key) % s.size)
  {
    hide BinOf;
    BinIsRemainder(x.states[0].hash(x.call.key), x.states[0].size);
  }
}
