/** How threads share the slots of the concurrent hash table (src/hash.c): every
    atomic load, store, compare-and-exchange and fetch-and-add is one step, and any
    number of threads take their steps in any order. */
module SlotProtocol {
  import opened Trie
  import opened Slots
  import opened Bins
  import opened Parts
  import opened Hash

  const WRAP := 0x1_0000_0000_0000_0000

  datatype Call =
    | Modify(key: Key, value: Value, mode: Mode)
    | InsertNocheck(key: Key, value: Value)
    | Delete(key: Key)

  /** Where a thread stands; `code` is what its last call returned. */
  datatype Thread =
    | Idle(code: nat)
    | Scan(key: Key, value: Value, mode: Mode, p: nat, available: Option<nat>)
    | Overwrite(key: Key, value: Value, p: nat)
    | Claim(key: Key, value: Value, p: nat)
    | Store(key: Key, value: Value, p: nat)
    | Publish(key: Key, value: Value, p: nat)
    | Tally
    | Seek(key: Key, p: nat)
    | Erase(key: Key, p: nat)
    | Untally

  /** `hash` may be any function of the keys. */
  datatype State = State(hash: Key -> nat, size: nat, slots: seq<Key>, values: seq<Value>, count: nat,
                         threads: seq<Thread>)

  const OK_CODE := 0
  const NOT_FOUND_CODE := 1
  const BIN_FULL_CODE := 2
  const EXISTS_CODE := 3

  predicate Shaped(s: State) {
    PowerOfTwo(s.size) && |s.slots| == |s.values| == BIN_CAPACITY * s.size
  }

  function Base(s: State, key: Key): nat
    requires Shaped(s)
  {
    BIN_CAPACITY * BinOf(s.hash(key), s.size)
  }

  predicate InBin(s: State, key: Key, p: nat)
    requires Shaped(s)
  {
    Base(s, key) <= p < Base(s, key) + BIN_CAPACITY && p < |s.slots|
  }

  /** The keys and slots a thread works on: ordinary keys, slots of their own bins. */
  predicate Placed(s: State, th: Thread)
    requires Shaped(s)
  {
    match th
    case Scan(key, _, _, p, available) =>
      !Special(key) && InBin(s, key, p) && (available.Some? ==> InBin(s, key, available.value))
    case Overwrite(key, _, p) => !Special(key) && InBin(s, key, p)
    case Claim(key, _, p) => !Special(key) && InBin(s, key, p)
    case Store(key, _, p) => !Special(key) && InBin(s, key, p)
    case Publish(key, _, p) => !Special(key) && InBin(s, key, p)
    case Seek(key, p) => !Special(key) && InBin(s, key, p)
    case Erase(key, p) => !Special(key) && InBin(s, key, p)
    case _ => true
  }

  /** The slot after p in the same bin, if any. */
  function NextSlot(s: State, key: Key, p: nat): (q: Option<nat>)
    requires Shaped(s) && InBin(s, key, p)
    ensures q.Some? ==> InBin(s, key, q.value)
  {
    FirstSlot(s, key);
    if p + 1 < Base(s, key) + BIN_CAPACITY then Some(p + 1) else None
  }

  function Start(s: State, call: Call): Thread
    requires Shaped(s)
  {
    if Special(call.key) then Idle(OK_CODE)
    else match call
      case Modify(key, value, mode) => Scan(key, value, mode, Base(s, key), None)
      case InsertNocheck(key, value) => Claim(key, value, Base(s, key))
      case Delete(key) => Seek(key, Base(s, key))
  }

  /** The loop of hash_modify() looking for the key, and what follows it. */
  function Scanned(s: State, th: Thread): Thread
    requires Shaped(s) && th.Scan? && Placed(s, th)
  {
    var word := s.slots[th.p];
    if word == th.key then
      if th.mode == STRICT_INSERT then Idle(EXISTS_CODE) else Overwrite(th.key, th.value, th.p)
    else
      var available := if word == ZERO && th.available.None? then Some(th.p) else th.available;
      match NextSlot(s, th.key, th.p)
      case Some(q) => th.(p := q, available := available)
      case None =>
        if th.mode == STRICT_UPDATE then Idle(NOT_FOUND_CODE)
        else match available
          case None => Idle(BIN_FULL_CODE)
          case Some(q) => Claim(th.key, th.value, q)
  }

  function Moved(s: State, t: nat, th: Thread): State
    requires t < |s.threads|
  {
    s.(threads := s.threads[t := th])
  }

  /** The next atomic step of thread t; `call` is used when it is idle. */
  function Next(s: State, t: nat, call: Call): (n: State)
    requires Shaped(s) && t < |s.threads| && Placed(s, s.threads[t])
    ensures |n.threads| == |s.threads| && |n.slots| == |s.slots|
  {
    hide PowerOfTwo, BinOf, Special, Base;
    var th := s.threads[t];
    match th
    case Idle(_) => Moved(s, t, Start(s, call))
    case Scan(_, _, _, _, _) => Moved(s, t, Scanned(s, th))
    case Overwrite(_, value, p) => Moved(s.(values := s.values[p := value]), t, Idle(OK_CODE))
    case Claim(key, value, p) =>
      if s.slots[p] == ZERO then Moved(s.(slots := s.slots[p := ONE]), t, Store(key, value, p))
      else (match NextSlot(s, key, p)
        case Some(q) => Moved(s, t, Claim(key, value, q))
        case None => Moved(s, t, Idle(BIN_FULL_CODE)))
    case Store(key, value, p) => Moved(s.(values := s.values[p := value]), t, Publish(key, value, p))
    case Publish(key, _, p) => Moved(s.(slots := s.slots[p := key]), t, Tally)
    case Tally => Moved(s.(count := (s.count + 1) % WRAP), t, Idle(OK_CODE))
    case Seek(key, p) =>
      if s.slots[p] == key then Moved(s, t, Erase(key, p))
      else (match NextSlot(s, key, p)
        case Some(q) => Moved(s, t, Seek(key, q))
        case None => Moved(s, t, Idle(0)))
    case Erase(key, p) =>
      if s.slots[p] == key then Moved(s.(slots := s.slots[p := ZERO]), t, Untally) else Moved(s, t, Idle(0))
    case Untally => Moved(s.(count := (s.count - 1) % WRAP), t, Idle(1))
  }

  // --------------------------------------------------------------- invariant

  predicate Owns(th: Thread, p: nat) { (th.Store? || th.Publish?) && th.p == p }

  ghost predicate HasOwner(s: State, p: nat) { exists t :: 0 <= t < |s.threads| && Owns(s.threads[t], p) }

  /** The slots that are marked OCCUPIED are those that a thread has claimed and not
      yet published, and no slot has two such threads. */
  ghost predicate Owned(s: State) {
    && (forall p :: 0 <= p < |s.slots| && s.slots[p] == ONE ==> HasOwner(s, p))
    && (forall t, p: nat :: 0 <= t < |s.threads| && Owns(s.threads[t], p) ==> p < |s.slots| && s.slots[p] == ONE)
    && forall t, u, p: nat ::
         0 <= t < |s.threads| && Owns(s.threads[t], p) && 0 <= u < |s.threads| && Owns(s.threads[u], p) ==> t == u
  }

  /** Published keys are in their home bins. */
  ghost predicate AtHome(s: State)
    requires Shaped(s)
  {
    forall p :: 0 <= p < |s.slots| && !Special(s.slots[p]) ==> p / BIN_CAPACITY == BinOf(s.hash(s.slots[p]), s.size)
  }

  ghost function Published(s: State): set<nat> { set p: nat | p < |s.slots| && !Special(s.slots[p]) }
  ghost function Tallying(s: State): set<nat> { set t: nat | t < |s.threads| && s.threads[t].Tally? }
  ghost function Untallying(s: State): set<nat> { set t: nat | t < |s.threads| && s.threads[t].Untally? }

  ghost function Due(s: State): int { |Tallying(s)| - |Untallying(s)| - |Published(s)| }

  /** count, plus what is published but not yet counted, less what is erased but not
      yet discounted, is the number of published slots (in 64 bits). */
  ghost predicate Balanced(s: State) { (s.count + Due(s)) % WRAP == 0 && s.count < WRAP }

  ghost predicate AllPlaced(s: State)
    requires Shaped(s)
  {
    forall t :: 0 <= t < |s.threads| ==> Placed(s, s.threads[t])
  }

  ghost predicate Inv(s: State) {
    Shaped(s) && AllPlaced(s) && Owned(s) && AtHome(s) && Balanced(s)
  }

  // ------------------------------------------------------- steps keep it: places

  lemma ShapeStep(s: State, t: nat, call: Call)
    requires Shaped(s) && t < |s.threads| && Placed(s, s.threads[t])
    ensures var n := Next(s, t, call);
            Shaped(n) && n.size == s.size && n.hash == s.hash && |n.slots| == |s.slots| && |n.threads| == |s.threads|
  {
    hide PowerOfTwo, BinOf, Special;
  }

  lemma PlacedSame(s: State, n: State, th: Thread)
    requires Shaped(s) && Shaped(n) && n.size == s.size && n.hash == s.hash && |n.slots| == |s.slots|
    ensures Placed(n, th) == Placed(s, th)
  {
    hide PowerOfTwo, BinOf, Special;
  }

  lemma FirstSlot(s: State, key: Key)
    requires Shaped(s)
    ensures InBin(s, key, Base(s, key))
  {
    hide PowerOfTwo;
    assert BinOf(s.hash(key), s.size) <= s.size - 1;
  }

  /** The thread that moves goes on working in the bin of its key. */
  lemma PlacedNext(s: State, t: nat, call: Call)
    requires Shaped(s) && t < |s.threads| && Placed(s, s.threads[t])
    ensures Placed(s, Next(s, t, call).threads[t])
    ensures forall u :: 0 <= u < |s.threads| && u != t ==> Next(s, t, call).threads[u] == s.threads[u]
  {
    hide PowerOfTwo, BinOf, Special, InBin, Base, Scanned, NextSlot, Start, Placed;
    var th := s.threads[t];
    match th
    case Idle(_) => StartPlaced(s, call);
    case Scan(_, _, _, _, _) => ScannedPlaced(s, th);
    case Claim(key, value, p) => ClaimPlaced(s, key, value, p);
    case Seek(key, p) => SeekPlaced(s, key, p);
    case _ => RestPlaced(s, th);
  }

  lemma ClaimPlaced(s: State, key: Key, value: Value, p: nat)
    requires Shaped(s) && Placed(s, Claim(key, value, p))
    ensures Placed(s, Store(key, value, p)) && Placed(s, Idle(BIN_FULL_CODE))
    ensures NextSlot(s, key, p).Some? ==> Placed(s, Claim(key, value, NextSlot(s, key, p).value))
  {
    hide PowerOfTwo, BinOf, Special, InBin, Base;
    NextInBin(s, key, p);
  }

  lemma SeekPlaced(s: State, key: Key, p: nat)
    requires Shaped(s) && Placed(s, Seek(key, p))
    ensures Placed(s, Erase(key, p)) && Placed(s, Idle(0))
    ensures NextSlot(s, key, p).Some? ==> Placed(s, Seek(key, NextSlot(s, key, p).value))
  {
    hide PowerOfTwo, BinOf, Special, InBin, Base;
    NextInBin(s, key, p);
  }

  lemma RestPlaced(s: State, th: Thread)
    requires Shaped(s) && Placed(s, th)
    ensures forall c: nat :: Placed(s, Idle(c))
    ensures Placed(s, Tally) && Placed(s, Untally)
    ensures th.Store? ==> Placed(s, Publish(th.key, th.value, th.p))
  {
    hide PowerOfTwo, BinOf, Special, InBin, Base;
  }

  lemma StartPlaced(s: State, call: Call)
    requires Shaped(s)
    ensures Placed(s, Start(s, call))
  {
    hide PowerOfTwo, BinOf, Special, InBin, Base;
    FirstSlot(s, call.key);
  }

  lemma ScannedPlaced(s: State, th: Thread)
    requires Shaped(s) && th.Scan? && Placed(s, th)
    ensures Placed(s, Scanned(s, th))
  {
    hide PowerOfTwo, BinOf, Special, Base, NextSlot;
    NextInBin(s, th.key, th.p);
  }

  lemma NextInBin(s: State, key: Key, p: nat)
    requires Shaped(s) && InBin(s, key, p)
    ensures NextSlot(s, key, p).Some? ==> InBin(s, key, NextSlot(s, key, p).value)
  {
    hide PowerOfTwo, BinOf;
    FirstSlot(s, key);
  }

  lemma AllPlacedStep(s: State, t: nat, call: Call)
    requires Shaped(s) && AllPlaced(s) && t < |s.threads|
    ensures var n := Next(s, t, call); Shaped(n) && AllPlaced(n)
  {
    hide PowerOfTwo, BinOf, Special, Placed, Next;
    assert Placed(s, s.threads[t]);
    ShapeStep(s, t, call);
    PlacedNext(s, t, call);
    var n := Next(s, t, call);
    forall u | 0 <= u < |n.threads| ensures Placed(n, n.threads[u]) { PlacedSame(s, n, n.threads[u]); }
  }

  // ----------------------------------------------- steps keep it: homes, owners

  /** The ways in which a key word changes: claimed when empty, published by the
      thread that claimed it, erased by a thread that deletes the key it holds. */
  datatype Change = Same | Claimed(p: nat) | Shown(p: nat, key: Key) | Cleared(p: nat)

  function ChangeOf(s: State, t: nat): Change
    requires Shaped(s) && t < |s.threads| && Placed(s, s.threads[t])
  {
    match s.threads[t]
    case Claim(_, _, p) => if s.slots[p] == ZERO then Claimed(p) else Same
    case Publish(key, _, p) => Shown(p, key)
    case Erase(key, p) => if s.slots[p] == key then Cleared(p) else Same
    case _ => Same
  }

  function Changed(slots: seq<Key>, c: Change): seq<Key>
    requires c.Same? || c.p < |slots|
  {
    match c
    case Same => slots
    case Claimed(p) => slots[p := ONE]
    case Shown(p, key) => slots[p := key]
    case Cleared(p) => slots[p := ZERO]
  }

  lemma StepChanges(s: State, t: nat, call: Call)
    requires Shaped(s) && t < |s.threads| && Placed(s, s.threads[t])
    ensures var c := ChangeOf(s, t);
            (c.Same? || c.p < |s.slots|) && Next(s, t, call).slots == Changed(s.slots, c)
  {
    hide PowerOfTwo, BinOf, Special, Base;
  }

  lemma Flags()
    ensures Special(ZERO) && Special(ONE) && ZERO != ONE
  {
    assert ZERO[0] != ONE[0];
  }

  lemma AtHomeStep(s: State, t: nat, call: Call)
    requires Shaped(s) && AllPlaced(s) && AtHome(s) && t < |s.threads|
    ensures var n := Next(s, t, call); Shaped(n) && AtHome(n)
  {
    hide PowerOfTwo, BinOf, Special, Next;
    ShapeStep(s, t, call);
    StepChanges(s, t, call);
    Flags();
    assert Placed(s, s.threads[t]);
  }

  lemma OwnsNext(s: State, t: nat, call: Call, p: nat)
    requires Shaped(s) && t < |s.threads| && Placed(s, s.threads[t])
    ensures var th, c := Next(s, t, call).threads[t], ChangeOf(s, t);
            Owns(th, p) == ((Owns(s.threads[t], p) && !c.Shown?) || c == Claimed(p))
  {
    hide PowerOfTwo, BinOf, Special, InBin, Base;
  }

  lemma OwnedStep(s: State, t: nat, call: Call)
    requires Shaped(s) && AllPlaced(s) && Owned(s) && t < |s.threads|
    ensures Owned(Next(s, t, call))
  {
    hide PowerOfTwo, BinOf, Special, Next, Owned, Placed, Owns, ChangeOf;
    var n, c := Next(s, t, call), ChangeOf(s, t);
    ShapeStep(s, t, call);
    PlacedNext(s, t, call);
    StepChanges(s, t, call);
    forall p: nat | p < |s.slots| ensures OwnedAt(n, p) { OwnedAtStep(s, t, call, p); }
    forall u: nat, p: nat | u < |s.threads| && Owns(n.threads[u], p) ensures p < |s.slots| {
      OwnsInRange(s, t, call, u, p);
    }
    OwnedFrom(n);
  }

  /** Owned for one slot. */
  ghost predicate OwnedAt(s: State, p: nat)
    requires p < |s.slots|
  {
    && (s.slots[p] == ONE <==> HasOwner(s, p))
    && forall t, u ::
         0 <= t < |s.threads| && Owns(s.threads[t], p) && 0 <= u < |s.threads| && Owns(s.threads[u], p) ==> t == u
  }

  lemma OwnedFrom(n: State)
    requires forall p: nat :: p < |n.slots| ==> OwnedAt(n, p)
    requires forall u: nat, p: nat :: u < |n.threads| && Owns(n.threads[u], p) ==> p < |n.slots|
    ensures Owned(n)
  {
    hide Owns;
    forall u: nat, p: nat | u < |n.threads| && Owns(n.threads[u], p) ensures p < |n.slots| && n.slots[p] == ONE {
      assert OwnedAt(n, p);
    }
    forall t: nat, u: nat, p: nat | t < |n.threads| && u < |n.threads| && Owns(n.threads[t], p) && Owns(n.threads[u], p)
      ensures t == u
    {
      assert OwnedAt(n, p);
    }
    forall p: nat | p < |n.slots| && n.slots[p] == ONE ensures HasOwner(n, p) { assert OwnedAt(n, p); }
  }

  lemma OwnsInRange(s: State, t: nat, call: Call, u: nat, p: nat)
    requires Shaped(s) && AllPlaced(s) && Owned(s) && t < |s.threads| && u < |s.threads|
    requires var n := Next(s, t, call); u < |n.threads| && Owns(n.threads[u], p)
    ensures p < |s.slots|
  {
    hide PowerOfTwo, BinOf, Special, Next, Placed, Owns, ChangeOf;
    PlacedNext(s, t, call);
    StepChanges(s, t, call);
    OwnsNext(s, t, call, p);
    ClaimInRange(s, t);
    if u != t || Owns(s.threads[t], p) { OwnerMarks(s, u, p); } else { assert ChangeOf(s, t) == Claimed(p); }
  }

  lemma OwnerMarks(s: State, t: nat, p: nat)
    requires Owned(s) && t < |s.threads| && Owns(s.threads[t], p)
    ensures p < |s.slots| && s.slots[p] == ONE
  {
  }

  lemma ClaimInRange(s: State, t: nat)
    requires Shaped(s) && t < |s.threads| && Placed(s, s.threads[t])
    ensures ChangeOf(s, t).Claimed? ==> ChangeOf(s, t).p < |s.slots|
  {
    hide PowerOfTwo, BinOf, Special, Base;
  }

  lemma OwnedAtStep(s: State, t: nat, call: Call, p: nat)
    requires Shaped(s) && AllPlaced(s) && Owned(s) && t < |s.threads| && p < |s.slots|
    ensures var n := Next(s, t, call); |n.slots| == |s.slots| && OwnedAt(n, p)
  {
    hide PowerOfTwo, BinOf, Special, Next, Owns;
    var n, c := Next(s, t, call), ChangeOf(s, t);
    ShapeStep(s, t, call);
    PlacedNext(s, t, call);
    StepChanges(s, t, call);
    OwnsNext(s, t, call, p);
    Flags();
    ChangeFacts(s, t);
    if HasOwner(s, p) {
      var u :| 0 <= u < |s.threads| && Owns(s.threads[u], p);
      if u != t { assert Owns(n.threads[u], p); }
    }
    if c == Claimed(p) { assert Owns(n.threads[t], p); }
    if Owns(s.threads[t], p) && !c.Shown? { assert Owns(n.threads[t], p); }
  }

  /** What the thread and the slot look like when a word changes. */
  lemma ChangeFacts(s: State, t: nat)
    requires Shaped(s) && t < |s.threads| && Placed(s, s.threads[t])
    ensures var c := ChangeOf(s, t);
            match c
            case Same => true
            case Claimed(p) => p < |s.slots| && s.slots[p] == ZERO
            case Shown(p, key) => Owns(s.threads[t], p) && !Special(key) && forall q :: Owns(s.threads[t], q) ==> q == p
            case Cleared(p) => p < |s.slots| && !Special(s.slots[p])
  {
    hide PowerOfTwo, BinOf, Special, Base;
  }

  // ------------------------------------------------------ steps keep it: counts

  lemma {:induction false} OneIn(a: set<nat>, b: set<nat>, x: nat)
    requires forall y :: y != x ==> (y in a <==> y in b)
    ensures |a| - (if x in a then 1 else 0) == |b| - (if x in b then 1 else 0)
  {
    assert a - {x} == b - {x};
    assert |a| == |a - {x}| + (if x in a then 1 else 0);
    assert |b| == |b - {x}| + (if x in b then 1 else 0);
  }

  lemma PublishedStep(s: State, t: nat, call: Call)
    requires Shaped(s) && AllPlaced(s) && Owned(s) && t < |s.threads|
    ensures var c := ChangeOf(s, t);
            |Published(Next(s, t, call))| ==
            |Published(s)| + (if c.Shown? then 1 else 0) - (if c.Cleared? then 1 else 0)
  {
    hide PowerOfTwo, BinOf, Special, Next, Owned, Owns, ChangeOf, Base;
    var n, c := Next(s, t, call), ChangeOf(s, t);
    assert Placed(s, s.threads[t]);
    StepChanges(s, t, call);
    ChangeFacts(s, t);
    Flags();
    if c.Shown? { OwnerMarks(s, t, c.p); }
    if c.Same? {
      assert Published(n) == Published(s);
    } else {
      OneIn(Published(n), Published(s), c.p);
    }
  }

  lemma ThreadsStep(s: State, t: nat, call: Call)
    requires Shaped(s) && t < |s.threads| && Placed(s, s.threads[t])
    ensures var n, c := Next(s, t, call), ChangeOf(s, t);
            && (n.threads[t].Tally? <==> c.Shown?) && (n.threads[t].Untally? <==> c.Cleared?)
            && n.count == if s.threads[t].Tally? then (s.count + 1) % WRAP
                          else if s.threads[t].Untally? then (s.count - 1) % WRAP else s.count
  {
    hide PowerOfTwo, BinOf, Special, InBin, Base;
  }

  lemma DueStep(s: State, t: nat, call: Call)
    requires Shaped(s) && AllPlaced(s) && Owned(s) && t < |s.threads|
    ensures Due(Next(s, t, call)) ==
            Due(s) - (if s.threads[t].Tally? then 1 else 0) + (if s.threads[t].Untally? then 1 else 0)
  {
    hide PowerOfTwo, BinOf, Special, Next, Owned, Placed, ChangeOf, Base;
    var n := Next(s, t, call);
    PublishedStep(s, t, call);
    PlacedNext(s, t, call);
    ThreadsStep(s, t, call);
    OneIn(Tallying(n), Tallying(s), t);
    OneIn(Untallying(n), Untallying(s), t);
  }

  lemma Wraps(count: int, due: int, d: int)
    requires (count + due) % WRAP == 0
    ensures ((count + d) % WRAP + (due - d)) % WRAP == 0
  {
  }

  lemma BalancedStep(s: State, t: nat, call: Call)
    requires Shaped(s) && AllPlaced(s) && Owned(s) && Balanced(s) && t < |s.threads|
    ensures Balanced(Next(s, t, call))
  {
    hide PowerOfTwo, BinOf, Special, Next, Owned, Placed, ChangeOf, Base, Due;
    DueStep(s, t, call);
    ThreadsStep(s, t, call);
    Wraps(s.count, Due(s), 1);
    Wraps(s.count, Due(s), -1);
  }

  /** Every step of every thread keeps the protocol's promises. */
  lemma InvStep(s: State, t: nat, call: Call)
    requires Inv(s) && t < |s.threads|
    ensures Inv(Next(s, t, call))
  {
    hide PowerOfTwo, BinOf, Special, Next, Owned, Placed, AllPlaced, AtHome, Balanced, Shaped;
    AllPlacedStep(s, t, call);
    AtHomeStep(s, t, call);
    OwnedStep(s, t, call);
    BalancedStep(s, t, call);
  }

  // ------------------------------------------------------------------- runs

  datatype Action = Action(t: nat, call: Call)

  /** An empty table shared by n threads that have not called anything yet. */
  function Initial(hash: Key -> nat, size: nat, n: nat): State {
    State(hash, size, seq(BIN_CAPACITY * size, _ => ZERO), seq(BIN_CAPACITY * size, _ => 0), 0, seq(n, _ => Idle(0)))
  }

  lemma InitialInv(hash: Key -> nat, size: nat, n: nat)
    requires PowerOfTwo(size)
    ensures Inv(Initial(hash, size, n))
  {
    hide PowerOfTwo, BinOf;
    Flags();
    var s := Initial(hash, size, n);
    assert Tallying(s) == {} && Untallying(s) == {} && Published(s) == {};
    forall t: nat, p: nat ensures !(t < |s.threads| && Owns(s.threads[t], p)) { }
    forall p: nat ensures !(p < |s.slots| && s.slots[p] == ONE) { }
    assert Owned(s);
  }

  ghost predicate Run(states: seq<State>, actions: seq<Action>) {
    && |states| == |actions| + 1
    && forall i :: 0 <= i < |actions| ==>
         Shaped(states[i]) && actions[i].t < |states[i].threads| && Placed(states[i], states[i].threads[actions[i].t])
         && states[i + 1] == Next(states[i], actions[i].t, actions[i].call)
  }

  /** In every interleaving of any number of threads. */
  lemma {:induction false} RunInv(states: seq<State>, actions: seq<Action>, i: nat)
    requires Run(states, actions) && Inv(states[0]) && i < |states|
    ensures Inv(states[i])
  {
    hide Inv, Next, Placed, Shaped;
    if i > 0 {
      RunInv(states, actions, i - 1);
      InvStep(states[i - 1], actions[i - 1].t, actions[i - 1].call);
    }
  }

  /** At rest: no slot is left marked, every key is in its bin, and count is the
      number of keys. */
  lemma AtRest(states: seq<State>, actions: seq<Action>)
    requires Run(states, actions) && Inv(states[0])
    requires var s := states[|actions|];
             (forall t :: 0 <= t < |s.threads| ==> s.threads[t].Idle?) && |s.slots| < WRAP
    ensures var s := states[|actions|];
            && (forall p :: 0 <= p < |s.slots| ==> s.slots[p] != ONE)
            && s.count == |Published(s)|
            && Shaped(s) && AtHome(s)
  {
    hide Next, PowerOfTwo, BinOf, Special, Placed, AtHome;
    RunInv(states, actions, |actions|);
    var s := states[|actions|];
    assert Tallying(s) == {} && Untallying(s) == {};
    InRange(Published(s), |s.slots|);
    Congruent(s.count, |Published(s)|);
  }

  lemma {:induction false} InRange(a: set<nat>, n: nat)
    requires forall p :: p in a ==> p < n
    ensures |a| <= n
  {
    if n > 0 {
      InRange(a - {n - 1}, n - 1);
      assert |a| <= |a - {n - 1}| + 1;
    } else {
      assert a == {};
    }
  }

  lemma Congruent(a: nat, b: nat)
    requires (a - b) % WRAP == 0 && a < WRAP && b < WRAP
    ensures a == b
  {
  }

  /** A claimed slot is its owner's: no step of another thread changes its word. */
  lemma ClaimedSlotIsPrivate(s: State, t: nat, call: Call, u: nat, p: nat)
    requires Inv(s) && t < |s.threads| && u < |s.threads| && Owns(s.threads[u], p) && u != t
    ensures p < |s.slots| && Next(s, t, call).slots[p] == ONE
    ensures Owns(Next(s, t, call).threads[u], p)
  {
    hide PowerOfTwo, BinOf, Special, Next, Owned, Owns, ChangeOf, Base, AtHome, Balanced, Placed;
    assert Placed(s, s.threads[t]);
    OwnerMarks(s, u, p);
    StepChanges(s, t, call);
    ChangeFacts(s, t);
    PlacedNext(s, t, call);
    Flags();
    if ChangeOf(s, t).Shown? && Owns(s.threads[t], p) { OneOwner(s, t, u, p); }
  }

  lemma OneOwner(s: State, t: nat, u: nat, p: nat)
    requires Owned(s) && t < |s.threads| && u < |s.threads| && Owns(s.threads[t], p) && Owns(s.threads[u], p)
    ensures t == u
  {
  }

  /** The life of a slot: empty, claimed, published by the claimant under its own
      key, empty again by a deletion of that key; never anything else. */
  lemma SlotLife(s: State, t: nat, call: Call, p: nat)
    requires Inv(s) && t < |s.threads| && p < |s.slots|
    ensures var n := Next(s, t, call);
            || n.slots[p] == s.slots[p]
            || (s.slots[p] == ZERO && n.slots[p] == ONE && Owns(n.threads[t], p))
            || (s.slots[p] == ONE && Owns(s.threads[t], p) && n.slots[p] == s.threads[t].key && n.threads[t].Tally?)
            || (!Special(s.slots[p]) && n.slots[p] == ZERO && n.threads[t].Untally?)
  {
    hide PowerOfTwo, BinOf, Special, Owned, Base, AtHome, Balanced, InBin;
    assert Placed(s, s.threads[t]);
    StepChanges(s, t, call);
    ChangeFacts(s, t);
    if ChangeOf(s, t).Shown? { OwnerMarks(s, t, ChangeOf(s, t).p); }
  }

  // ---------------------------------------------------- runs and their calls

  /** The calls that the threads of a group start in a run. */
  ghost function Started(states: seq<State>, actions: seq<Action>, who: set<nat>): seq<Action>
    requires |actions| <= |states|
  {
    if actions == [] then []
    else
      var i := |actions| - 1;
      Started(states, actions[..i], who) + StartedAt(states[i], actions[i], who)
  }

  ghost function StartedAt(s: State, a: Action, who: set<nat>): seq<Action> {
    if a.t in who && a.t < |s.threads| && s.threads[a.t].Idle? then [a] else []
  }

  lemma {:induction false} StartedPrefix(states: seq<State>, longer: seq<State>, actions: seq<Action>, who: set<nat>)
    requires |actions| <= |states| && |actions| <= |longer| && states[..|actions|] == longer[..|actions|]
    ensures Started(states, actions, who) == Started(longer, actions, who)
  {
    if actions != [] {
      var i := |actions| - 1;
      assert states[..i] == states[..i + 1][..i] && longer[..i] == longer[..i + 1][..i];
      StartedPrefix(states, longer, actions[..i], who);
      assert states[i] == states[..i + 1][i] && longer[i] == longer[..i + 1][i];
    }
  }

  lemma {:induction false} StartedCat(s1: seq<State>, a1: seq<Action>, s2: seq<State>, a2: seq<Action>, s: seq<State>,
                                      who: set<nat>)
    requires |s1| == |a1| + 1 && |a2| < |s2| && |s| >= |a1| + |a2|
    requires (forall i :: 0 <= i < |a1| ==> s[i] == s1[i]) && forall i :: 0 <= i < |a2| ==> s[|a1| + i] == s2[i]
    ensures Started(s, a1 + a2, who) == Started(s1, a1, who) + Started(s2, a2, who)
    decreases |a2|
  {
    hide StartedAt;
    if a2 == [] {
      assert a1 + a2 == a1;
      StartedPrefix(s1, s, a1, who);
    } else {
      var i, a := |a2| - 1, a1 + a2;
      StartedCat(s1, a1, s2, a2[..i], s, who);
      assert a[..|a| - 1] == a1 + a2[..i] && a[|a| - 1] == a2[i];
      assert s[|a| - 1] == s[|a1| + i] == s2[i];
      Associate(Started(s1, a1, who), Started(s2, a2[..i], who), StartedAt(s2[i], a2[i], who));
    }
  }

  lemma Associate<T>(a: seq<T>, b: seq<T>, c: seq<T>)
    ensures (a + b) + c == a + (b + c)
  {
  }

  /** There is a run from s to n in which the threads of the group start just these
      calls, in this order. */
  ghost predicate Leads(s: State, n: State, who: set<nat>, calls: seq<Action>) {
    exists states, actions :: IsRun(states, actions, s, n) && Started(states, actions, who) == calls
  }

  ghost predicate IsRun(states: seq<State>, actions: seq<Action>, s: State, n: State) {
    Run(states, actions) && states[0] == s && states[|actions|] == n
  }

  lemma LeadsHere(s: State, who: set<nat>)
    ensures Leads(s, s, who, [])
  {
    assert IsRun([s], [], s, s);
    assert Started([s], [], who) == [];
  }

  lemma RunsJoin(s1: seq<State>, a1: seq<Action>, s2: seq<State>, a2: seq<Action>, s: State, m: State, n: State)
    requires IsRun(s1, a1, s, m) && IsRun(s2, a2, m, n)
    ensures IsRun(s1 + s2[1..], a1 + a2, s, n)
  {
    hide Next, Placed, Shaped;
    var states: seq<State>, actions: seq<Action> := s1 + s2[1..], a1 + a2;
    var k := |a1|;
    forall i | 0 <= i < |actions|
      ensures Shaped(states[i]) && actions[i].t < |states[i].threads| &&
              Placed(states[i], states[i].threads[actions[i].t])
      ensures states[i + 1] == Next(states[i], actions[i].t, actions[i].call)
    {
      if i < k {
        assert states[i] == s1[i] && states[i + 1] == s1[i + 1] && actions[i] == a1[i];
      } else {
        assert states[i] == s2[i - k] && states[i + 1] == s2[i - k + 1] && actions[i] == a2[i - k];
      }
    }
  }

  lemma LeadsFurther(s: State, m: State, n: State, who: set<nat>, c1: seq<Action>, c2: seq<Action>)
    requires Leads(s, m, who, c1) && Leads(m, n, who, c2)
    ensures Leads(s, n, who, c1 + c2)
    ensures (c1 == [] ==> Leads(s, n, who, c2)) && (c2 == [] ==> Leads(s, n, who, c1))
  {
    hide Next, Placed, Shaped, Started, StartedAt;
    var s1, a1 :| IsRun(s1, a1, s, m) && Started(s1, a1, who) == c1;
    var s2, a2 :| IsRun(s2, a2, m, n) && Started(s2, a2, who) == c2;
    RunsJoin(s1, a1, s2, a2, s, m, n);
    RunLengths(s1, a1);
    RunLengths(s2, a2);
    var states := s1 + s2[1..];
    assert forall i :: 0 <= i < |a2| ==> states[|a1| + i] == s2[i];
    StartedCat(s1, a1, s2, a2, states, who);
    assert c1 == [] ==> c1 + c2 == c2;
    assert c2 == [] ==> c1 + c2 == c1;
  }

  lemma RunLengths(states: seq<State>, actions: seq<Action>)
    requires Run(states, actions)
    ensures |states| == |actions| + 1
  {
  }

  /** One more step, by thread u. */
  lemma LeadsOn(s: State, m: State, who: set<nat>, calls: seq<Action>, u: nat, call: Call) returns (n: State)
    requires Leads(s, m, who, calls) && Inv(m) && u < |m.threads|
    ensures Shaped(m) && Placed(m, m.threads[u]) && n == Next(m, u, call)
    ensures Leads(s, n, who, calls + StartedAt(m, Action(u, call), who))
    ensures !(u in who && m.threads[u].Idle?) ==> Leads(s, n, who, calls)
    ensures Inv(n) && n.size == m.size && n.hash == m.hash
    ensures |n.slots| == |m.slots| && |n.threads| == |m.threads|
  {
    hide PowerOfTwo, BinOf, Special, Owned, AtHome, Balanced, Next, Placed;
    n := Next(m, u, call);
    InvStep(m, u, call);
    ShapeStep(m, u, call);
    var a := Action(u, call);
    assert IsRun([m, n], [a], m, n);
    OneStarted(m, n, a, who);
    LeadsFurther(s, m, n, who, calls, StartedAt(m, a, who));
  }

  lemma OneStarted(m: State, n: State, a: Action, who: set<nat>)
    ensures Started([m, n], [a], who) == StartedAt(m, a, who)
  {
    assert [a][..0] == [];
    assert Started([m, n], [a][..0], who) == [];
  }

  const ANY := Delete(ZERO)
}
