/** hash_modify(), hash_insert_nocheck() and the deleting hash_search() of src/hash.c
    as methods that work on the shared slots in place.  Before every atomic access
    the other threads do what `env` says; quantifying over env quantifies over all
    interleavings, and each call is shown to be a run of module SlotProtocol. */
module SlotCode {
  import opened Trie
  import opened Slots
  import opened Bins
  import Parts
  import opened Hash
  import opened SlotProtocol
  import opened SlotMeaning

  class SlotSys {
    const seed: Seed
    const size: nat
    const slots: array<Key>
    const values: array<Value>
    var count: nat
    /** Where the threads stand, the caller included. */
    var threads: seq<Thread>

    ghost function S(): State
      reads this, slots, values
    {
      State(HashOf(seed), size, slots[..], values[..], count, threads)
    }

    ghost predicate Valid()
      reads this, slots, values
    {
      Inv(S()) && slots as object != values as object
    }

    constructor (seed: Seed, size: nat, n: nat)
      requires PowerOfTwo(size)
      ensures Valid() && S() == Initial(HashOf(seed), size, n) && fresh(slots) && fresh(values)
    {
      hide PowerOfTwo, Inv;
      this.seed, this.size := seed, size;
      slots := new Key[BIN_CAPACITY * size](_ => ZERO);
      values := new Value[BIN_CAPACITY * size](_ => 0);
      count := 0;
      threads := seq(n, _ => Idle(0));
      new;
      InitialInv(HashOf(seed), size, n);
      assert S() == Initial(HashOf(seed), size, n);
    }

    /** One atomic step of a thread of the environment. */
    method Advance(a: Action, ghost t: nat)
      requires Valid() && a.t < |threads| && a.t != t
      modifies this`count, this`threads, slots, values
      ensures Valid() && Leads(old(S()), S(), {t}, []) && |threads| == |old(threads)|
      ensures forall u :: 0 <= u < |threads| && u != a.t ==> threads[u] == old(threads)[u]
    {
      hide PowerOfTwo, BinOf, Bins.Hash, Parts.Special, Owned, AtHome, Balanced, Leads, Next, Placed;
      var s := State(HashOf(seed), size, slots[..], values[..], count, threads);
      LeadsHere(s, {t});
      ghost var n0 := LeadsOn(s, s, {t}, [], a.t, a.call);
      PlacedNext(s, a.t, a.call);
      var n := Next(s, a.t, a.call);
      forall i | 0 <= i < slots.Length { slots[i] := n.slots[i]; }
      forall i | 0 <= i < values.Length { values[i] := n.values[i]; }
      count, threads := n.count, n.threads;
      assert slots[..] == n.slots && values[..] == n.values;
      SameTable(s, n, S());
    }

    static lemma SameTable(s: State, n: State, m: State)
      requires n.hash == s.hash && n.size == s.size && m == State(s.hash, s.size, n.slots, n.values, n.count, n.threads)
      ensures m == n
    {
    }

    /** What the other threads do meanwhile. */
    method Interfere(t: nat, env: seq<Action>)
      requires Valid() && t < |threads|
      modifies this`count, this`threads, slots, values
      ensures Valid() && Leads(old(S()), S(), {t}, [])
      ensures |threads| == |old(threads)| && threads[t] == old(threads)[t]
    {
      hide PowerOfTwo, Inv, Leads;
      LeadsHere(S(), {t});
      for i := 0 to |env|
        invariant Valid() && Leads(old(S()), S(), {t}, [])
        invariant |threads| == |old(threads)| && threads[t] == old(threads)[t]
      {
        if env[i].t != t && env[i].t < |threads| {
          ghost var m := S();
          Advance(env[i], t);
          LeadsFurther(old(S()), m, S(), {t}, [], []);
        }
      }
    }

    /** The caller moves on without writing to the table. */
    method Go(t: nat, ghost call: Call, th: Thread)
      requires Valid() && t < |threads| && Shaped(S()) && Placed(S(), threads[t])
      requires Next(S(), t, call) == Moved(S(), t, th)
      modifies this`threads
      ensures Valid() && Leads(old(S()), S(), {t}, StartedAt(old(S()), Action(t, call), {t})) &&
              threads == old(threads)[t := th]
    {
      hide PowerOfTwo, Inv, Leads, Next;
      LeadsHere(S(), {t});
      ghost var n := LeadsOn(S(), S(), {t}, [], t, call);
      assert [] + StartedAt(S(), Action(t, call), {t}) == StartedAt(S(), Action(t, call), {t});
      threads := threads[t := th];
    }

    /** atomic_compare_exchange_strong() from EMPTY_FLAG to OCCUPIED_FLAG. */
    method TryClaim(t: nat, key: Key, value: Value, p: nat, next: Thread) returns (won: bool)
      requires Valid() && t < |threads| && threads[t] == Claim(key, value, p) && p < slots.Length
      requires Shaped(S()) && InBin(S(), key, p)
      requires next == (match NextSlot(S(), key, p)
                        case Some(q) => Claim(key, value, q)
                        case None => Idle(BIN_FULL_CODE))
      modifies this`threads, slots
      ensures Valid() && Leads(old(S()), S(), {t}, [])
      ensures threads == old(threads)[t := if won then Store(key, value, p) else next]
    {
      hide PowerOfTwo, BinOf, Bins.Hash, Base, Parts.Special, Owned, AtHome, Balanced, Leads, NextSlot;
      LeadsHere(S(), {t});
      assert Placed(S(), threads[t]);
      ghost var s := S();
      ghost var n := LeadsOn(s, s, {t}, [], t, ANY);
      won := slots[p] == ZERO;
      if won {
        slots[p] := ONE;
        threads := threads[t := Store(key, value, p)];
      } else {
        threads := threads[t := next];
      }
      assert S() == n;
    }

    /** The stores and the fetch-and-add of a claimant. */
    method Fill(t: nat, key: Key, value: Value, p: nat, env: nat -> seq<Action>)
      requires Valid() && t < |threads| && threads[t] == Store(key, value, p)
      modifies this`count, this`threads, slots, values
      ensures Valid() && Leads(old(S()), S(), {t}, [])
      ensures |threads| == |old(threads)| && threads[t] == Idle(OK_CODE)
    {
      hide PowerOfTwo, Inv, Leads;
      Interfere(t, env(0));
      ghost var m := S();
      StoreValue(t, key, value, p);
      LeadsFurther(old(S()), m, S(), {t}, [], []);
      m := S();
      Interfere(t, env(1));
      LeadsFurther(old(S()), m, S(), {t}, [], []);
      m := S();
      StoreKey(t, key, value, p);
      LeadsFurther(old(S()), m, S(), {t}, [], []);
      m := S();
      Interfere(t, env(2));
      LeadsFurther(old(S()), m, S(), {t}, [], []);
      m := S();
      Increment(t);
      LeadsFurther(old(S()), m, S(), {t}, [], []);
    }

    method StoreValue(t: nat, key: Key, value: Value, p: nat)
      requires Valid() && t < |threads| && threads[t] == Store(key, value, p)
      modifies this`threads, values
      ensures Valid() && Leads(old(S()), S(), {t}, []) && threads == old(threads)[t := Publish(key, value, p)]
    {
      hide PowerOfTwo, BinOf, Bins.Hash, Base, Parts.Special, Owned, AtHome, Balanced, Leads;
      LeadsHere(S(), {t});
      assert Placed(S(), threads[t]);
      ghost var n := LeadsOn(S(), S(), {t}, [], t, ANY);
      values[p] := value;
      threads := threads[t := Publish(key, value, p)];
      assert S() == n;
    }

    method StoreKey(t: nat, key: Key, value: Value, p: nat)
      requires Valid() && t < |threads| && threads[t] == Publish(key, value, p)
      modifies this`threads, slots
      ensures Valid() && Leads(old(S()), S(), {t}, []) && threads == old(threads)[t := Tally]
    {
      hide PowerOfTwo, BinOf, Bins.Hash, Base, Parts.Special, Owned, AtHome, Balanced, Leads;
      LeadsHere(S(), {t});
      assert Placed(S(), threads[t]);
      ghost var n := LeadsOn(S(), S(), {t}, [], t, ANY);
      slots[p] := key;
      threads := threads[t := Tally];
      assert S() == n;
    }

    method Increment(t: nat)
      requires Valid() && t < |threads| && threads[t] == Tally
      modifies this`threads, this`count
      ensures Valid() && Leads(old(S()), S(), {t}, []) && threads == old(threads)[t := Idle(OK_CODE)]
    {
      hide PowerOfTwo, BinOf, Bins.Hash, Base, Parts.Special, Owned, AtHome, Balanced, Leads;
      LeadsHere(S(), {t});
      ghost var n := LeadsOn(S(), S(), {t}, [], t, ANY);
      count := (count + 1) % WRAP;
      threads := threads[t := Idle(OK_CODE)];
      assert S() == n;
    }

    /** The claiming loop, from slot `from` of the bin on. */
    method ClaimLoop(t: nat, key: Key, value: Value, base: nat, from: nat, env: nat -> nat -> seq<Action>)
      returns (code: nat)
      requires Valid() && t < |threads| && Shaped(S()) && base == Base(S(), key) && from < BIN_CAPACITY
      requires threads[t] == Claim(key, value, base + from)
      modifies this`count, this`threads, slots, values
      ensures Valid() && Leads(old(S()), S(), {t}, [])
      ensures |threads| == |old(threads)| && threads[t] == Idle(code) && (code == OK_CODE || code == BIN_FULL_CODE)
    {
      hide PowerOfTwo, BinOf, Bins.Hash, Base, Inv, Leads, Shaped;
      LeadsHere(S(), {t});
      for j := from to BIN_CAPACITY
        invariant Valid() && Leads(old(S()), S(), {t}, []) && |threads| == |old(threads)| && Shaped(S()) &&
                  base == Base(S(), key)
        invariant threads[t] == if j < BIN_CAPACITY then Claim(key, value, base + j) else Idle(BIN_FULL_CODE)
      {
        ghost var m := S();
        Interfere(t, env(j)(0));
        LeadsFurther(old(S()), m, S(), {t}, [], []);
        m := S();
        TableKept(old(S()), m, key);
        NextIs(m, t, key, value, base, j);
        var won := TryClaim(t, key, value, base + j,
                            if j + 1 < BIN_CAPACITY then Claim(key, value, base + j + 1) else Idle(BIN_FULL_CODE));
        LeadsFurther(old(S()), m, S(), {t}, [], []);
        TableKept(old(S()), S(), key);
        if won {
          m := S();
          Fill(t, key, value, base + j, (k: nat) => env(j)(k + 1));
          LeadsFurther(old(S()), m, S(), {t}, [], []);
          return OK_CODE;
        }
      }
      code := BIN_FULL_CODE;
    }

    /** The bin of a key stays where it is. */
    static lemma TableKept(s: State, n: State, key: Key)
      requires Shaped(s) && n.hash == s.hash && n.size == s.size && Inv(n)
      ensures Shaped(n) && Base(n, key) == Base(s, key)
    {
    }

    static lemma NextIs(s: State, t: nat, key: Key, value: Value, base: nat, j: nat)
      requires Inv(s) && t < |s.threads| && s.threads[t] == Claim(key, value, base + j) && j < BIN_CAPACITY
      requires Shaped(s) && base == Base(s, key)
      ensures base + j < |s.slots| && InBin(s, key, base + j)
      ensures NextSlot(s, key, base + j) == if j + 1 < BIN_CAPACITY then Some(base + j + 1) else None
    {
      hide PowerOfTwo, BinOf, Bins.Hash, Base, Parts.Special, Owned, AtHome, Balanced;
      assert Placed(s, s.threads[t]);
    }

    /** hash_insert_nocheck(). */
    method HashInsertNocheck(t: nat, key: Key, value: Value, env: nat -> nat -> seq<Action>) returns (code: nat)
      requires Valid() && t < |threads| && threads[t].Idle? && !Parts.Special(key)
      modifies this`count, this`threads, slots, values
      ensures Valid() && Leads(old(S()), S(), {t}, [Action(t, InsertNocheck(key, value))])
      ensures Told(old(S()), S(), t, InsertNocheck(key, value), code)
      ensures |threads| == |old(threads)| && threads[t] == Idle(code) && (code == OK_CODE || code == BIN_FULL_CODE)
    {
      hide PowerOfTwo, BinOf, Bins.Hash, Inv, Leads, Next, Told;
      Ready(S(), t, InsertNocheck(key, value));
      var bin := CompIdx(key, seed, size);
      var base := BIN_CAPACITY * bin;
      Go(t, InsertNocheck(key, value), Claim(key, value, base));
      ghost var m := S();
      TableKept(old(S()), m, key);
      code := ClaimLoop(t, key, value, base, 0, env);
      LeadsFurther(old(S()), m, S(), {t}, [Action(t, InsertNocheck(key, value))], []);
      LeadsTold(old(S()), S(), t, InsertNocheck(key, value), code);
    }

    static lemma Ready(s: State, t: nat, call: Call)
      requires Inv(s) && t < |s.threads| && s.threads[t].Idle? && !Parts.Special(call.key)
      ensures Shaped(s) && Placed(s, s.threads[t]) && Next(s, t, call) == Moved(s, t, Start(s, call))
    {
      hide PowerOfTwo, BinOf, Bins.Hash, Owned, AtHome, Balanced;
    }

    // ---------------------------------------------------------- hash_modify()

    /** Where the scan stands before slot j, or what follows it. */
    static function ScanAt(key: Key, value: Value, mode: Mode, base: nat, j: nat, available: int): Thread
      requires -1 <= available
    {
      var free := if available == -1 then None else Some(base + available);
      if j < BIN_CAPACITY then Scan(key, value, mode, base + j, free)
      else if mode == STRICT_UPDATE then Idle(NOT_FOUND_CODE)
      else if available == -1 then Idle(BIN_FULL_CODE)
      else Claim(key, value, base + available)
    }

    static lemma ScanStep(s: State, t: nat, key: Key, value: Value, mode: Mode, base: nat, j: nat, available: int)
      requires Inv(s) && Shaped(s) && t < |s.threads| && base == Base(s, key) && j < BIN_CAPACITY && -1 <= available
      requires s.threads[t] == ScanAt(key, value, mode, base, j, available)
      ensures Placed(s, s.threads[t]) && base + j < |s.slots|
      ensures var word := s.slots[base + j];
              var free := if word == ZERO && available == -1 then j else available;
              Next(s, t, ANY) == Moved(s, t,
                if word != key then ScanAt(key, value, mode, base, j + 1, free)
                else if mode == STRICT_INSERT then Idle(EXISTS_CODE)
                else Overwrite(key, value, base + j))
    {
      hide PowerOfTwo, BinOf, Bins.Hash, Base, Parts.Special, Owned, AtHome, Balanced;
      assert Placed(s, s.threads[t]);
    }

    /** hash_modify(). */
    method HashModify(t: nat, key: Key, value: Value, mode: Mode, env: nat -> nat -> seq<Action>) returns (code: nat)
      requires Valid() && t < |threads| && threads[t].Idle? && !Parts.Special(key)
      modifies this`count, this`threads, slots, values
      ensures Valid() && Leads(old(S()), S(), {t}, [Action(t, Modify(key, value, mode))])
      ensures Told(old(S()), S(), t, Modify(key, value, mode), code)
      ensures |threads| == |old(threads)| && threads[t] == Idle(code) && code <= EXISTS_CODE
      ensures code == EXISTS_CODE ==> mode == STRICT_INSERT
      ensures code == NOT_FOUND_CODE ==> mode == STRICT_UPDATE
    {
      hide PowerOfTwo, BinOf, Bins.Hash, Base, Inv, Leads, Next, Shaped, Told;
      Ready(S(), t, Modify(key, value, mode));
      BaseIs(S(), key);
      var bin := Idx(key, seed, size);
      var base, available := BIN_CAPACITY * bin, -1;
      Go(t, Modify(key, value, mode), Scan(key, value, mode, base, None));
      TableKept(old(S()), S(), key);
      ghost var m := S();
      var done;
      done, code, available := ScanLoop(t, key, value, mode, base, env);
      LeadsFurther(old(S()), m, S(), {t}, [Action(t, Modify(key, value, mode))], []);
      if done {
        LeadsTold(old(S()), S(), t, Modify(key, value, mode), code);
        return;
      }
      m := S();
      TableKept(old(S()), m, key);
      code := ClaimLoop(t, key, value, base, available, (k: nat) => env(k + 2));
      LeadsFurther(old(S()), m, S(), {t}, [Action(t, Modify(key, value, mode))], []);
      LeadsTold(old(S()), S(), t, Modify(key, value, mode), code);
    }

    /** The loop over the bin, and the returns after it. */
    method ScanLoop(t: nat, key: Key, value: Value, mode: Mode, base: nat, env: nat -> nat -> seq<Action>)
      returns (done: bool, code: nat, available: int)
      requires Valid() && t < |threads| && Shaped(S()) && base == Base(S(), key)
      requires threads[t] == ScanAt(key, value, mode, base, 0, -1)
      modifies this`count, this`threads, slots, values
      ensures Valid() && Leads(old(S()), S(), {t}, []) && |threads| == |old(threads)|
      ensures done ==> threads[t] == Idle(code) && code <= EXISTS_CODE
      ensures done && code == EXISTS_CODE ==> mode == STRICT_INSERT
      ensures done && code == NOT_FOUND_CODE ==> mode == STRICT_UPDATE
      ensures !done ==> 0 <= available < BIN_CAPACITY && threads[t] == Claim(key, value, base + available)
    {
      hide PowerOfTwo, BinOf, Bins.Hash, Base, Inv, Leads, Next, Shaped, Told;
      available, code := -1, 0;
      LeadsHere(S(), {t});
      for j := 0 to BIN_CAPACITY
        invariant Valid() && Leads(old(S()), S(), {t}, []) && |threads| == |old(threads)| && Shaped(S()) &&
                  base == Base(S(), key)
        invariant -1 <= available < j && threads[t] == ScanAt(key, value, mode, base, j, available)
      {
        ghost var m := S();
        done, code, available := Look(t, key, value, mode, base, j, available, env(0)(j), env(1)(0));
        LeadsFurther(old(S()), m, S(), {t}, [], []);
        if done { return; }
      }
      done := mode == STRICT_UPDATE || available == -1;
      code := if mode == STRICT_UPDATE then NOT_FOUND_CODE else BIN_FULL_CODE;
    }

    /** One turn of the loop: the load of the key in slot j. */
    method Look(t: nat, key: Key, value: Value, mode: Mode, base: nat, j: nat, available: int, env1: seq<Action>,
                env2: seq<Action>)
      returns (done: bool, code: nat, next: int)
      requires Valid() && t < |threads| && Shaped(S()) && base == Base(S(), key) && j < BIN_CAPACITY
      requires -1 <= available < j && threads[t] == ScanAt(key, value, mode, base, j, available)
      modifies this`count, this`threads, slots, values
      ensures Valid() && Leads(old(S()), S(), {t}, []) && |threads| == |old(threads)|
      ensures Shaped(S()) && base == Base(S(), key)
      ensures done ==> threads[t] == Idle(code) && code == if mode == STRICT_INSERT then EXISTS_CODE else OK_CODE
      ensures !done ==> -1 <= next <= j && threads[t] == ScanAt(key, value, mode, base, j + 1, next)
    {
      hide PowerOfTwo, BinOf, Bins.Hash, Base, Inv, Leads, Next, Shaped, Told;
      Interfere(t, env1);
      ghost var m := S();
      TableKept(old(S()), m, key);
      ScanStep(m, t, key, value, mode, base, j, available);
      var word := slots[base + j];
      next, done, code := available, word == key, 0;
      if done {
        code := Hit(t, key, value, mode, base, j, available, env2);
      } else {
        if word == ZERO && available == -1 { next := j; }
        Go(t, ANY, ScanAt(key, value, mode, base, j + 1, next));
      }
      LeadsFurther(old(S()), m, S(), {t}, [], []);
      TableKept(old(S()), S(), key);
    }

    /** The key was found in slot j. */
    method Hit(t: nat, key: Key, value: Value, mode: Mode, base: nat, j: nat, available: int, env: seq<Action>)
      returns (code: nat)
      requires Valid() && t < |threads| && Shaped(S()) && base == Base(S(), key) && j < BIN_CAPACITY && -1 <= available
      requires threads[t] == ScanAt(key, value, mode, base, j, available)
      requires base + j < slots.Length && slots[base + j] == key
      modifies this`count, this`threads, slots, values
      ensures Valid() && Leads(old(S()), S(), {t}, []) && |threads| == |old(threads)|
      ensures threads[t] == Idle(code) && code == if mode == STRICT_INSERT then EXISTS_CODE else OK_CODE
    {
      hide PowerOfTwo, BinOf, Bins.Hash, Base, Inv, Leads, Next, Shaped, Told;
      ScanStep(S(), t, key, value, mode, base, j, available);
      if mode == STRICT_INSERT {
        Go(t, ANY, Idle(EXISTS_CODE));
        return EXISTS_CODE;
      }
      Go(t, ANY, Overwrite(key, value, base + j));
      ghost var m := S();
      UpdateInPlace(t, key, value, base + j, env);
      LeadsFurther(old(S()), m, S(), {t}, [], []);
      code := OK_CODE;
    }

    static lemma BaseIs(s: State, key: Key)
      requires Inv(s)
      ensures PowerOfTwo(s.size) && Shaped(s) && Base(s, key) == BIN_CAPACITY * BinOf(s.hash(key), s.size)
    {
    }

    /** The store of the value after the key was found. */
    method UpdateInPlace(t: nat, key: Key, value: Value, p: nat, env: seq<Action>)
      requires Valid() && t < |threads| && threads[t] == Overwrite(key, value, p)
      modifies this`count, this`threads, slots, values
      ensures Valid() && Leads(old(S()), S(), {t}, [])
      ensures |threads| == |old(threads)| && threads[t] == Idle(OK_CODE)
    {
      hide PowerOfTwo, BinOf, Bins.Hash, Base, Parts.Special, Owned, AtHome, Balanced, Leads;
      Interfere(t, env);
      ghost var m := S();
      assert Placed(m, m.threads[t]);
      ghost var n := LeadsOn(old(S()), m, {t}, [], t, ANY);
      values[p] := value;
      threads := threads[t := Idle(OK_CODE)];
      assert S() == n;
    }

    // ---------------------------------------------------------- hash_search()

    static function SeekAt(key: Key, base: nat, j: nat): Thread {
      if j < BIN_CAPACITY then Seek(key, base + j) else Idle(0)
    }

    static lemma SeekStep(s: State, t: nat, key: Key, base: nat, j: nat)
      requires Inv(s) && Shaped(s) && t < |s.threads| && base == Base(s, key) && j < BIN_CAPACITY
      requires s.threads[t] == SeekAt(key, base, j)
      ensures Placed(s, s.threads[t]) && base + j < |s.slots|
      ensures Next(s, t, ANY) ==
              Moved(s, t, if s.slots[base + j] == key then Erase(key, base + j) else SeekAt(key, base, j + 1))
    {
      hide PowerOfTwo, BinOf, Bins.Hash, Base, Parts.Special, Owned, AtHome, Balanced;
      assert Placed(s, s.threads[t]);
    }

    /** hash_search(), mode HASH_DELETE: 1 if this call erased the key. */
    method HashDelete(t: nat, key: Key, env: nat -> seq<Action>) returns (code: nat)
      requires Valid() && t < |threads| && threads[t].Idle? && !Parts.Special(key)
      modifies this`count, this`threads, slots, values
      ensures Valid() && Leads(old(S()), S(), {t}, [Action(t, Call.Delete(key))])
      ensures Told(old(S()), S(), t, Call.Delete(key), code)
      ensures |threads| == |old(threads)| && threads[t] == Idle(code) && code <= 1
    {
      hide PowerOfTwo, BinOf, Bins.Hash, Base, Inv, Leads, Next, Shaped, Told;
      Ready(S(), t, Call.Delete(key));
      BaseIs(S(), key);
      var bin := Idx(key, seed, size);
      var base := BIN_CAPACITY * bin;
      Go(t, Call.Delete(key), Seek(key, base));
      TableKept(old(S()), S(), key);
      for j := 0 to BIN_CAPACITY
        invariant Valid() && Leads(old(S()), S(), {t}, [Action(t, Call.Delete(key))]) && |threads| == |old(threads)| &&
                  Shaped(S()) && base == Base(S(), key)
        invariant threads[t] == SeekAt(key, base, j)
      {
        ghost var m := S();
        Interfere(t, env(j));
        LeadsFurther(old(S()), m, S(), {t}, [Action(t, Call.Delete(key))], []);
        m := S();
        TableKept(old(S()), m, key);
        SeekStep(m, t, key, base, j);
        if slots[base + j] == key {
          Go(t, ANY, Erase(key, base + j));
          LeadsFurther(old(S()), m, S(), {t}, [Action(t, Call.Delete(key))], []);
          m := S();
          code := TryErase(t, key, base + j, env(BIN_CAPACITY), env(BIN_CAPACITY + 1));
          LeadsFurther(old(S()), m, S(), {t}, [Action(t, Call.Delete(key))], []);
          LeadsTold(old(S()), S(), t, Call.Delete(key), code);
          return;
        }
        Go(t, ANY, SeekAt(key, base, j + 1));
        LeadsFurther(old(S()), m, S(), {t}, [Action(t, Call.Delete(key))], []);
        TableKept(old(S()), S(), key);
      }
      code := 0;
      LeadsTold(old(S()), S(), t, Call.Delete(key), code);
    }

    /** The compare-and-exchange that erases, and the fetch-and-sub. */
    method TryErase(t: nat, key: Key, p: nat, env1: seq<Action>, env2: seq<Action>) returns (code: nat)
      requires Valid() && t < |threads| && threads[t] == Erase(key, p)
      modifies this`count, this`threads, slots, values
      ensures Valid() && Leads(old(S()), S(), {t}, [])
      ensures |threads| == |old(threads)| && threads[t] == Idle(code) && code <= 1
    {
      hide PowerOfTwo, Inv, Leads;
      Interfere(t, env1);
      ghost var m := S();
      var won := EraseWord(t, key, p);
      LeadsFurther(old(S()), m, S(), {t}, [], []);
      if !won { return 0; }
      m := S();
      Interfere(t, env2);
      LeadsFurther(old(S()), m, S(), {t}, [], []);
      m := S();
      Decrement(t);
      LeadsFurther(old(S()), m, S(), {t}, [], []);
      code := 1;
    }

    method EraseWord(t: nat, key: Key, p: nat) returns (won: bool)
      requires Valid() && t < |threads| && threads[t] == Erase(key, p)
      modifies this`threads, slots
      ensures Valid() && Leads(old(S()), S(), {t}, []) && threads == old(threads)[t := if won then Untally else Idle(0)]
    {
      hide PowerOfTwo, BinOf, Bins.Hash, Base, Parts.Special, Owned, AtHome, Balanced, Leads;
      LeadsHere(S(), {t});
      assert Placed(S(), threads[t]);
      ghost var n := LeadsOn(S(), S(), {t}, [], t, ANY);
      won := slots[p] == key;
      if won { slots[p] := ZERO; }
      threads := threads[t := if won then Untally else Idle(0)];
      assert S() == n;
    }

    method Decrement(t: nat)
      requires Valid() && t < |threads| && threads[t] == Untally
      modifies this`threads, this`count
      ensures Valid() && Leads(old(S()), S(), {t}, []) && threads == old(threads)[t := Idle(1)]
    {
      hide PowerOfTwo, BinOf, Bins.Hash, Base, Parts.Special, Owned, AtHome, Balanced, Leads;
      LeadsHere(S(), {t});
      ghost var n := LeadsOn(S(), S(), {t}, [], t, ANY);
      count := (count - 1) % WRAP;
      threads := threads[t := Idle(1)];
      assert S() == n;
    }
  }
}
