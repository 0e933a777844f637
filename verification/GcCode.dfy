/** gc_limbo(), gc_cycle() and gc_full() of src/gc.c as methods on a class, each
    shown to perform a run of the transition system of module Gc, and gc_full()
    to terminate once the workers are quiet. */
module GcCode {
  import E = Ebr
  import C = EbrCode
  import opened Gc

  predicate LinksNothing(run: seq<Action>) {
    run == [] || (!run[0].Link? && LinksNothing(run[1..]))
  }

  ghost predicate Leads(x: Recorded, run: seq<Action>, y: Recorded) {
    Possible(x, run) && After(x, run) == y
  }

  /** y is where the run leads from x, and the run links no new object. */
  ghost predicate Runs(x: Recorded, run: seq<Action>, y: Recorded) {
    Leads(x, run, y) && LinksNothing(run)
  }

  lemma {:induction false} LeadsCat(x: Recorded, r: seq<Action>, y: Recorded, q: seq<Action>, z: Recorded)
    requires Leads(x, r, y) && Leads(y, q, z)
    ensures Leads(x, r + q, z)
    ensures LinksNothing(r) && LinksNothing(q) ==> LinksNothing(r + q)
    decreases r
  {
    hide Apply, Record, Enabled;
    if r == [] {
      assert r + q == q;
    } else {
      LeadsCat(Step(x, r[0]), r[1..], y, q, z);
      assert (r + q)[1..] == r[1..] + q;
    }
  }

  lemma RunsCat(x: Recorded, r: seq<Action>, y: Recorded, q: seq<Action>, z: Recorded)
    requires Runs(x, r, y) && Runs(y, q, z)
    ensures Runs(x, r + q, z)
  {
    LeadsCat(x, r, y, q, z);
  }

  lemma RunsOne(x: Recorded, a: Action)
    requires Enabled(x.s, a) && !a.Link?
    ensures Runs(x, [a], Step(x, a))
  {
    assert [a][1..] == [];
  }

  lemma RunsReach(x: Recorded, run: seq<Action>, y: Recorded)
    requires Reachable(x) && Runs(x, run, y)
    ensures Reachable(y)
  {
    var r :| Possible(START, r) && After(START, r) == x;
    LeadsCat(START, r, x, run, y);
  }

  /** Such runs only move objects about. */
  lemma {:induction false} RunsConserve(x: Recorded, run: seq<Action>, y: Recorded)
    requires Inv(x) && Runs(x, run, y)
    ensures |y.s.lists| == E.EPOCHS && Everything(y.s) == Everything(x.s)
    decreases run
  {
    if run != [] {
      EverythingStep(x, run[0]);
      InvStep(x, run[0]);
      RunsConserve(Step(x, run[0]), run[1..], y);
    }
  }

  // -------------------------------------------- ebr_sync() inside gc_cycle()

  function Lift1(a: E.Action): Action { if a.ByWorker() then Work(a) else Sync(a) }

  function Lift(q: seq<E.Action>): (r: seq<Action>)
    ensures |r| == |q|
  {
    if q == [] then [] else [Lift1(q[0])] + Lift(q[1..])
  }

  /** Everything in which x and y may differ after a call of ebr_sync(). */
  ghost predicate OnlySynced(x: Recorded, y: Recorded) {
    && y.s.limbo == x.s.limbo && y.s.lists == x.s.lists
    && y.s.linked == x.s.linked && y.s.unlinked == x.s.unlinked && y.s.reclaimed == x.s.reclaimed
    && y.h.drained == x.h.drained && y.h.witnesses == x.h.witnesses
  }

  /** A run of one ebr_sync() with its interference, seen from the collector. */
  lemma {:induction false} LiftRun(x: Recorded, q: seq<E.Action>)
    requires |x.s.lists| == E.EPOCHS && E.Inv(x.Ebr())
    requires E.Possible(x.Ebr(), q) && E.SyncLoad !in q
    requires x.s.pc.Syncing? <==> !x.s.ebr.sync.Quiet?
    ensures Possible(x, Lift(q)) && LinksNothing(Lift(q))
    ensures var y := After(x, Lift(q));
            && y.Ebr() == E.After(x.Ebr(), q)
            && OnlySynced(x, y)
            && y.h.ebr.now >= x.h.ebr.now
            && (y.s.pc.Syncing? <==> !y.s.ebr.sync.Quiet?)
            && (y.s.pc.Syncing? ==> y.s.pc == x.s.pc && y.h.ebr.now == x.h.ebr.now)
            && (!x.s.pc.Syncing? ==> y.s.pc == x.s.pc && y.h.ebr.now == x.h.ebr.now)
            && (x.s.pc.Syncing? && !y.s.pc.Syncing? ==>
                  y.s.pc == if y.h.ebr.now > x.h.ebr.now then Announced(x.s.pc.count) else Rest)
    decreases q
  {
    if q != [] {
      var a := q[0];
      assert q[0] in q;
      assert Enabled(x.s, Lift1(a));
      var z := Step(x, Lift1(a));
      assert z.Ebr() == E.Step(x.Ebr(), a);
      E.InvStep(x.Ebr(), a);
      LiftRun(z, q[1..]);
      assert Lift(q)[1..] == Lift(q[1..]) && Lift(q)[0] == Lift1(a);
    }
  }

  lemma LiftSync(x: Recorded, q: seq<E.Action>)
    requires |x.s.lists| == E.EPOCHS && E.Inv(x.Ebr()) && x.s.pc.Syncing? && x.s.ebr.sync.Quiet?
    requires q != [] && q[0] == E.SyncLoad && E.SyncLoad !in q[1..]
    requires E.Possible(x.Ebr(), q) && E.After(x.Ebr(), q).s.sync.Quiet?
    ensures Possible(x, Lift(q)) && LinksNothing(Lift(q))
    ensures var y := After(x, Lift(q));
            && y.Ebr() == E.After(x.Ebr(), q)
            && OnlySynced(x, y)
            && y.h.ebr.now >= x.h.ebr.now
            && y.s.pc == if y.h.ebr.now > x.h.ebr.now then Announced(x.s.pc.count) else Rest
  {
    var a := Sync(E.SyncLoad);
    assert Enabled(x.s, a);
    var z := Step(x, a);
    E.InvStep(x.Ebr(), q[0]);
    LiftRun(z, q[1..]);
    assert Lift(q)[1..] == Lift(q[1..]) && Lift(q)[0] == a;
  }

  // ------------------------------------------------------- the G/C structure

  /** What gc_cycle() works on: the clock, limbo, and the epoch lists. */
  datatype Lists = Lists(epoch: nat, limbo: seq<Object>, lists: seq<seq<Object>>)

  ghost predicate Sound(l: Lists) { l.epoch < E.EPOCHS && |l.lists| == E.EPOCHS }

  /** How many of limbo and the three epoch lists still hold something. */
  function Pending(l: Lists): nat
    requires Sound(l)
  {
    (if l.limbo == [] then 0 else 1) + (if l.lists[0] == [] then 0 else 1)
    + (if l.lists[1] == [] then 0 else 1) + (if l.lists[2] == [] then 0 else 1)
  }

  /** A new epoch is announced and limbo drained into its list. */
  function Advance(l: Lists): (r: Lists)
    requires Sound(l)
    ensures Sound(r)
  {
    var e := (l.epoch + 1) % E.EPOCHS;
    Lists(e, [], l.lists[e := l.limbo])
  }

  function Due(l: Lists): nat { (l.epoch + 1) % E.EPOCHS }

  /** gc_cycle() when every ebr_sync() announces. */
  function QuietCycle(count: nat, l: Lists): (r: Lists)
    requires Sound(l)
    ensures Sound(r)
  {
    var m := Advance(l);
    if m.lists[Due(m)] == [] && count > 0 then QuietCycle(count - 1, m)
    else m.(lists := m.lists[Due(m) := []])
  }

  /** A cycle that finds anything pending ends with one non-empty list less; the
      three retries are exactly enough to reach it. */
  lemma QuietCycleProgress(l: Lists)
    requires Sound(l) && l.lists[Due(l)] == []
    ensures var r := QuietCycle(RETRIES, l);
            Pending(r) == (if Pending(l) > 0 then Pending(l) - 1 else 0) && Pending(r) <= 2
  {
    hide Advance, Pending, QuietCycle;
    var c := l.epoch;
    var a, b := (c + 1) % E.EPOCHS, (c + 2) % E.EPOCHS;
    Clock(c);
    PendingByRole(l, a, b, c);
    PendingByRole(QuietCycle(3, l), a, b, c);
    var l1 := Advance(l);
    AdvanceMoves(l, a, b);
    QuietTurn(3, l, b);
    if l1.lists[b] == [] {
      var l2 := Advance(l1);
      AdvanceMoves(l1, b, c);
      QuietTurn(2, l1, c);
      if l2.lists[c] == [] {
        AdvanceMoves(l2, c, a);
        QuietTurn(1, l2, a);
        if Advance(l2).lists[a] == [] {
          AdvanceMoves(Advance(l2), a, b);
          QuietTurn(0, Advance(l2), b);
        }
      }
    }
  }

  lemma QuietTurn(count: nat, l: Lists, g: nat)
    requires Sound(l) && g == Due(Advance(l))
    ensures var m := Advance(l);
            Sound(m) && QuietCycle(count, l) == if m.lists[g] == [] && count > 0 then QuietCycle(count - 1, m)
                                                else m.(lists := m.lists[g := []])
  {
  }

  lemma AdvanceMoves(l: Lists, e: nat, g: nat)
    requires Sound(l) && e == Due(l) && e < E.EPOCHS && g == (e + 1) % E.EPOCHS && e != g
    ensures var m := Advance(l);
            && m.limbo == [] && m.epoch == e && Due(m) == g
            && |m.lists| == E.EPOCHS && m.lists[e] == l.limbo
            && forall i :: 0 <= i < E.EPOCHS && i != e ==> m.lists[i] == l.lists[i]
  {
  }

  /** The clock has three positions. */
  lemma Clock(c: nat)
    requires c < E.EPOCHS
    ensures var a, b := (c + 1) % E.EPOCHS, (c + 2) % E.EPOCHS;
            (a + 1) % E.EPOCHS == b && (b + 1) % E.EPOCHS == c && a != b && b != c && a != c
  {
    assert c == 0 || c == 1 || c == 2;
  }

  lemma NonePending(l: Lists)
    requires Sound(l)
    ensures Pending(l) == 0 <==> l.limbo == l.lists[0] == l.lists[1] == l.lists[2] == []
  {
  }

  lemma PendingByRole(l: Lists, a: nat, b: nat, c: nat)
    requires Sound(l) && c < E.EPOCHS && a == (c + 1) % E.EPOCHS && b == (c + 2) % E.EPOCHS
    ensures Pending(l) == (if l.limbo == [] then 0 else 1) + (if l.lists[a] == [] then 0 else 1)
                          + (if l.lists[b] == [] then 0 else 1) + (if l.lists[c] == [] then 0 else 1)
  {
  }

  /** After k announcements, the due lists of all but the last being empty. */
  function Advanced(l: Lists, k: nat): (r: Lists)
    requires Sound(l)
    ensures Sound(r)
  {
    if k == 0 then l else Advance(Advanced(l, k - 1))
  }

  ghost predicate NothingDue(l: Lists, k: int)
    requires Sound(l)
  {
    forall j: nat :: 0 < j <= k ==> Advanced(l, j).lists[Due(Advanced(l, j))] == []
  }

  /** How gc_cycle() leaves things after k announcements. */
  ghost predicate Settled(l: Lists, r: Lists, k: int, before: seq<Object>, after: seq<Object>)
    requires Sound(l)
  {
    && 0 <= k <= RETRIES + 1
    && (k == 0 ==> r == l && after == before)
    && (k > 0 ==>
          var m := Advanced(l, k);
          && NothingDue(l, k - 1)
          && r == m.(lists := m.lists[Due(m) := []]) && after == before + m.lists[Due(m)])
  }

  /** Why it stopped after k announcements if the workers did nothing meanwhile. */
  ghost predicate StoppedRightly(l: Lists, k: int, tls: map<E.Worker, E.Tls>)
    requires Sound(l)
  {
    && (k == 0 <==> !AllHold(tls, l.epoch))
    && (k > 1 ==> NoneActive(tls))
    && (k > 0 && NoneActive(tls) ==>
          k == RETRIES + 1 || Advanced(l, k).lists[Due(Advanced(l, k))] != [])
  }

  /** What one pass of the loop makes of the state after i announcements. */
  lemma TurnDone(l: Lists, i: nat, done: bool, advanced: bool, r: Lists, before: seq<Object>, after: seq<Object>)
    requires Sound(l) && i <= RETRIES && NothingDue(l, i)
    requires !advanced ==> done && r == Advanced(l, i) && after == before
    requires var m := Advance(Advanced(l, i));
             advanced ==>
               && (done <==> !(m.lists[Due(m)] == [] && i < RETRIES))
               && r == (if done then m.(lists := m.lists[Due(m) := []]) else m)
               && after == before + (if done then m.lists[Due(m)] else [])
    ensures !done ==> r == Advanced(l, i + 1) && NothingDue(l, i + 1) && after == before
    ensures done ==> Settled(l, r, if advanced then i + 1 else i, before, after)
  {
    hide Advance;
    assert Advanced(l, i + 1) == Advance(Advanced(l, i));
    var m := Advanced(l, i);
    if !advanced && i > 0 {
      assert m.lists[Due(m)] == [];
      assert m.lists[Due(m) := []] == m.lists;
    }
  }

  /** The same for the reason to go on or to stop, the workers doing nothing. */
  lemma TurnRight(l: Lists, i: nat, done: bool, advanced: bool, tls: map<E.Worker, E.Tls>)
    requires Sound(l) && i <= RETRIES
    requires i > 0 ==> AllHold(tls, l.epoch)
    requires i > 1 ==> NoneActive(tls)
    requires advanced <==> AllHold(tls, Advanced(l, i).epoch)
    requires var m := Advance(Advanced(l, i));
             done <==> !advanced || !(m.lists[Due(m)] == [] && i < RETRIES)
    ensures !done ==> AllHold(tls, l.epoch) && (i > 0 ==> NoneActive(tls))
    ensures done ==> StoppedRightly(l, if advanced then i + 1 else i, tls)
  {
    assert Advanced(l, i + 1) == Advance(Advanced(l, i));
    assert Advanced(l, 1) == Advance(Advanced(l, 0));
    assert NoneActive(tls) ==> advanced;
    if i == 1 && advanced {
      assert Advanced(l, 1).epoch == (l.epoch + 1) % E.EPOCHS != l.epoch;
    }
  }

  /** The four states in terms of what the lists held at the call. */
  lemma AdvancedIs(l: Lists, k: nat)
    requires Sound(l) && k <= 4
    ensures var m, e := Advanced(l, k), l.epoch;
            && m.epoch == (e + k) % 3 && m.limbo == (if k == 0 then l.limbo else [])
            && m.lists[(e + 1) % 3] == (if k == 0 then l.lists[(e + 1) % 3] else if k == 4 then [] else l.limbo)
            && m.lists[(e + 2) % 3] == (if k <= 1 then l.lists[(e + 2) % 3] else [])
            && m.lists[e] == (if k <= 2 then l.lists[e] else [])
  {
    hide Advance, Advanced;
    Clock(l.epoch);
    Unmoved(l);
    ByRole(l, (l.epoch + 1) % 3, (l.epoch + 2) % 3, l.epoch);
    assert (l.epoch + 3) % 3 == l.epoch && (l.epoch + 4) % 3 == (l.epoch + 1) % 3;
    assert k == 0 || k == 1 || k == 2 || k == 3 || k == 4;
  }

  lemma ByRole(l: Lists, a: nat, b: nat, e: nat)
    requires Sound(l) && e == l.epoch && a == (e + 1) % 3 && b == (e + 2) % 3
    ensures forall k :: 1 <= k <= 4 ==> Advanced(l, k).limbo == []
    ensures var m := Advanced(l, 1);
            m.epoch == a && m.lists[a] == l.limbo && m.lists[b] == l.lists[b] && m.lists[e] == l.lists[e]
    ensures var m := Advanced(l, 2);
            m.epoch == b && m.lists[a] == l.limbo && m.lists[b] == [] && m.lists[e] == l.lists[e]
    ensures var m := Advanced(l, 3);
            m.epoch == e && m.lists[a] == l.limbo && m.lists[b] == [] && m.lists[e] == []
    ensures var m := Advanced(l, 4);
            m.epoch == a && m.lists[a] == [] && m.lists[b] == [] && m.lists[e] == []
  {
    hide Advance, Advanced;
    Clock(e);
    Unmoved(l);
    OneMore(l, 0);
    AdvanceMoves(l, a, b);
    OneMore(l, 1);
    AdvanceMoves(Advanced(l, 1), b, e);
    OneMore(l, 2);
    AdvanceMoves(Advanced(l, 2), e, a);
    OneMore(l, 3);
    AdvanceMoves(Advanced(l, 3), a, b);
  }

  lemma Unmoved(l: Lists)
    requires Sound(l)
    ensures Advanced(l, 0) == l && NothingDue(l, 0)
  {
  }

  lemma Explicit(l: Lists, r: Lists, k: int, before: seq<Object>, after: seq<Object>)
    requires Sound(l) && Settled(l, r, k, before, after) && l.lists[Due(l)] == []
    ensures var e := l.epoch;
            && 0 <= k <= 4 && |r.lists| == 3 && r.epoch == (e + k) % 3
            && r.limbo == (if k == 0 then l.limbo else [])
            && r.lists[(e + 1) % 3] == (if k == 1 || k == 2 then l.limbo else [])
            && r.lists[(e + 2) % 3] == (if k == 0 then l.lists[(e + 2) % 3] else [])
            && r.lists[e] == (if k <= 1 then l.lists[e] else [])
    ensures var e := l.epoch;
            && (k >= 2 ==> l.lists[(e + 2) % 3] == [])
            && (k >= 3 ==> l.lists[e] == [])
            && (k == 4 ==> l.limbo == [])
            && after == before + (if k == 1 then l.lists[(e + 2) % 3] else if k == 2 then l.lists[e]
                                  else if k == 3 then l.limbo else [])
  {
    hide Advanced, NothingDue;
    Clock(l.epoch);
    AdvancedIs(l, k);
    DueThen(l, k);
    if k >= 2 { DueBefore(l, k, 1); }
    if k >= 3 { DueBefore(l, k, 2); }
    if k == 4 { DueBefore(l, k, 3); }
  }

  /** How often it announces if the workers do nothing. */
  lemma Right(l: Lists, k: int, tls: map<E.Worker, E.Tls>)
    requires Sound(l) && 0 <= k <= 4 && (k > 0 ==> NothingDue(l, k - 1)) && StoppedRightly(l, k, tls)
    ensures var e := l.epoch;
            && (k == 0 <==> exists w :: w in tls && tls[w].word.active && tls[w].word.epoch != e)
            && ((exists w :: w in tls && tls[w].word.active) ==> k <= 1)
            && ((forall w :: w in tls ==> !tls[w].word.active) ==>
                  k == if l.lists[(e + 2) % 3] != [] then 1 else if l.lists[e] != [] then 2
                       else if l.limbo != [] then 3 else 4)
  {
    hide Advanced, NothingDue;
    Clock(l.epoch);
    if NoneActive(tls) {
      DueThen(l, k);
      if k >= 2 { DueBefore(l, k, 1); }
      if k >= 3 { DueBefore(l, k, 2); }
      if k == 4 { DueBefore(l, k, 3); }
    }
  }

  lemma DueBefore(l: Lists, k: nat, j: nat)
    requires Sound(l) && 0 < j < k <= 4 && NothingDue(l, k - 1)
    ensures (if j == 1 then l.lists[(l.epoch + 2) % 3] else if j == 2 then l.lists[l.epoch] else l.limbo) == []
  {
    DueThen(l, j);
    assert Advanced(l, j).lists[Due(Advanced(l, j))] == [];
  }

  /** The list that is due after j announcements. */
  lemma DueThen(l: Lists, j: nat)
    requires Sound(l) && j <= 4
    ensures var m := Advanced(l, j);
            && (j == 1 ==> m.lists[Due(m)] == l.lists[(l.epoch + 2) % 3])
            && (j == 2 ==> m.lists[Due(m)] == l.lists[l.epoch])
            && (j == 3 ==> m.lists[Due(m)] == l.limbo)
            && (j == 4 ==> m.lists[Due(m)] == [])
  {
    hide Advanced;
    Clock(l.epoch);
    AdvancedIs(l, j);
  }

  /** Such a cycle is QuietCycle. */
  lemma IsQuiet(l: Lists, r: Lists, k: int, before: seq<Object>, after: seq<Object>, tls: map<E.Worker, E.Tls>)
    requires Sound(l) && Settled(l, r, k, before, after) && StoppedRightly(l, k, tls) && NoneActive(tls)
    ensures r == QuietCycle(RETRIES, l)
  {
    hide Advanced, QuietCycle, NothingDue;
    Skip(l, k, k - 1);
    OneMore(l, k - 1);
    QuietTurn((RETRIES + 1) - k, Advanced(l, k - 1), Due(Advanced(l, k)));
  }

  lemma OneMore(l: Lists, j: nat)
    requires Sound(l)
    ensures Advanced(l, j + 1) == Advance(Advanced(l, j))
  {
  }

  lemma {:induction false} Skip(l: Lists, k: nat, j: nat)
    requires Sound(l) && NothingDue(l, k - 1) && j < k <= RETRIES + 1
    ensures QuietCycle(RETRIES, l) == QuietCycle(RETRIES - j, Advanced(l, j))
  {
    hide Advance;
    if j > 0 {
      Skip(l, k, j - 1);
      var m := Advanced(l, j);
      assert m.lists[Due(m)] == [];
      QuietTurn(RETRIES - (j - 1), Advanced(l, j - 1), Due(m));
    }
  }

  /** Everything that was waiting in x is, in y, reclaimed, each object once more. */
  ghost predicate Reclaimed(x: Recorded, y: Recorded)
    requires |x.s.lists| == E.EPOCHS
  {
    multiset(y.s.reclaimed) == multiset(x.s.reclaimed) + multiset(x.s.limbo) + Staged(x.s)
  }

  /** Every active worker has stored the epoch e. */
  ghost predicate AllHold(tls: map<E.Worker, E.Tls>, e: nat) {
    forall w :: w in tls && tls[w].word.active ==> tls[w].word.epoch == e
  }

  ghost predicate NoneActive(tls: map<E.Worker, E.Tls>) {
    forall w :: w in tls ==> !tls[w].word.active
  }

  /** Other threads may hand over these objects, one after the other. */
  ghost predicate Turns(others: seq<Object>, o: Object, unlinked: set<Object>) {
    others == [] || (others[0] in unlinked && others[0] != o && Turns(others[1..], o, unlinked - {others[0]}))
  }

  ghost function Pushes(others: seq<Object>): seq<Action> {
    if others == [] then [] else Pushes(others[..|others| - 1]) + [ToLimbo(others[|others| - 1])]
  }

  ghost function Reversed(others: seq<Object>): seq<Object> {
    if others == [] then [] else [others[|others| - 1]] + Reversed(others[..|others| - 1])
  }

  class GcSystem {
    const ebr: C.EbrSystem
    const epochList: array<seq<Object>>
    var limbo: seq<Object>
    /** What the reclaim function has been given so far. */
    var reclaimed: seq<Object>
    ghost var pc: Pc
    ghost var linked: set<Object>
    ghost var unlinked: set<Object>
    ghost var refs: map<E.Worker, set<Object>>
    ghost var drained: map<Object, nat>
    ghost var witnesses: map<Object, map<E.Worker, nat>>

    ghost function Model(): Recorded
      reads this, ebr, epochList
    {
      Recorded(State(ebr.Model().s, pc, limbo, epochList[..], linked, unlinked, reclaimed, refs),
               History(ebr.Model().h, drained, witnesses))
    }

    ghost function L(): Lists
      reads this, ebr, epochList
    {
      Lists(ebr.globalEpoch, limbo, epochList[..])
    }

    ghost predicate Valid()
      reads this, ebr, epochList
    {
      && epochList.Length == E.EPOCHS
      && ebr.Valid() && ebr.globalEpoch < E.EPOCHS
      && Reachable(Model()) && pc.Rest?
    }

    constructor ()
      ensures Valid() && Model() == START && fresh(ebr) && fresh(epochList)
    {
      ebr := new C.EbrSystem();
      epochList := new seq<Object>[E.EPOCHS](_ => []);
      limbo, reclaimed, pc := [], [], Rest;
      linked, unlinked, refs, drained, witnesses := {}, {}, map[], map[], map[];
      new;
      assert epochList[..] == [[], [], []];
      assert Possible(START, []) && After(START, []) == START;
    }

    /** The ghost variables follow a run of the transition system. */
    ghost method Follow(y: Recorded)
      requires epochList.Length == E.EPOCHS
      requires y.Ebr() == ebr.Model()
      requires y.s.limbo == limbo && y.s.lists == epochList[..] && y.s.reclaimed == reclaimed
      modifies this`pc, this`linked, this`unlinked, this`refs, this`drained, this`witnesses
      ensures Model() == y
    {
      pc, linked, unlinked, refs := y.s.pc, y.s.linked, y.s.unlinked, y.s.refs;
      drained, witnesses := y.h.drained, y.h.witnesses;
    }

    /** gc_limbo(): load the head, link the entry to it, and try to swap it in; while
        other threads get there first the swap fails and is tried again. */
    method Limbo(o: Object, others: seq<Object>) returns (ghost run: seq<Action>)
      requires Valid() && o in unlinked && Turns(others, o, unlinked)
      modifies this
      ensures Valid() && Runs(old(Model()), run, Model())
      ensures run == Pushes(others) + [ToLimbo(o)] && limbo == [o] + Reversed(others) + old(limbo)
    {
      hide Reachable, Runs, Apply, Record, Turns, Pushes, Reversed, Possible, After;
      ghost var x := Model();
      var i := 0;
      run := [];
      NoTurns(x, others);
      while true
        invariant 0 <= i <= |others| && Valid() && Runs(x, run, Model()) && run == Pushes(others[..i])
        invariant o in unlinked && Turns(others[i..], o, unlinked) && limbo == Reversed(others[..i]) + x.s.limbo
        decreases |others| - i
      {
        var head := limbo;
        if i < |others| {
          OneTurn(others, i, o, unlinked);
          Push(others[i], x, run);
          run := run + [ToLimbo(others[i])];
          i := i + 1;
        }
        if limbo == head {
          assert others[..i] == others;
          Push(o, x, run);
          run := run + [ToLimbo(o)];
          return;
        }
      }
    }

    static lemma NoTurns(x: Recorded, others: seq<Object>)
      ensures Runs(x, [], x) && Pushes(others[..0]) == [] && Reversed(others[..0]) == [] && others[0..] == others
    {
    }

    static lemma OneTurn(others: seq<Object>, i: nat, o: Object, unlinked: set<Object>)
      requires i < |others| && Turns(others[i..], o, unlinked)
      ensures others[i] in unlinked && others[i] != o && Turns(others[i + 1..], o, unlinked - {others[i]})
      ensures Pushes(others[..i + 1]) == Pushes(others[..i]) + [ToLimbo(others[i])]
      ensures Reversed(others[..i + 1]) == [others[i]] + Reversed(others[..i])
    {
      assert others[i..][1..] == others[i + 1..] && others[..i + 1][..i] == others[..i];
    }

    /** A compare-and-swap that succeeds. */
    method Push(o: Object, ghost x: Recorded, ghost run: seq<Action>)
      requires Valid() && o in unlinked && Runs(x, run, Model())
      modifies this
      ensures Valid() && Runs(x, run + [ToLimbo(o)], Model()) && unlinked == old(unlinked) - {o}
      ensures limbo == [o] + old(limbo)
    {
      ghost var y := Model();
      ReachInv(y);
      RunsOne(y, ToLimbo(o));
      RunsReach(y, [ToLimbo(o)], Step(y, ToLimbo(o)));
      RunsCat(x, run, y, [ToLimbo(o)], Step(y, ToLimbo(o)));
      limbo := [o] + limbo;
      Follow(Step(y, ToLimbo(o)));
    }

    /** Between ebr_sync() and the decision: drain limbo into the staging list. */
    method DrainLimbo() returns (ghost run: seq<Action>)
      requires epochList.Length == E.EPOCHS && pc.Announced? && ebr.globalEpoch < E.EPOCHS
      modifies this, epochList
      ensures Runs(old(Model()), run, Model()) && pc == Drained(old(pc).count)
      ensures linked == old(linked) && unlinked == old(unlinked) && reclaimed == old(reclaimed)
      ensures L() == Lists(ebr.globalEpoch, [], old(L()).lists[ebr.globalEpoch := old(limbo)])
    {
      ghost var x := Model();
      RunsOne(x, Drain);
      run := [Drain];
      var staging := ebr.globalEpoch;
      epochList[staging] := limbo;
      limbo := [];
      Follow(Step(x, Drain));
    }

    /** The reclaim function walks its list, and the list is dropped. */
    method ReclaimList(g: nat) returns (ghost run: seq<Action>)
      requires epochList.Length == E.EPOCHS && g < E.EPOCHS && ebr.globalEpoch < E.EPOCHS
      requires pc == Reclaiming(g, epochList[g])
      modifies this, epochList
      ensures Runs(old(Model()), run, Model()) && pc == Rest
      ensures limbo == old(limbo) && epochList[..] == old(epochList[..])[g := []]
      ensures reclaimed == old(reclaimed) + old(epochList[g])
      ensures linked == old(linked) && unlinked == old(unlinked) && refs == old(refs)
    {
      ghost var x := Model();
      var entries := epochList[g];
      run := [];
      for i := 0 to |entries|
        invariant pc == Reclaiming(g, entries[i..])
        invariant Runs(x, run, Model())
        invariant limbo == old(limbo) && epochList[..] == old(epochList[..])
        invariant reclaimed == old(reclaimed) + entries[..i]
        invariant linked == old(linked) && unlinked == old(unlinked) && refs == old(refs)
      {
        ghost var y := Model();
        assert entries[i..][1..] == entries[i + 1..];
        assert entries[..i + 1] == entries[..i] + [entries[i]];
        RunsOne(y, Reclaim);
        RunsCat(x, run, y, [Reclaim], Step(y, Reclaim));
        run := run + [Reclaim];
        reclaimed := reclaimed + [entries[i]];
        Follow(Step(y, Reclaim));
      }
      ghost var y := Model();
      assert entries[..|entries|] == entries && entries[|entries|..] == [];
      RunsOne(y, Finish);
      RunsCat(x, run, y, [Finish], Step(y, Finish));
      run := run + [Finish];
      epochList[g] := [];
      Follow(Step(y, Finish));
    }
  
    /** ebr_sync() as called from gc_cycle(). */
    method Synchronise(count: nat, env: seq<seq<E.Action>>)
      returns (announced: bool, gcEpoch: nat, ghost run: seq<Action>)
      requires epochList.Length == E.EPOCHS && ebr.Valid() && pc == Syncing(count)
      requires Reachable(Model())
      requires forall e, a :: e in env && a in e ==> a.ByWorker() && !a.Unregister?
      modifies this`pc, this`linked, this`unlinked, this`refs, this`drained, this`witnesses, ebr
      ensures ebr.Valid() && Runs(old(Model()), run, Model())
      ensures linked == old(linked) && unlinked == old(unlinked) && old(ebr.globalEpoch) < E.EPOCHS
      ensures gcEpoch == E.GcEpoch(ebr.Model().s)
      ensures pc == if announced then Announced(count) else Rest
      ensures ebr.globalEpoch == if announced then (old(ebr.globalEpoch) + 1) % E.EPOCHS else old(ebr.globalEpoch)
      ensures ebr.h.now == old(ebr.h.now) + (if announced then 1 else 0)
      ensures Sync(E.SyncLoad) in run
      ensures env == [] ==> ebr.tls == old(ebr.tls) && (announced <==> AllHold(old(ebr.tls), old(ebr.globalEpoch)))
    {
      hide Possible, After, Apply, Record;
      ghost var y := Model();
      ReachFacts(y);
      ghost var q;
      announced, gcEpoch, q := ebr.Sync(env);
      LiftSync(y, q);
      run := Lift(q);
      assert run[0] == Sync(E.SyncLoad);
      Follow(After(y, run));
    }

    /** One round of gc_cycle(): synchronise, and drain limbo if there is a new epoch. */
    method Round(count: nat, env: seq<seq<E.Action>>) returns (announced: bool, gcEpoch: nat, ghost run: seq<Action>)
      requires epochList.Length == E.EPOCHS && ebr.Valid() && pc == Syncing(count)
      requires Reachable(Model())
      requires forall e, a :: e in env && a in e ==> a.ByWorker() && !a.Unregister?
      modifies this, ebr, epochList
      ensures ebr.Valid() && Reachable(Model()) && Sound(old(L())) && Runs(old(Model()), run, Model())
      ensures ebr.globalEpoch < E.EPOCHS && gcEpoch == Due(L())
      ensures pc == if announced then Drained(count) else Rest
      ensures linked == old(linked) && unlinked == old(unlinked)
      ensures L() == if announced then Advance(old(L())) else old(L())
      ensures reclaimed == old(reclaimed) && ebr.h.now == old(ebr.h.now) + (if announced then 1 else 0)
      ensures Sync(E.SyncLoad) in run
      ensures env == [] ==> ebr.tls == old(ebr.tls) && (announced <==> AllHold(old(ebr.tls), old(ebr.globalEpoch)))
    {
      hide Possible, After, Apply, Record;
      ghost var y := Model();
      announced, gcEpoch, run := Synchronise(count, env);
      ghost var z := Model();
      RunsReach(y, run, z);
      if announced {
        ghost var q := DrainLimbo();
        RunsCat(y, run, z, q, Model());
        run := run + q;
      }
      RunsReach(y, run, Model());
    }

    static lemma ReachFacts(y: Recorded)
      requires Reachable(y)
      ensures |y.s.lists| == E.EPOCHS && E.Inv(y.Ebr()) && y.s.ebr.epoch < E.EPOCHS
      ensures y.s.pc.Announced? ==> y.s.lists[y.s.ebr.epoch] == []
    {
      ReachInv(y);
      if y.s.pc.Announced? { StagingIsEmpty(y); }
    }

    /** Reclaim what gc_cycle() found due, or nothing. */
    method Decided(count: nat, gcEpoch: nat) returns (done: bool, ghost run: seq<Action>)
      requires epochList.Length == E.EPOCHS && ebr.globalEpoch < E.EPOCHS && pc == Drained(count)
      requires gcEpoch == Due(L())
      modifies this, epochList
      ensures Runs(old(Model()), run, Model())
      ensures linked == old(linked) && unlinked == old(unlinked)
      ensures done <==> !(old(epochList[gcEpoch]) == [] && count > 0)
      ensures pc == if done then Rest else Syncing(count - 1)
      ensures L() == if done then old(L()).(lists := old(L()).lists[gcEpoch := []]) else old(L())
      ensures reclaimed == old(reclaimed) + (if done then old(epochList[gcEpoch]) else [])
    {
      ghost var z := Model();
      RunsOne(z, Decide);
      run := [Decide];
      if epochList[gcEpoch] == [] && count > 0 {
        pc := Syncing(count - 1);
        return false, run;
      }
      pc := Reclaiming(gcEpoch, epochList[gcEpoch]);
      ghost var v := Model();
      ghost var q := ReclaimList(gcEpoch);
      RunsCat(z, run, v, q, Model());
      run := run + q;
      done := true;
    }

    /** One pass of gc_cycle() from its label `next`: done unless it is to be repeated. */
    method Turn(count: nat, env: seq<seq<E.Action>>) returns (done: bool, ghost run: seq<Action>)
      requires epochList.Length == E.EPOCHS && ebr.Valid() && ebr.globalEpoch < E.EPOCHS && pc == Syncing(count)
      requires Reachable(Model())
      requires forall e, a :: e in env && a in e ==> a.ByWorker() && !a.Unregister?
      modifies this, ebr, epochList
      ensures ebr.Valid() && ebr.globalEpoch < E.EPOCHS && Sound(old(L())) && Runs(old(Model()), run, Model())
      ensures linked == old(linked) && unlinked == old(unlinked)
      ensures if done then pc == Rest else count > 0 && pc == Syncing(count - 1)
      ensures Sync(E.SyncLoad) in run
      ensures ebr.h.now == old(ebr.h.now) || ebr.h.now == old(ebr.h.now) + 1
      ensures ebr.h.now == old(ebr.h.now) ==> done && L() == old(L()) && reclaimed == old(reclaimed)
      ensures var m := Advance(old(L()));
              ebr.h.now == old(ebr.h.now) + 1 ==>
                && (done <==> !(m.lists[Due(m)] == [] && count > 0))
                && L() == (if done then m.(lists := m.lists[Due(m) := []]) else m)
                && reclaimed == old(reclaimed) + (if done then m.lists[Due(m)] else [])
      ensures env == [] ==>
                && ebr.tls == old(ebr.tls)
                && (ebr.h.now == old(ebr.h.now) + 1 <==> AllHold(old(ebr.tls), old(ebr.globalEpoch)))
    {
      hide Possible, After, Apply, Record, Enabled, Runs, Reachable, Advance, AllHold;
      ghost var y := Model();
      var announced, gcEpoch;
      announced, gcEpoch, run := Round(count, env);
      done := true;
      if announced {
        ghost var z, q := Model(), [];
        done, q := Decided(count, gcEpoch);
        RunsCat(y, run, z, q, Model());
        run := run + q;
      }
    }

    ghost method Begin() returns (run: seq<Action>)
      requires pc.Rest? && epochList.Length == E.EPOCHS && ebr.globalEpoch < E.EPOCHS
      modifies this`pc
      ensures Runs(old(Model()), run, Model()) && pc == Syncing(RETRIES) && run == [CycleStart]
    {
      RunsOne(Model(), CycleStart);
      run := [CycleStart];
      pc := Syncing(RETRIES);
    }

    /** gc_cycle(), with the workers' moves during the i-th ebr_sync() in envs[i].
        With e the epoch at the call and k the number of epochs announced, 0 to 4:
        the first announcement moves limbo into list e + 1; the k-th one is followed
        by the reclaiming of the list then due, which is list e + 2, then list e, then
        what was in limbo; and a further one is tried only if that list was empty.
        Left to itself, it announces nothing if an active worker has stored another
        epoch, once if the active workers have all stored e, and as often as it takes
        to find something, or four times, if there are none. */
    method Cycle(envs: seq<seq<seq<E.Action>>>) returns (ghost run: seq<Action>)
      requires Valid()
      requires forall env, e, a :: env in envs && e in env && a in e ==> a.ByWorker() && !a.Unregister?
      modifies this, ebr, epochList
      ensures Valid() && Runs(old(Model()), run, Model())
      ensures linked == old(linked) && unlinked == old(unlinked)
      ensures run != [] && run[0] == CycleStart && Sync(E.SyncLoad) in run
      ensures var e, k := old(ebr.globalEpoch), ebr.h.now - old(ebr.h.now);
              && 0 <= k <= 4 && 0 <= e < 3 && ebr.globalEpoch == (e + k) % 3
              && limbo == (if k == 0 then old(limbo) else [])
              && epochList[(e + 1) % 3] == (if k == 1 || k == 2 then old(limbo) else [])
              && epochList[(e + 2) % 3] == (if k == 0 then old(epochList[..])[(e + 2) % 3] else [])
              && epochList[e] == (if k <= 1 then old(epochList[..])[e] else [])
      ensures var e, k := old(ebr.globalEpoch), ebr.h.now - old(ebr.h.now);
              && (k >= 2 ==> old(epochList[..])[(e + 2) % 3] == [])
              && (k >= 3 ==> old(epochList[..])[e] == [])
              && (k == 4 ==> old(limbo) == [])
              && reclaimed == old(reclaimed) + (if k == 1 then old(epochList[..])[(e + 2) % 3]
                                                else if k == 2 then old(epochList[..])[e]
                                                else if k == 3 then old(limbo) else [])
      ensures envs == [] && NoneActive(old(ebr.tls)) ==> L() == QuietCycle(RETRIES, old(L()))
      ensures envs == [] ==>
                var e, k, tls := old(ebr.globalEpoch), ebr.h.now - old(ebr.h.now), old(ebr.tls);
                && ebr.tls == tls
                && (k == 0 <==> exists w :: w in tls && tls[w].word.active && tls[w].word.epoch != e)
                && ((exists w :: w in tls && tls[w].word.active) ==> k <= 1)
                && ((forall w :: w in tls ==> !tls[w].word.active) ==>
                      k == if old(epochList[..])[(e + 2) % 3] != [] then 1
                           else if old(epochList[..])[e] != [] then 2
                           else if old(limbo) != [] then 3 else 4)
    {
      hide Possible, After, Apply, Record, Enabled, Runs, Reachable, Advance, Advanced, AllHold, NoneActive;
      hide Settled, StoppedRightly, QuietCycle;
      ghost var x, l, tls := Model(), L(), ebr.tls;
      AtRest(x);
      run := Passes(envs);
      ghost var k := ebr.h.now - x.h.ebr.now;
      Explicit(l, L(), k, x.s.reclaimed, reclaimed);
      SettledNothing(l, L(), k, x.s.reclaimed, reclaimed);
      if envs == [] {
        Right(l, k, tls);
        if NoneActive(tls) { IsQuiet(l, L(), k, x.s.reclaimed, reclaimed, tls); }
      }
    }

    static lemma SettledNothing(l: Lists, r: Lists, k: int, before: seq<Object>, after: seq<Object>)
      requires Sound(l) && Settled(l, r, k, before, after)
      ensures 0 <= k <= 4 && (k > 0 ==> NothingDue(l, k - 1))
    {
    }

    /** The passes that gc_cycle() makes by jumping back to its label `next`. */
    method Passes(envs: seq<seq<seq<E.Action>>>) returns (ghost run: seq<Action>)
      requires Valid()
      requires forall env, e, a :: env in envs && e in env && a in e ==> a.ByWorker() && !a.Unregister?
      modifies this, ebr, epochList
      ensures Valid() && Runs(old(Model()), run, Model())
      ensures linked == old(linked) && unlinked == old(unlinked)
      ensures run != [] && run[0] == CycleStart && Sync(E.SyncLoad) in run
      ensures Sound(old(L())) && Settled(old(L()), L(), ebr.h.now - old(ebr.h.now), old(reclaimed), reclaimed)
      ensures envs == [] ==>
                ebr.tls == old(ebr.tls) && StoppedRightly(old(L()), ebr.h.now - old(ebr.h.now), old(ebr.tls))
    {
      hide Possible, After, Apply, Record, Enabled, Runs, Reachable, Advance, Advanced, AllHold, NoneActive;
      hide NothingDue, Settled, StoppedRightly;
      ghost var x, l, tls := Model(), L(), ebr.tls;
      AtRest(x);
      var count: nat, i: nat := RETRIES, 0;
      run := Begin();
      var done := false;
      Unmoved(l);
      while !done
        invariant epochList.Length == E.EPOCHS && ebr.Valid() && ebr.globalEpoch < E.EPOCHS && Sound(l)
        invariant Runs(x, run, Model()) && run != [] && run[0] == CycleStart
        invariant i > 0 || done ==> Sync(E.SyncLoad) in run
        invariant linked == x.s.linked && unlinked == x.s.unlinked
        invariant if done then pc == Rest else pc == Syncing(count)
        invariant count + i == RETRIES || done
        invariant !done ==> ebr.h.now == x.h.ebr.now + i && L() == Advanced(l, i) && reclaimed == x.s.reclaimed
        invariant !done ==> NothingDue(l, i)
        invariant done ==> Settled(l, L(), ebr.h.now - x.h.ebr.now, x.s.reclaimed, reclaimed)
        invariant envs == [] ==> ebr.tls == tls
        invariant envs == [] && !done && i > 0 ==> AllHold(tls, l.epoch) && (i > 1 ==> NoneActive(tls))
        invariant envs == [] && done ==> StoppedRightly(l, ebr.h.now - x.h.ebr.now, tls)
        decreases !done, count
      {
        ghost var y, q := Model(), [];
        RunsReach(x, run, y);
        done, q := Turn(count, if i < |envs| then envs[i] else []);
        RunsCat(x, run, y, q, Model());
        run := run + q;
        TurnDone(l, i, done, ebr.h.now > y.h.ebr.now, L(), x.s.reclaimed, reclaimed);
        if envs == [] { TurnRight(l, i, done, ebr.h.now > y.h.ebr.now, tls); }
        if !done { count, i := count - 1, i + 1; }
      }
      RunsReach(x, run, Model());
    }

    /** gc_full() with every worker outside its critical section: at most three
        cycles, after which everything that was waiting has been reclaimed. */
    method Full() returns (cycles: nat, ghost run: seq<Action>)
      requires Valid() && NoneActive(ebr.tls)
      modifies this, ebr, epochList
      ensures Valid() && Runs(old(Model()), run, Model())
      ensures limbo == [] && forall i :: 0 <= i < E.EPOCHS ==> epochList[i] == []
      ensures Reclaimed(old(Model()), Model())
      ensures 1 <= cycles <= 3
    {
      hide Possible, After, Apply, Record, Enabled, Runs, Reachable, Pending, QuietCycle, AllHold, NoneActive;
      hide NothingDue;
      ghost var x := Model();
      ghost var l := L();
      AtRest(x);
      NonePending(l);
      QuietCycleProgress(l);
      run := QuietPass();
      l := L();
      cycles := 1;
      while limbo != [] || epochList[0] != [] || epochList[1] != [] || epochList[2] != []
        invariant Valid() && Runs(x, run, Model()) && NoneActive(ebr.tls)
        invariant linked == x.s.linked && unlinked == x.s.unlinked
        invariant 1 <= cycles <= 3
        invariant l == L()
        invariant Pending(l) == 0 || cycles + Pending(l) <= 3
        decreases Pending(l)
      {
        ghost var y := Model();
        AtRest(y);
        QuietCycleProgress(l);
        var q := QuietPass();
        RunsCat(x, run, y, q, Model());
        run := run + q;
        cycles := cycles + 1;
        NonePending(l);
        l := L();
      }
      AllReclaimed(x, run, Model());
    }

    method QuietPass() returns (ghost run: seq<Action>)
      requires Valid() && NoneActive(ebr.tls)
      modifies this, ebr, epochList
      ensures Valid() && Runs(old(Model()), run, Model())
      ensures linked == old(linked) && unlinked == old(unlinked) && ebr.tls == old(ebr.tls)
      ensures Sound(old(L())) && L() == QuietCycle(RETRIES, old(L()))
    {
      hide Possible, After, Apply, Record, Enabled, Runs, Reachable, QuietCycle, AllHold, NoneActive;
      AtRest(Model());
      run := Cycle([]);
    }

    static lemma AtRest(y: Recorded)
      requires Reachable(y) && y.s.pc.Rest?
      ensures |y.s.lists| == E.EPOCHS && y.s.ebr.epoch < E.EPOCHS && y.s.lists[E.GcEpoch(y.s.ebr)] == []
    {
      hide Reachable, Ages, InGrace, RefsHeld, Everything;
      ReachInv(y);
      assert Window(y, E.GcEpoch(y.s.ebr));
      SomeMember(y.s.lists[E.GcEpoch(y.s.ebr)]);
    }

    static lemma AllReclaimed(x: Recorded, run: seq<Action>, y: Recorded)
      requires Reachable(x) && Runs(x, run, y) && x.s.pc.Rest? && y.s.pc.Rest?
      requires y.s.linked == x.s.linked && y.s.unlinked == x.s.unlinked
      requires |y.s.lists| == E.EPOCHS && |x.s.lists| == E.EPOCHS
      requires y.s.limbo == [] && y.s.lists[0] == y.s.lists[1] == y.s.lists[2] == []
      ensures Reclaimed(x, y)
    {
      ReachInv(x);
      RunsConserve(x, run, y);
      var rest := multiset(x.s.linked) + multiset(x.s.unlinked);
      assert Everything(y.s) == rest + multiset(y.s.reclaimed);
      assert Everything(x.s) == rest + (multiset(x.s.reclaimed) + multiset(x.s.limbo) + Staged(x.s));
      assert multiset(y.s.reclaimed) == Everything(y.s) - rest;
    }
  }
}
