/** The garbage collector of src/gc.c on top of the epoch protocol, together with
    the client that unlinks objects and holds references to them.

    The collector's steps are the atomic steps of gc_cycle(): those of ebr_sync(),
    the exchange that drains limbo, the look at the G/C list, and the reclaiming
    of its objects one by one.  Client steps interleave with all of them. */
module Gc {
  import E = Ebr

  const RETRIES := 3

  type Object = nat

  /** The program counter of gc_cycle(); `count` is its retry counter. */
  datatype Pc =
    | Rest
    | Syncing(count: nat)
    | Announced(count: nat)
    | Drained(count: nat)
    | Reclaiming(list: nat, rest: seq<Object>)

  /** linked: reachable from the shared structure.  unlinked: taken out of it by
      some thread that has yet to call gc_limbo().  refs: what each worker has
      loaded from the structure in its present critical section. */
  datatype State = State(
    ebr: E.State,
    pc: Pc,
    limbo: seq<Object>,
    lists: seq<seq<Object>>,
    linked: set<Object>,
    unlinked: set<Object>,
    reclaimed: seq<Object>,
    refs: map<E.Worker, set<Object>>)

  datatype Action =
    | Work(a: E.Action)
    | Link(o: Object)
    | Unlink(o: Object)
    | ToLimbo(o: Object)
    | Acquire(w: E.Worker, o: Object)
    | CycleStart
    | Sync(a: E.Action)
    | Drain
    | Decide
    | Reclaim
    | Finish

  const INITIAL := State(E.INITIAL, Rest, [], [[], [], []], {}, {}, [], map[])

  function Refs(s: State, w: E.Worker): set<Object> { if w in s.refs then s.refs[w] else {} }

  /** The part of list i that the collector has not handed to the reclaim function. */
  function Waiting(s: State, i: nat): seq<Object>
    requires |s.lists| == E.EPOCHS && i < E.EPOCHS
  {
    if s.pc.Reclaiming? && s.pc.list == i then s.pc.rest else s.lists[i]
  }

  /** Every object with its multiplicity over all the places it can be in. */
  function Everything(s: State): multiset<Object>
    requires |s.lists| == E.EPOCHS
  {
    Outside(s) + Staged(s) + multiset(s.reclaimed)
  }

  function Outside(s: State): multiset<Object> { InClientHands(s) + multiset(s.limbo) }

  function InClientHands(s: State): multiset<Object> { multiset(s.linked) + multiset(s.unlinked) }

  function Staged(s: State): multiset<Object>
    requires |s.lists| == E.EPOCHS
  {
    multiset(Waiting(s, 0)) + multiset(Waiting(s, 1)) + multiset(Waiting(s, 2))
  }

  predicate Enabled(s: State, a: Action) {
    && |s.lists| == E.EPOCHS
    && s.ebr.epoch < E.EPOCHS
    && match a
       case Work(b) => b.ByWorker() && E.Enabled(s.ebr, b)
       case Link(o) => o !in Everything(s)
       case Unlink(o) => o in s.linked
       case ToLimbo(o) => o in s.unlinked
       case Acquire(w, o) => E.Active(s.ebr, w) && o in s.linked
       case CycleStart => s.pc.Rest?
       case Sync(b) => s.pc.Syncing? && !b.ByWorker() && E.Enabled(s.ebr, b)
       case Drain => s.pc.Announced?
       case Decide => s.pc.Drained?
       case Reclaim => s.pc.Reclaiming? && s.pc.rest != []
       case Finish => s.pc.Reclaiming? && s.pc.rest == [] && s.pc.list < E.EPOCHS
  }

  /** ebr_sync() returned: with a new epoch, or (the scan gave up) without. */
  function AfterSync(pc: Pc, a: E.Action, next: E.State): Pc
    requires pc.Syncing?
  {
    if a.SyncAnnounce? then Announced(pc.count)
    else if a.SyncVisit? && next.sync.Quiet? then Rest
    else pc
  }

  function Apply(s: State, a: Action): State
    requires Enabled(s, a)
  {
    match a
    case Work(b) =>
      s.(ebr := E.Apply(s.ebr, b), refs := if b.Exit? then s.refs[b.w := {}] else s.refs)
    case Link(o) => s.(linked := s.linked + {o})
    case Unlink(o) => s.(linked := s.linked - {o}, unlinked := s.unlinked + {o})
    case ToLimbo(o) => s.(unlinked := s.unlinked - {o}, limbo := [o] + s.limbo)
    case Acquire(w, o) => s.(refs := s.refs[w := Refs(s, w) + {o}])
    case CycleStart => s.(pc := Syncing(RETRIES))
    case Sync(b) =>
      var next := E.Apply(s.ebr, b);
      s.(ebr := next, pc := AfterSync(s.pc, b, next))
    case Drain => s.(lists := s.lists[s.ebr.epoch := s.limbo], limbo := [], pc := Drained(s.pc.count))
    case Decide =>
      var g := E.GcEpoch(s.ebr);
      if s.lists[g] == [] && s.pc.count > 0 then s.(pc := Syncing(s.pc.count - 1))
      else s.(pc := Reclaiming(g, s.lists[g]))
    case Reclaim => s.(reclaimed := s.reclaimed + [s.pc.rest[0]], pc := s.pc.(rest := s.pc.rest[1..]))
    case Finish => s.(lists := s.lists[s.pc.list := []], pc := Rest)
  }

  // ---------------------------------------------------------------- history

  /** drained: the unbounded epoch in which an object left limbo for an epoch list.
      witnesses: for an unlinked object, the critical sections (worker and section
      number) that were running when it was unlinked. */
  datatype History = History(
    ebr: E.History,
    drained: map<Object, nat>,
    witnesses: map<Object, map<E.Worker, nat>>)

  datatype Recorded = Recorded(s: State, h: History) {
    function Ebr(): E.Recorded { E.Recorded(s.ebr, h.ebr) }
  }

  const START := Recorded(INITIAL, History(E.UNBORN, map[], map[]))

  function ActiveSections(x: E.Recorded): map<E.Worker, nat> {
    map w | w in x.s.tls && x.s.tls[w].word.active :: E.Entered(x.h, w)
  }

  function Record(h: History, s: State, a: Action): History
    requires Enabled(s, a)
  {
    match a
    case Work(b) => h.(ebr := E.Record(h.ebr, s.ebr, b))
    case Sync(b) => h.(ebr := E.Record(h.ebr, s.ebr, b))
    case Unlink(o) => h.(witnesses := h.witnesses[o := ActiveSections(E.Recorded(s.ebr, h.ebr))])
    case Drain => h.(drained := h.drained + map o | o in s.limbo :: h.ebr.now)
    case _ => h
  }

  function Step(x: Recorded, a: Action): Recorded
    requires Enabled(x.s, a)
  {
    Recorded(Apply(x.s, a), Record(x.h, x.s, a))
  }

  predicate Possible(x: Recorded, run: seq<Action>)
    decreases run
  {
    run == [] || (Enabled(x.s, run[0]) && Possible(Step(x, run[0]), run[1..]))
  }

  function After(x: Recorded, run: seq<Action>): Recorded
    requires Possible(x, run)
    decreases run
  {
    if run == [] then x else After(Step(x, run[0]), run[1..])
  }

  // -------------------------------------------------------------- invariants

  /** A critical section that was running when o was unlinked, and still is. */
  predicate Holds(x: Recorded, w: E.Worker, o: Object) {
    && E.Active(x.s.ebr, w)
    && o in x.h.witnesses && w in x.h.witnesses[o]
    && x.h.witnesses[o][w] == E.Entered(x.h.ebr, w)
  }

  ghost predicate Once(m: multiset<Object>) { forall o :: m[o] <= 1 }

  /** The oldest epoch whose objects may still be staged at this point of gc_cycle(). */
  function Age(pc: Pc): nat { if pc.Rest? || pc.Syncing? then 1 else 2 }

  /** What list i may contain: only objects drained in epochs congruent to i and
      no older than gc_cycle() has already reclaimed. */
  ghost predicate Window(x: Recorded, i: nat)
    requires |x.s.lists| == E.EPOCHS && i < E.EPOCHS
  {
    forall o :: o in x.s.lists[i] ==>
      && o in x.h.drained
      && x.h.drained[o] % E.EPOCHS == i
      && x.h.drained[o] <= x.h.ebr.now <= x.h.drained[o] + Age(x.s.pc)
      && (x.s.pc.Announced? ==> x.h.drained[o] < x.h.ebr.now)
  }

  ghost predicate PcShape(x: Recorded) {
    && |x.s.lists| == E.EPOCHS
    && (!x.s.pc.Syncing? ==> x.s.ebr.sync.Quiet?)
    && (x.s.pc.Reclaiming? ==>
          && x.s.pc.list == E.GcEpoch(x.s.ebr)
          && forall o :: o in x.s.pc.rest ==> o in x.s.lists[x.s.pc.list])
  }

  /** Whoever is drained has left the client's hands, and whoever is reclaimed was
      drained at least two epochs ago. */
  predicate Placed(x: Recorded, o: Object)
    requires |x.s.lists| == E.EPOCHS
  {
    && (o in x.h.drained ==> o !in x.s.linked && o !in x.s.unlinked && o !in x.s.limbo)
    && (o in x.s.reclaimed ==> o in x.h.drained && x.h.ebr.now >= x.h.drained[o] + 2)
    && (o in x.s.lists[0] || o in x.s.lists[1] || o in x.s.lists[2] ==> o in x.h.drained)
    && (o in x.s.unlinked || o in x.s.limbo || o in x.h.drained ==> o in x.h.witnesses)
  }

  ghost predicate Ages(x: Recorded)
    requires |x.s.lists| == E.EPOCHS
  {
    && (forall o :: Placed(x, o))
    && (forall o :: o in x.h.drained ==> o in Everything(x.s))
    && (forall o, w :: o in x.h.witnesses && w in x.h.witnesses[o] ==>
          x.h.witnesses[o][w] <= E.Entered(x.h.ebr, w))
  }

  predicate Graced(x: Recorded, w: E.Worker, o: Object) {
    Holds(x, w, o) && o in x.h.drained ==> E.Grace(x.Ebr(), x.h.drained[o], w)
  }

  ghost predicate InGrace(x: Recorded) { forall w, o :: Graced(x, w, o) }

  /** References come from the structure, so whoever holds one to an object that
      is no longer linked was there when it was unlinked. */
  predicate RefHeld(x: Recorded, w: E.Worker, o: Object) {
    o in Refs(x.s, w) ==> E.Active(x.s.ebr, w) && (o in x.s.linked || Holds(x, w, o))
  }

  ghost predicate RefsHeld(x: Recorded) { forall w, o :: RefHeld(x, w, o) }

  ghost predicate Inv(x: Recorded) {
    && E.Inv(x.Ebr())
    && PcShape(x)
    && Once(Everything(x.s))
    && (forall i :: 0 <= i < E.EPOCHS ==> Window(x, i))
    && Ages(x)
    && InGrace(x)
    && RefsHeld(x)
  }

  // ------------------------------------------------------------ preservation

  lemma ClientConserves(s: State, a: Action)
    requires Enabled(s, a) && Once(Everything(s)) && (a.Link? || a.Unlink? || a.ToLimbo?)
    ensures Everything(Apply(s, a)) == Everything(s) + (if a.Link? then multiset{a.o} else multiset{})
  {
    hide Outside, Once;
    var t := Apply(s, a);
    assert Staged(t) == Staged(s) && t.reclaimed == s.reclaimed;
    OutsideConserves(s, t, a);
  }

  lemma OutsideConserves(s: State, t: State, a: Action)
    requires Enabled(s, a) && Once(Everything(s)) && (a.Link? || a.Unlink? || a.ToLimbo?)
    requires t == Apply(s, a)
    ensures Outside(t) == Outside(s) + (if a.Link? then multiset{a.o} else multiset{})
  {
    hide Everything, InClientHands;
    ClientHandsStep(s, a);
    if a.ToLimbo? { assert multiset(t.limbo) == multiset{a.o} + multiset(s.limbo); }
  }

  lemma InHandsOnce(s: State, o: Object)
    requires |s.lists| == E.EPOCHS && Once(Everything(s))
    ensures InClientHands(s)[o] <= 1 && (o in s.linked ==> o !in s.unlinked)
  {
    hide Staged;
    assert Everything(s)[o] <= 1;
  }

  lemma NotInHands(s: State, o: Object)
    requires |s.lists| == E.EPOCHS && o !in Everything(s)
    ensures o !in s.linked && o !in s.unlinked
  {
    hide Staged;
    assert Everything(s)[o] == 0;
  }

  /** Who leaves the client's hands, and who comes into them. */
  lemma ClientHandsStep(s: State, a: Action)
    requires Enabled(s, a) && Once(Everything(s))
    ensures var t := Apply(s, a);
            match a
            case Link(o) => InClientHands(t) == InClientHands(s) + multiset{o}
            case ToLimbo(o) => InClientHands(s) == InClientHands(t) + multiset{o}
            case _ => InClientHands(t) == InClientHands(s)
  {
    hide Everything, Outside, Once, Staged;
    if a.Link? || a.Unlink? || a.ToLimbo? { InHandsOnce(s, a.o); }
    match a
    case Link(o) =>
      NotInHands(s, o);
      OneAdded(s.linked, o);
    case Unlink(o) =>
      OneRemoved(s.linked, o);
      OneAdded(s.unlinked, o);
    case ToLimbo(o) => OneRemoved(s.unlinked, o);
    case _ =>
  }

  lemma OneAdded(s: set<Object>, o: Object)
    requires o !in s
    ensures multiset(s + {o}) == multiset(s) + multiset{o}
  {
  }

  lemma OneRemoved(s: set<Object>, o: Object)
    requires o in s
    ensures multiset(s) == multiset(s - {o}) + multiset{o}
  {
    assert s == (s - {o}) + {o};
  }

  lemma DrainConserves(s: State)
    requires Enabled(s, Drain) && s.lists[s.ebr.epoch] == []
    ensures Everything(Apply(s, Drain)) == Everything(s)
  {
    var t := Apply(s, Drain);
    assert forall i | 0 <= i < E.EPOCHS && i != s.ebr.epoch :: Waiting(t, i) == Waiting(s, i);
    assert Waiting(t, s.ebr.epoch) == s.limbo && Waiting(s, s.ebr.epoch) == [];
  }

  lemma ReclaimConserves(s: State)
    requires Enabled(s, Reclaim) && s.pc.list < E.EPOCHS
    ensures Everything(Apply(s, Reclaim)) == Everything(s)
  {
    var t := Apply(s, Reclaim);
    var o, g := s.pc.rest[0], s.pc.list;
    assert s.pc.rest == [o] + t.pc.rest;
    assert forall i | 0 <= i < E.EPOCHS && i != g :: Waiting(t, i) == Waiting(s, i);
    assert multiset(Waiting(s, g)) == multiset{o} + multiset(Waiting(t, g));
    assert multiset(t.reclaimed) == multiset(s.reclaimed) + multiset{o};
  }

  lemma OtherConserves(s: State, a: Action)
    requires Enabled(s, a) && (a.Work? || a.Acquire? || a.CycleStart? || a.Sync? || a.Decide? || a.Finish?)
    ensures |Apply(s, a).lists| == E.EPOCHS && Everything(Apply(s, a)) == Everything(s)
  {
    var t := Apply(s, a);
    assert forall i | 0 <= i < E.EPOCHS :: Waiting(t, i) == Waiting(s, i);
  }

  /** Conservation: every step but Link keeps every object in exactly as many
      places as before, in particular moves none into thin air and copies none. */
  lemma EverythingStep(x: Recorded, a: Action)
    requires Inv(x) && Enabled(x.s, a)
    ensures |Apply(x.s, a).lists| == E.EPOCHS
    ensures Everything(Apply(x.s, a)) == Everything(x.s) + (if a.Link? then multiset{a.o} else multiset{})
  {
    if a.Link? || a.Unlink? || a.ToLimbo? {
      ClientConserves(x.s, a);
    } else if a.Drain? {
      StagingIsEmpty(x);
      DrainConserves(x.s);
    } else if a.Reclaim? {
      ReclaimConserves(x.s);
    } else {
      OtherConserves(x.s, a);
    }
  }

  /** The assertion at src/gc.c:155: nothing is left in the list limbo is drained into. */
  lemma StagingIsEmpty(x: Recorded)
    requires Inv(x) && x.s.pc.Announced?
    ensures x.s.lists[x.s.ebr.epoch] == []
  {
    var i := x.s.ebr.epoch;
    Staging(x, i);
  }

  lemma Staging(x: Recorded, i: nat)
    requires |x.s.lists| == E.EPOCHS && i < E.EPOCHS && x.s.pc.Announced? && i == x.h.ebr.now % E.EPOCHS
    requires Window(x, i)
    ensures x.s.lists[i] == []
  {
    SomeMember(x.s.lists[i]);
  }

  lemma SomeMember(list: seq<Object>)
    ensures list == [] || exists o :: o in list
  {
    if list != [] { assert list[0] in list; }
  }

  lemma PcShapeStep(x: Recorded, a: Action)
    requires PcShape(x) && E.Shape(x.s.ebr) && Enabled(x.s, a)
    ensures PcShape(Step(x, a))
  {
  }

  lemma WindowStep(x: Recorded, a: Action, i: nat)
    requires Inv(x) && Enabled(x.s, a) && i < E.EPOCHS
    ensures |Step(x, a).s.lists| == E.EPOCHS && Window(Step(x, a), i)
  {
    assert Window(x, i);
    match a
    case Drain => DrainWindow(x, i);
    case Decide => CloseWindow(x, a, i);
    case Finish => CloseWindow(x, a, i);
    case _ => KeepWindow(x, a, i);
  }

  lemma KeepWindow(x: Recorded, a: Action, i: nat)
    requires |x.s.lists| == E.EPOCHS && i < E.EPOCHS && Window(x, i) && Enabled(x.s, a)
    requires !a.Drain? && !a.Decide? && !a.Finish?
    ensures Window(Step(x, a), i)
  {
    assert Step(x, a).s.lists == x.s.lists && Step(x, a).h.drained == x.h.drained;
  }

  lemma DrainWindow(x: Recorded, i: nat)
    requires |x.s.lists| == E.EPOCHS && i < E.EPOCHS && Window(x, i) && Enabled(x.s, Drain)
    requires Once(Everything(x.s)) && x.s.ebr.epoch == x.h.ebr.now % E.EPOCHS
    ensures Window(Step(x, Drain), i)
  {
    var y := Step(x, Drain);
    forall o | o in y.s.lists[i]
      ensures o in y.h.drained && y.h.drained[o] % E.EPOCHS == i
      ensures y.h.drained[o] <= y.h.ebr.now <= y.h.drained[o] + 2
    {
      if i == x.s.ebr.epoch {
        assert o in x.s.limbo && y.h.drained[o] == x.h.ebr.now;
      } else {
        assert o in x.s.lists[i];
        InOnePlace(x.s, o, i);
      }
    }
  }

  /** With the oldest list empty, what remains is at most one epoch old. */
  lemma CloseWindow(x: Recorded, a: Action, i: nat)
    requires PcShape(x) && i < E.EPOCHS && Window(x, i) && Enabled(x.s, a)
    requires a.Decide? || a.Finish?
    requires x.s.ebr.epoch == x.h.ebr.now % E.EPOCHS
    ensures |Step(x, a).s.lists| == E.EPOCHS && Window(Step(x, a), i)
  {
    var y, g := Step(x, a), E.GcEpoch(x.s.ebr);
    forall o | o in y.s.lists[i] && !y.s.pc.Reclaiming?
      ensures y.h.ebr.now <= y.h.drained[o] + 1
    {
      assert o in x.s.lists[i] && i != g;
    }
  }

  lemma InOnePlace(s: State, o: Object, i: nat)
    requires |s.lists| == E.EPOCHS && i < E.EPOCHS && !s.pc.Reclaiming?
    requires o in s.lists[i] && Once(Everything(s))
    ensures o !in s.limbo && o !in s.linked && o !in s.unlinked && o !in s.reclaimed
  {
    assert multiset(Waiting(s, i))[o] >= 1;
    assert Everything(s)[o] <= 1;
  }

  lemma WitnessesStep(x: Recorded, a: Action)
    requires |x.s.lists| == E.EPOCHS && Ages(x) && Enabled(x.s, a)
    ensures var y := Step(x, a);
            forall o, w :: o in y.h.witnesses && w in y.h.witnesses[o] ==>
              y.h.witnesses[o][w] <= E.Entered(y.h.ebr, w)
  {
    var y := Step(x, a);
    forall o, w | o in y.h.witnesses && w in y.h.witnesses[o]
      ensures y.h.witnesses[o][w] <= E.Entered(y.h.ebr, w)
    {
      assert E.Entered(y.h.ebr, w) >= E.Entered(x.h.ebr, w);
      if !(a.Unlink? && a.o == o) {
        assert y.h.witnesses[o] == x.h.witnesses[o];
      }
    }
  }

  lemma AgesStep(x: Recorded, a: Action)
    requires Inv(x) && Enabled(x.s, a)
    ensures |Step(x, a).s.lists| == E.EPOCHS && Ages(Step(x, a))
  {
    EverythingStep(x, a);
    WitnessesStep(x, a);
    forall o ensures Placed(Step(x, a), o) {
      assert Placed(x, o) && Everything(x.s)[o] <= 1;
      if a.Link? || a.Unlink? || a.ToLimbo? {
        assert a.Link? ==> a.o !in x.h.drained;
        PlacedClient(x, a, o);
      } else if a.Drain? {
        PlacedDrain(x, o);
      } else {
        if a.Reclaim? && o == x.s.pc.rest[0] { TwoEpochsOld(x, o); }
        PlacedOther(x, a, o);
      }
    }
  }

  lemma PlacedClient(x: Recorded, a: Action, o: Object)
    requires |x.s.lists| == E.EPOCHS && Placed(x, o) && Enabled(x.s, a)
    requires a.Link? || a.Unlink? || a.ToLimbo?
    requires a.Link? ==> a.o !in x.h.drained
    ensures Placed(Step(x, a), o)
  {
    var y := Step(x, a);
    assert y.s.lists == x.s.lists && y.s.reclaimed == x.s.reclaimed && y.h.drained == x.h.drained;
  }

  lemma PlacedDrain(x: Recorded, o: Object)
    requires |x.s.lists| == E.EPOCHS && Placed(x, o) && Enabled(x.s, Drain)
    requires Everything(x.s)[o] <= 1
    ensures Placed(Step(x, Drain), o)
  {
    var y := Step(x, Drain);
    assert y.s.linked == x.s.linked && y.s.unlinked == x.s.unlinked && y.s.reclaimed == x.s.reclaimed;
    if o in x.s.limbo {
      assert multiset(x.s.limbo)[o] >= 1;
      assert multiset(x.s.linked)[o] == multiset(x.s.unlinked)[o] == multiset(x.s.reclaimed)[o] == 0;
    }
  }

  lemma PlacedOther(x: Recorded, a: Action, o: Object)
    requires |x.s.lists| == E.EPOCHS && Placed(x, o) && Enabled(x.s, a)
    requires !a.Link? && !a.Unlink? && !a.ToLimbo? && !a.Drain?
    requires a.Reclaim? && o == x.s.pc.rest[0] ==> o in x.h.drained && x.h.ebr.now >= x.h.drained[o] + 2
    ensures |Step(x, a).s.lists| == E.EPOCHS && Placed(Step(x, a), o)
  {
    var y := Step(x, a);
    assert y.h.drained == x.h.drained && y.h.witnesses == x.h.witnesses && y.h.ebr.now >= x.h.ebr.now;
    assert y.s.linked == x.s.linked && y.s.unlinked == x.s.unlinked && y.s.limbo == x.s.limbo;
  }

  /** What gc_cycle() is about to reclaim left limbo exactly two announcements ago. */
  lemma TwoEpochsOld(x: Recorded, o: Object)
    requires PcShape(x) && x.s.pc.Reclaiming? && o in x.s.pc.rest
    requires forall i :: 0 <= i < E.EPOCHS ==> Window(x, i)
    requires x.s.ebr.epoch == x.h.ebr.now % E.EPOCHS
    ensures o in x.h.drained && x.h.ebr.now == x.h.drained[o] + 2
  {
    assert Window(x, x.s.pc.list);
    assert o in x.s.lists[x.s.pc.list];
  }

  /** No step makes a critical section hold an object that it did not hold before,
      except the step that unlinks the object. */
  lemma HoldsBack(x: Recorded, a: Action, w: E.Worker, o: Object)
    requires |x.s.lists| == E.EPOCHS && Ages(x) && E.Shape(x.s.ebr) && Enabled(x.s, a)
    requires Holds(Step(x, a), w, o) && a != Unlink(o)
    ensures Holds(x, w, o)
  {
    var y := Step(x, a);
    assert y.h.witnesses[o] == x.h.witnesses[o];
    assert a != Work(E.Publish(w));
  }

  lemma InGraceStep(x: Recorded, a: Action)
    requires Inv(x) && Enabled(x.s, a)
    ensures InGrace(Step(x, a))
  {
    var y := Step(x, a);
    forall w, o | Holds(y, w, o) && o in y.h.drained
      ensures Graced(y, w, o)
    {
      assert Placed(x, o);
      HoldsBack(x, a, w, o);
      assert Graced(x, w, o);
      if a.Work? || a.Sync? {
        assert y.Ebr() == E.Step(x.Ebr(), a.a);
        E.GraceStep(x.Ebr(), a.a, x.h.drained[o], w);
      }
    }
  }

  lemma RefsHeldStep(x: Recorded, a: Action)
    requires E.Shape(x.s.ebr) && RefsHeld(x) && Enabled(x.s, a)
    ensures RefsHeld(Step(x, a))
  {
    forall w, o ensures RefHeld(Step(x, a), w, o) {
      assert RefHeld(x, w, o);
      if o in Refs(Step(x, a).s, w) && a != Acquire(w, o) {
        RefKept(x, a, w, o);
      }
    }
  }

  lemma RefKept(x: Recorded, a: Action, w: E.Worker, o: Object)
    requires E.Shape(x.s.ebr) && Enabled(x.s, a) && a != Work(E.Exit(w))
    requires E.Active(x.s.ebr, w) && (o in x.s.linked || Holds(x, w, o))
    ensures var y := Step(x, a); E.Active(y.s.ebr, w) && (o in y.s.linked || Holds(y, w, o))
  {
    var y := Step(x, a);
    assert E.Active(y.s.ebr, w) && E.Entered(y.h.ebr, w) == E.Entered(x.h.ebr, w);
  }

  lemma InvStep(x: Recorded, a: Action)
    requires Inv(x) && Enabled(x.s, a)
    ensures Inv(Step(x, a))
  {
    var y := Step(x, a);
    if a.Work? || a.Sync? {
      assert y.Ebr() == E.Step(x.Ebr(), a.a);
      E.InvStep(x.Ebr(), a.a);
    } else {
      assert y.Ebr() == x.Ebr();
    }
    PcShapeStep(x, a);
    EverythingStep(x, a);
    AgesStep(x, a);
    InGraceStep(x, a);
    RefsHeldStep(x, a);
    forall i | 0 <= i < E.EPOCHS ensures Window(y, i) { WindowStep(x, a, i); }
    OnceStep(x.s, a);
  }

  lemma OnceStep(s: State, a: Action)
    requires Enabled(s, a) && |Apply(s, a).lists| == E.EPOCHS && Once(Everything(s))
    requires Everything(Apply(s, a)) == Everything(s) + (if a.Link? then multiset{a.o} else multiset{})
    ensures Once(Everything(Apply(s, a)))
  {
  }

  // ----------------------------------------------------------------- theorems

  ghost predicate Reachable(x: Recorded) {
    exists run :: Possible(START, run) && After(START, run) == x
  }

  lemma {:induction false} InvRun(x: Recorded, run: seq<Action>)
    requires Inv(x) && Possible(x, run)
    ensures Inv(After(x, run))
    decreases run
  {
    if run != [] {
      InvStep(x, run[0]);
      InvRun(Step(x, run[0]), run[1..]);
    }
  }

  lemma StartInv()
    ensures Inv(START)
  {
    assert Everything(INITIAL) == multiset{};
  }

  lemma ReachInv(x: Recorded)
    requires Reachable(x)
    ensures Inv(x)
  {
    var run :| Possible(START, run) && After(START, run) == x;
    StartInv();
    InvRun(START, run);
  }

  /** Use-after-free freedom: in every interleaving, no worker holds a reference
      to a reclaimed object. */
  lemma NoUseAfterFree(x: Recorded, w: E.Worker, o: Object)
    requires Reachable(x) && o in Refs(x.s, w)
    ensures o !in x.s.reclaimed
  {
    ReachInv(x);
    assert RefHeld(x, w, o) && Placed(x, o) && Graced(x, w, o);
  }

  /** The client may at any time link an object that is nowhere, unlink and hand over
      what is there, and load references inside a critical section. */
  lemma ClientFreedom(x: Recorded, w: E.Worker, o: Object)
    requires Reachable(x)
    ensures |x.s.lists| == E.EPOCHS
    ensures o !in Everything(x.s) ==> Enabled(x.s, Link(o)) && Step(x, Link(o)).s.linked == x.s.linked + {o}
    ensures o in x.s.linked ==>
              && Enabled(x.s, Unlink(o)) && Step(x, Unlink(o)).s.linked == x.s.linked - {o}
              && Step(x, Unlink(o)).s.unlinked == x.s.unlinked + {o}
    ensures o in x.s.unlinked ==> Enabled(x.s, ToLimbo(o)) && Step(x, ToLimbo(o)).s.limbo == [o] + x.s.limbo
    ensures w in x.s.ebr.tls && x.s.ebr.tls[w].word.active && o in x.s.linked ==>
              Enabled(x.s, Acquire(w, o)) && Refs(Step(x, Acquire(w, o)).s, w) == Refs(x.s, w) + {o}
    ensures w in x.s.ebr.tls && x.s.ebr.tls[w].phase.Outside? ==> Enabled(x.s, Work(E.Observe(w)))
  {
    hide Everything;
    ReachInv(x);
  }

  /** A worker loses its references only by leaving its critical section. */
  lemma RefsStay(x: Recorded, a: Action, w: E.Worker)
    requires Enabled(x.s, a)
    ensures a != Work(E.Exit(w)) ==> Refs(x.s, w) <= Refs(Step(x, a).s, w)
    ensures forall o :: o in Refs(Step(x, a).s, w) ==> a != Work(E.Exit(w)) && (o in Refs(x.s, w) || a == Acquire(w, o))
  {
  }

  /** The grace period: once an object is reclaimed, every critical section that
      was running when it was unlinked has ended. */
  lemma GracePeriod(x: Recorded, w: E.Worker, o: Object)
    requires Reachable(x) && o in x.s.reclaimed
    requires o in x.h.witnesses && w in x.h.witnesses[o]
    ensures E.Active(x.s.ebr, w) ==> E.Entered(x.h.ebr, w) > x.h.witnesses[o][w]
  {
    ReachInv(x);
    assert Placed(x, o) && Ages(x);
    assert Graced(x, w, o);
  }

  /** Every object is in at most one place, and at most once: it cannot be both
      waiting and reclaimed, and cannot be reclaimed twice. */
  lemma OnePlace(x: Recorded, o: Object)
    requires Reachable(x) && |x.s.lists| == E.EPOCHS
    ensures Everything(x.s)[o] <= 1
    ensures multiset(x.s.reclaimed)[o] <= 1
    ensures o in x.s.reclaimed ==> o !in x.s.limbo && forall i :: 0 <= i < E.EPOCHS ==> o !in Waiting(x.s, i)
  {
    ReachInv(x);
    assert Everything(x.s)[o] <= 1;
    if o in x.s.reclaimed {
      assert multiset(x.s.reclaimed)[o] >= 1;
      forall i | 0 <= i < E.EPOCHS ensures o !in Waiting(x.s, i) {
        assert multiset(Waiting(x.s, i))[o] == 0;
      }
    }
  }

  /** The list limbo is drained into is empty, so draining overwrites nothing. */
  lemma NothingOverwritten(x: Recorded)
    requires Reachable(x) && Enabled(x.s, Drain)
    ensures x.s.lists[x.s.ebr.epoch] == []
    ensures Everything(Apply(x.s, Drain)) == Everything(x.s)
  {
    ReachInv(x);
    StagingIsEmpty(x);
    EverythingStep(x, Drain);
  }

  /** No object is lost on any run: whatever was linked is somewhere, for ever. */
  lemma {:induction false} NothingLost(x: Recorded, run: seq<Action>)
    requires Inv(x) && Possible(x, run)
    ensures |After(x, run).s.lists| == E.EPOCHS
    ensures Everything(x.s) <= Everything(After(x, run).s)
    decreases run
  {
    hide Apply, Record, Enabled, Everything, Once, Ages, InGrace, RefsHeld;
    if run != [] {
      EverythingStep(x, run[0]);
      InvStep(x, run[0]);
      NothingLost(Step(x, run[0]), run[1..]);
    }
  }

  // ------------------------------------------- what has been handed to gc_limbo()

  /** Limbo, the epoch lists and the reclaimed objects: everything that gc_limbo()
      has ever been given. */
  function Handed(s: State): multiset<Object>
    requires |s.lists| == E.EPOCHS
  {
    multiset(s.limbo) + Staged(s) + multiset(s.reclaimed)
  }

  lemma HandedIs(s: State)
    requires |s.lists| == E.EPOCHS
    ensures Handed(s) == Everything(s) - InClientHands(s) && Everything(s) == InClientHands(s) + Handed(s)
  {
    hide Staged;
    assert Everything(s) == InClientHands(s) + Handed(s);
  }

  /** Only gc_limbo() adds to it, and nothing takes away from it: an object handed
      over never gets back into the structure or into a client's hands. */
  lemma HandedStep(x: Recorded, a: Action)
    requires Inv(x) && Enabled(x.s, a)
    ensures |Apply(x.s, a).lists| == E.EPOCHS
    ensures Handed(Apply(x.s, a)) == Handed(x.s) + (if a.ToLimbo? then multiset{a.o} else multiset{})
  {
    hide Everything, Handed, InClientHands, Staged, Ages, InGrace, RefsHeld;
    EverythingStep(x, a);
    HandedIs(x.s);
    HandedIs(Apply(x.s, a));
    ClientHandsStep(x.s, a);
    Cancel(InClientHands(x.s), Handed(x.s), InClientHands(Apply(x.s, a)), Handed(Apply(x.s, a)), a);
  }

  lemma Cancel(c: multiset<Object>, h: multiset<Object>, c': multiset<Object>, h': multiset<Object>, a: Action)
    requires c' + h' == c + h + (if a.Link? then multiset{a.o} else multiset{})
    requires match a case Link(o) => c' == c + multiset{o} case ToLimbo(o) => c == c' + multiset{o} case _ => c' == c
    ensures h' == h + (if a.ToLimbo? then multiset{a.o} else multiset{})
  {
    forall o ensures h'[o] == (h + (if a.ToLimbo? then multiset{a.o} else multiset{}))[o] {
      assert (c' + h')[o] == (c + h + (if a.Link? then multiset{a.o} else multiset{}))[o];
    }
  }

  lemma HandedOnce(x: Recorded, o: Object)
    requires Inv(x)
    ensures Handed(x.s)[o] <= 1
  {
    HandedIs(x.s);
    assert Everything(x.s)[o] <= 1;
  }

  /** Conservation of what was handed over: on every run each such object stays in
      limbo, the lists and the reclaimed set, with multiplicity one. */
  lemma {:induction false} HandedRun(x: Recorded, run: seq<Action>, o: Object)
    requires Inv(x) && Possible(x, run) && o in Handed(x.s)
    ensures |After(x, run).s.lists| == E.EPOCHS && Handed(After(x, run).s)[o] == 1
    decreases run
  {
    hide Apply, Record, Enabled, Everything, Handed, Once, Ages, InGrace, RefsHeld;
    if run == [] {
      HandedOnce(x, o);
    } else {
      InvStep(x, run[0]);
      HandedStep(x, run[0]);
      HandedRun(Step(x, run[0]), run[1..], o);
    }
  }

  function Count(b: bool): nat { if b then 1 else 0 }

  /** ... that is, in exactly one of limbo, the three epoch lists and the reclaimed
      set, once, and out of the structure and the client's hands. */
  lemma ExactlyOnePlace(x: Recorded, run: seq<Action>, o: Object)
    requires Reachable(x) && Possible(x, run) && |x.s.lists| == E.EPOCHS && o in Handed(x.s)
    ensures var s := After(x, run).s;
            && |s.lists| == E.EPOCHS
            && Count(o in s.limbo) + Count(o in Waiting(s, 0)) + Count(o in Waiting(s, 1)) + Count(o in Waiting(s, 2))
               + Count(o in s.reclaimed) == 1
            && o !in s.linked && o !in s.unlinked && multiset(s.reclaimed)[o] <= 1
  {
    hide Ages, InGrace, RefsHeld, Apply, Record, Enabled, Reachable;
    ReachInv(x);
    HandedRun(x, run, o);
    InvRun(x, run);
    var s := After(x, run).s;
    HandedIs(s);
    assert Everything(s)[o] <= 1;
    Places(s, o);
  }

  lemma Places(s: State, o: Object)
    requires |s.lists| == E.EPOCHS && Handed(s)[o] == 1 && Everything(s)[o] <= 1
    ensures Count(o in s.limbo) + Count(o in Waiting(s, 0)) + Count(o in Waiting(s, 1)) + Count(o in Waiting(s, 2))
            + Count(o in s.reclaimed) == 1
    ensures o !in s.linked && o !in s.unlinked && multiset(s.reclaimed)[o] <= 1
  {
    HandedIs(s);
    assert InClientHands(s)[o] == 0;
    Member(s.limbo, o);
    Member(Waiting(s, 0), o);
    Member(Waiting(s, 1), o);
    Member(Waiting(s, 2), o);
    Member(s.reclaimed, o);
  }

  lemma Member(s: seq<Object>, o: Object)
    ensures o in s <==> multiset(s)[o] > 0
  {
  }

  /** gc_limbo() hands its object over. */
  lemma LimboHands(x: Recorded, o: Object)
    requires Reachable(x) && Enabled(x.s, ToLimbo(o))
    ensures |Step(x, ToLimbo(o)).s.lists| == E.EPOCHS && o in Handed(Step(x, ToLimbo(o)).s)
  {
    ReachInv(x);
    HandedStep(x, ToLimbo(o));
  }
}
