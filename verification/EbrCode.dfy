/** The functions of src/ebr.c as methods that update the structures in place.
    Each takes an `env`: what the other workers do before each of its atomic
    steps.  Quantifying over env quantifies over all interleavings, and every
    method is shown to perform a run of the transition system of module Ebr. */
module EbrCode {
  import opened Ebr

  ghost predicate Runs(x: Recorded, run: seq<Action>, y: Recorded) {
    Possible(x, run) && After(x, run) == y
  }

  lemma RunsStep(x: Recorded, run: seq<Action>, y: Recorded, a: Action)
    requires Runs(x, run, y) && Enabled(y.s, a)
    ensures Runs(x, run + [a], Step(y, a))
  {
    AfterSnoc(x, run, a);
  }

  lemma {:induction false} RunsCat(x: Recorded, r: seq<Action>, y: Recorded, q: seq<Action>, z: Recorded)
    requires Runs(x, r, y) && Runs(y, q, z)
    ensures Runs(x, r + q, z)
    decreases r
  {
    if r == [] {
      assert r + q == q;
    } else {
      RunsCat(Step(x, r[0]), r[1..], y, q, z);
      assert (r + q)[1..] == r[1..] + q;
    }
  }

  /** run continues run0 without starting another ebr_sync(). */
  predicate Extends(run0: seq<Action>, run: seq<Action>) {
    run0 <= run && SyncLoad !in run[|run0|..]
  }

  lemma ExtendsCat(run0: seq<Action>, run: seq<Action>, q: seq<Action>)
    requires Extends(run0, run) && SyncLoad !in q
    ensures Extends(run0, run + q)
  {
    assert (run + q)[|run0|..] == run[|run0|..] + q;
  }

  lemma RunsReach(x: Recorded, run: seq<Action>, y: Recorded)
    requires Reachable(x) && Runs(x, run, y)
    ensures Reachable(y)
  {
    var r :| Possible(START, r) && After(START, r) == x;
    RunsCat(START, r, x, run, y);
  }

  /** Nothing in `words` stands in the way of an announcement of epoch + 1. */
  predicate AllClear(tls: map<Worker, Tls>, epoch: nat) {
    forall w :: w in tls ==> !Blocks(tls[w].word, epoch)
  }

  class EbrSystem {
    var globalEpoch: nat
    var list: seq<Worker>
    var tls: map<Worker, Tls>
    /** Where the one ebr_sync() stands. */
    var sync: Sync
    ghost var h: History

    ghost function Model(): Recorded
      reads this
    {
      Recorded(State(globalEpoch, list, tls, sync), h)
    }

    ghost predicate Valid()
      reads this
    {
      Reachable(Model()) && sync.Quiet?
    }

    constructor ()
      ensures Valid() && Model() == START
    {
      globalEpoch, list, tls := 0, [], map[];
      sync, h := Quiet, UNBORN;
      new;
      ReachStart();
    }

    /** One atomic step of a worker, if it is that worker's next step. */
    method WorkerStep(a: Action)
      requires a.ByWorker() && (a.Unregister? ==> sync.Quiet?)
      modifies this
      ensures Model() == if Enabled(old(Model()).s, a) then Step(old(Model()), a) else old(Model())
    {
      ghost var x := Model();
      match a {
        case Register(w) =>
          if w !in tls {
            tls := tls[w := Tls(CLEARED, Outside)];
            list := [w] + list;
          }
        case Unregister(w) =>
          if w in tls && tls[w].phase.Outside? {
            tls := tls - {w};
            list := Remove(list, w);
          }
        case Observe(w) =>
          if w in tls && tls[w].phase.Outside? {
            tls := tls[w := tls[w].(phase := Observed(globalEpoch))];
            h := Record(x.h, x.s, a);
          }
        case Publish(w) =>
          if w in tls && tls[w].phase.Observed? {
            tls := tls[w := Tls(Word(true, tls[w].phase.epoch), Inside)];
            h := Record(x.h, x.s, a);
          }
        case Exit(w) =>
          if w in tls && tls[w].phase.Inside? {
            tls := tls[w := Tls(CLEARED, Outside)];
          }
      }
    }

    /** What the workers do meanwhile. */
    method Interfere(env: seq<Action>) returns (ghost run: seq<Action>)
      requires forall a :: a in env ==> a.ByWorker() && !a.Unregister?
      modifies this
      ensures Runs(old(Model()), run, Model())
      ensures sync == old(sync) && globalEpoch == old(globalEpoch) && h.now == old(h.now)
      ensures env == [] ==> run == []
      ensures SyncLoad !in run
    {
      run := [];
      for i := 0 to |env|
        invariant Runs(old(Model()), run, Model()) && SyncLoad !in run
        invariant sync == old(sync) && globalEpoch == old(globalEpoch) && h.now == old(h.now)
        invariant env == [] ==> run == []
      {
        ghost var x := Model();
        assert env[i] in env;
        WorkerStep(env[i]);
        if Enabled(x.s, env[i]) {
          RunsStep(old(Model()), run, x, env[i]);
          run := run + [env[i]];
        }
      }
    }

    /** One atomic step of another thread, be it a worker or in ebr_sync(). */
    method OtherStep(a: Action)
      modifies this
      ensures Model() == if Enabled(old(Model()).s, a) then Step(old(Model()), a) else old(Model())
    {
      var s := State(globalEpoch, list, tls, sync);
      if Enabled(s, a) {
        var n := Apply(s, a);
        h := Record(h, s, a);
        globalEpoch, list, tls, sync := n.epoch, n.list, n.tls, n.sync;
      }
    }

    /** ebr_enter(): read global_epoch, then store it with the active flag.  The other
        threads may move in between: workers, and an ebr_sync() that may have begun
        before and need not be finished after, so that the stored epoch can be stale
        and the scan can have passed this worker. */
    method Enter(w: Worker, env: seq<Action>) returns (ghost run: seq<Action>)
      requires Reachable(Model()) && w in tls && tls[w].phase.Outside?
      requires forall a :: a in env ==> !(a.ByWorker() && a.w == w)
      modifies this
      ensures Reachable(Model()) && Runs(old(Model()), run, Model())
      ensures run != [] && run[0] == Observe(w) && run[|run| - 1] == Publish(w)
      ensures w in tls && tls[w] == Tls(Word(true, old(globalEpoch)), Inside)
    {
      hide Possible, After, Reachable;
      ghost var x := Model();
      run := [Observe(w)];
      OneStep(x, Observe(w));
      OtherStep(Observe(w));
      for i := 0 to |env|
        invariant run != [] && run[0] == Observe(w) && Runs(x, run, Model())
        invariant w in tls && tls[w].phase == Observed(x.s.epoch)
      {
        assert env[i] in env;
        ghost var z := Model();
        OtherStep(env[i]);
        if Enabled(z.s, env[i]) {
          RunsStep(x, run, z, env[i]);
          run := run + [env[i]];
        }
      }
      RunsStep(x, run, Model(), Publish(w));
      run := run + [Publish(w)];
      OtherStep(Publish(w));
      RunsReach(x, run, Model());
    }

    static lemma NoRun(x: Recorded)
      ensures Runs(x, [], x)
    {
    }

    static lemma OneStep(x: Recorded, a: Action)
      requires Enabled(x.s, a)
      ensures Runs(x, [a], Step(x, a))
    {
      assert [a][1..] == [];
    }

    /** ebr_exit(). */
    method Leave(w: Worker)
      requires Valid() && w in tls && tls[w].phase.Inside?
      modifies this
      ensures Valid() && Model() == Step(old(Model()), Exit(w)) && !Active(Model().s, w)
    {
      ReachStep(Model(), Exit(w));
      WorkerStep(Exit(w));
    }

    /** ebr_sync(): one attempt to announce a new epoch. */
    method Sync(env: seq<seq<Action>>) returns (announced: bool, gcEpoch: nat, ghost run: seq<Action>)
      requires Valid()
      requires forall e, a :: e in env && a in e ==> a.ByWorker() && !a.Unregister?
      modifies this
      ensures Valid() && Runs(old(Model()), run, Model())
      ensures run != [] && run[0] == SyncLoad && SyncLoad !in run[1..]
      ensures h.now == old(h.now) + (if announced then 1 else 0)
      ensures globalEpoch == if announced then (old(globalEpoch) + 1) % 3 else old(globalEpoch)
      ensures gcEpoch == (globalEpoch + 1) % 3
      ensures env == [] ==> tls == old(tls) && list == old(list) && h == old(h).(now := h.now)
      ensures env == [] ==>
                (announced <==>
                 forall w :: w in old(tls) && old(tls)[w].word.active ==> old(tls)[w].word.epoch == old(globalEpoch))
    {
      hide Possible, After, Reachable;
      ghost var x := Model();
      var epoch, rest, k;
      epoch, rest, k, run := Begin(env);
      announced, k, run := Scan(env, k, epoch, rest, x, run);
      if announced { run := Announce(epoch, x, run); }
      RunsReach(x, run, Model());
      gcEpoch := (globalEpoch + 1) % EPOCHS;
      ClearIs(old(tls), old(globalEpoch));
    }

    static lemma ClearIs(tls: map<Worker, Tls>, epoch: nat)
      ensures AllClear(tls, epoch) <==>
              forall w :: w in tls && tls[w].word.active ==> tls[w].word.epoch == epoch
    {
    }

    /** The load of global_epoch and of the head of the list. */
    method Begin(env: seq<seq<Action>>) returns (epoch: nat, rest: seq<Worker>, k: nat, ghost run: seq<Action>)
      requires Valid()
      requires forall e, a :: e in env && a in e ==> a.ByWorker() && !a.Unregister?
      modifies this
      ensures Runs(old(Model()), run, Model()) && run != [] && run[0] == SyncLoad && SyncLoad !in run[1..]
      ensures sync == Scanning(epoch, rest) && epoch == globalEpoch == old(globalEpoch) < EPOCHS && h.now == old(h.now)
      ensures env == [] ==> tls == old(tls) && list == old(list) && h == old(h)
      ensures env == [] ==> forall w :: w in tls <==> w in rest
    {
      hide Possible, After, Reachable;
      ghost var x := Model();
      epoch := globalEpoch;
      OneStep(x, SyncLoad);
      sync, run := Loaded(epoch), [SyncLoad];
      k, run := Pause(env, 0, x, run);
      ListShape(x, run, Model());
      RunsStep(x, run, Model(), SyncHead);
      rest := list;
      sync, run := Scanning(epoch, rest), run + [SyncHead];
    }

    /** The store of the next epoch. */
    method Announce(epoch: nat, ghost x: Recorded, ghost run0: seq<Action>) returns (ghost run: seq<Action>)
      requires Runs(x, run0, Model()) && sync == Scanning(epoch, [])
      modifies this
      ensures Runs(x, run, Model()) && run == run0 + [SyncAnnounce]
      ensures Model() == Step(old(Model()), SyncAnnounce)
    {
      hide Possible, After;
      RunsStep(x, run0, Model(), SyncAnnounce);
      globalEpoch := (epoch + 1) % EPOCHS;
      sync, h, run := Quiet, h.(now := h.now + 1), run0 + [SyncAnnounce];
    }

    /** The loop of ebr_sync() over the list of workers. */
    method Scan(env: seq<seq<Action>>, k: nat, epoch: nat, list0: seq<Worker>, ghost x: Recorded,
                ghost run0: seq<Action>)
      returns (clear: bool, next: nat, ghost run: seq<Action>)
      requires forall e, a :: e in env && a in e ==> a.ByWorker() && !a.Unregister?
      requires Runs(x, run0, Model()) && Reachable(x)
      requires sync == Scanning(epoch, list0)
      requires env == [] ==> forall w :: w in tls <==> w in list0
      modifies this
      ensures Runs(x, run, Model())
      ensures Extends(run0, run)
      ensures h.now == old(h.now) && globalEpoch == old(globalEpoch)
      ensures sync == if clear then Scanning(epoch, []) else Quiet
      ensures env == [] ==> tls == old(tls) && list == old(list) && h == old(h)
      ensures env == [] ==> (clear <==> AllClear(tls, epoch))
    {
      var rest := list0;
      next, run := k, run0;
      while rest != []
        invariant Runs(x, run, Model())
        invariant Extends(run0, run)
        invariant sync == Scanning(epoch, rest) && h.now == old(h.now) && globalEpoch == old(globalEpoch)
        invariant env == [] ==> tls == old(tls) && list == old(list) && h == old(h)
        invariant forall w :: w in rest ==> w in list0
        invariant env == [] ==> forall w :: w in list0 && w !in rest ==> !Blocks(tls[w].word, epoch)
      {
        ghost var before := run;
        next, run := Pause(env, next, x, run);
        assert run == before + run[|before|..];
        ExtendsCat(run0, before, run[|before|..]);
        ExtendsCat(run0, run, [SyncVisit]);
        var t := rest[0];
        RestShape(x, run, Model());
        RunsStep(x, run, Model(), SyncVisit);
        run := run + [SyncVisit];
        if Blocks(tls[t].word, epoch) {
          sync := Quiet;
          return false, next, run;
        }
        assert forall w :: w in rest <==> w == t || w in rest[1..];
        rest := rest[1..];
        sync := Scanning(epoch, rest);
      }
      ghost var before := run;
      next, run := Pause(env, next, x, run);
      assert run == before + run[|before|..];
      ExtendsCat(run0, before, run[|before|..]);
      clear := true;
    }

    /** The workers' moves before the collector's k-th step. */
    method Pause(env: seq<seq<Action>>, k: nat, ghost x: Recorded, ghost run: seq<Action>)
      returns (next: nat, ghost more: seq<Action>)
      requires forall e, a :: e in env && a in e ==> a.ByWorker() && !a.Unregister?
      requires Runs(x, run, Model())
      modifies this
      ensures Runs(x, more, Model())
      ensures Extends(run, more)
      ensures sync == old(sync) && globalEpoch == old(globalEpoch) && h.now == old(h.now)
      ensures env == [] ==> more == run && Model() == old(Model())
    {
      next, more := k + 1, run;
      if k < |env| {
        assert env[k] in env;
        ghost var q := Interfere(env[k]);
        RunsCat(x, run, old(Model()), q, Model());
        more := run + q;
      }
    }

    static lemma ListShape(x: Recorded, run: seq<Action>, y: Recorded)
      requires Reachable(x) && Runs(x, run, y)
      ensures forall w :: w in y.s.tls <==> w in y.s.list
      ensures y.s.epoch < EPOCHS && (y.s.sync.Loaded? ==> y.s.sync.epoch == y.s.epoch)
    {
      RunsReach(x, run, y);
      ReachInv(y);
    }

    static lemma RestShape(x: Recorded, run: seq<Action>, y: Recorded)
      requires Reachable(x) && Runs(x, run, y) && y.s.sync.Scanning?
      ensures forall w :: w in y.s.sync.rest ==> w in y.s.tls
    {
      RunsReach(x, run, y);
      ReachInv(y);
    }

    /** ebr_full_sync(), given up after |attempts| calls of ebr_sync().  When it
        returns, the epoch has advanced exactly twice, and every critical section
        that was running at the call is over, whatever epoch it had stored.  Left to
        itself it needs two calls, and ends exactly if no worker is active. */
    method FullSync(attempts: seq<seq<seq<Action>>>) returns (done: bool, ghost run: seq<Action>)
      requires Valid()
      requires forall env, e, a :: env in attempts && e in env && a in e ==> a.ByWorker() && !a.Unregister?
      modifies this
      ensures Valid() && Runs(old(Model()), run, Model())
      ensures if done then h.now == old(h.now) + 2 else h.now <= old(h.now) + 1
      ensures done ==> forall w :: Active(old(Model()).s, w) && Active(Model().s, w) ==>
                Entered(h, w) > Entered(old(h), w)
      ensures multiset(run)[SyncLoad] <= |attempts| && (!done ==> multiset(run)[SyncLoad] == |attempts|)
      ensures (forall env :: env in attempts ==> env == []) ==>
                (done <==> |attempts| >= 2 && forall w :: w in old(tls) ==> !old(tls)[w].word.active)
    {
      hide Possible, After, Reachable;
      ghost var x := Model();
      ThreeEpochs(x);
      var target := globalEpoch;
      NoRun(x);
      run, done := [], false;
      ghost var alone := forall env :: env in attempts ==> env == [];
      ghost var noneActive := forall w :: w in tls ==> !tls[w].word.active;
      var i := 0;
      while i < |attempts| && !done
        invariant 0 <= i <= |attempts| && multiset(run)[SyncLoad] == i
        invariant Valid() && Runs(x, run, Model())
        invariant if done then h.now == x.h.now + 2 else x.h.now <= h.now <= x.h.now + 1
        invariant !done ==> globalEpoch == (target + (h.now - x.h.now)) % 3
        invariant alone ==> tls == old(tls) && h.now <= x.h.now + i && (done ==> i >= 2 && noneActive)
        invariant alone && noneActive ==> h.now == x.h.now + i && (done <==> i == 2)
        invariant alone && h.now == x.h.now + 1 ==> HoldOnly(tls, target)
      {
        assert attempts[i] in attempts;
        ghost var y := Model();
        var announced, epoch, q := Sync(attempts[i]);
        RunsCat(x, run, y, q, Model());
        OneLoad(run, q);
        run := run + q;
        done := announced && epoch == target;
        i := i + 1;
      }
      if done {
        forall w | Active(x.s, w) && Active(Model().s, w) ensures Entered(h, w) > Entered(x.h, w) {
          TwoAdvancesEndSections(x, run, w);
        }
      }
    }

    static lemma ThreeEpochs(x: Recorded)
      requires Reachable(x)
      ensures x.s.epoch < 3
    {
      ReachInv(x);
    }

    ghost static predicate HoldOnly(tls: map<Worker, Tls>, epoch: nat) {
      forall w :: w in tls && tls[w].word.active ==> tls[w].word.epoch == epoch
    }

    static lemma OneLoad(run: seq<Action>, q: seq<Action>)
      requires q != [] && q[0] == SyncLoad && SyncLoad !in q[1..]
      ensures multiset(run + q)[SyncLoad] == multiset(run)[SyncLoad] + 1
    {
      assert q == [q[0]] + q[1..];
      assert multiset(q) == multiset{SyncLoad} + multiset(q[1..]);
    }

    /** ebr_register(). */
    method Register(w: Worker)
      requires Reachable(Model()) && w !in tls
      modifies this
      ensures Reachable(Model()) && list == [w] + old(list) && tls == old(tls)[w := Tls(CLEARED, Outside)]
      ensures globalEpoch == old(globalEpoch) && sync == old(sync) && h == old(h)
    {
      ReachStep(Model(), Action.Register(w));
      WorkerStep(Action.Register(w));
    }

    /** ebr_unregister(), while no scan is running. */
    method Unregister(w: Worker)
      requires Valid() && w in tls && tls[w].phase.Outside?
      modifies this
      ensures Valid() && tls == old(tls) - {w} && forall v :: v in list <==> v in old(list) && v != w
      ensures globalEpoch == old(globalEpoch) && h == old(h)
    {
      ReachInv(Model());
      RemoveDistinct(list, w);
      ReachStep(Model(), Action.Unregister(w));
      WorkerStep(Action.Unregister(w));
    }
  }
}
