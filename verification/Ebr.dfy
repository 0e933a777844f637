/** The epoch protocol of src/ebr.c, as a transition system over its atomic
    loads and stores.

    A state holds exactly what the C structures hold: the clock global_epoch,
    the list of registered workers, every worker's local_epoch word, and the
    program counters of the workers and of the one ebr_sync() in progress.
    The unbounded epoch count and the other facts the proofs talk about live in
    a separate History, which no guard and no update of State reads. */
module Ebr {

  const EPOCHS := 3

  type Worker = nat

  /** local_epoch: the ACTIVE_FLAG bit and the epoch bits below it. */
  datatype Word = Word(active: bool, epoch: nat)

  const CLEARED := Word(false, 0)

  /** Where a worker stands in ebr_enter()/ebr_exit(): outside, between the
      read of global_epoch and the store of local_epoch, or inside. */
  datatype Phase = Outside | Observed(epoch: nat) | Inside

  datatype Tls = Tls(word: Word, phase: Phase)

  /** Where ebr_sync() stands: not running, global_epoch loaded but the list
      head not yet, or walking the list with `rest` still to be visited. */
  datatype Sync = Quiet | Loaded(epoch: nat) | Scanning(epoch: nat, rest: seq<Worker>)

  datatype State = State(epoch: nat, list: seq<Worker>, tls: map<Worker, Tls>, sync: Sync)

  datatype Action =
    | Register(w: Worker)
    | Unregister(w: Worker)
    | Observe(w: Worker)
    | Publish(w: Worker)
    | Exit(w: Worker)
    | SyncLoad
    | SyncHead
    | SyncVisit
    | SyncAnnounce
  {
    predicate ByWorker() { Register? || Unregister? || Observe? || Publish? || Exit? }
  }

  const INITIAL := State(0, [], map[], Quiet)

  predicate Enabled(s: State, a: Action) {
    match a
    case Register(w) => w !in s.tls
    case Unregister(w) => w in s.tls && s.tls[w].phase.Outside? && s.sync.Quiet?
    case Observe(w) => w in s.tls && s.tls[w].phase.Outside?
    case Publish(w) => w in s.tls && s.tls[w].phase.Observed?
    case Exit(w) => w in s.tls && s.tls[w].phase.Inside?
    case SyncLoad => s.sync.Quiet?
    case SyncHead => s.sync.Loaded?
    case SyncVisit => s.sync.Scanning? && s.sync.rest != [] && s.sync.rest[0] in s.tls
    case SyncAnnounce => s.sync.Scanning? && s.sync.rest == []
  }

  function Remove(list: seq<Worker>, w: Worker): (r: seq<Worker>) {
    if list == [] then []
    else if list[0] == w then list[1..]
    else [list[0]] + Remove(list[1..], w)
  }

  /** The test of ebr_sync() on one worker: active, and not in the loaded epoch. */
  predicate Blocks(word: Word, epoch: nat) {
    word.active && word != Word(true, epoch)
  }

  function Apply(s: State, a: Action): State
    requires Enabled(s, a)
  {
    match a
    case Register(w) => s.(list := [w] + s.list, tls := s.tls[w := Tls(CLEARED, Outside)])
    case Unregister(w) => s.(list := Remove(s.list, w), tls := s.tls - {w})
    case Observe(w) => s.(tls := s.tls[w := s.tls[w].(phase := Observed(s.epoch))])
    case Publish(w) => s.(tls := s.tls[w := Tls(Word(true, s.tls[w].phase.epoch), Inside)])
    case Exit(w) => s.(tls := s.tls[w := Tls(CLEARED, Outside)])
    case SyncLoad => s.(sync := Loaded(s.epoch))
    case SyncHead => s.(sync := Scanning(s.sync.epoch, s.list))
    case SyncVisit =>
      if Blocks(s.tls[s.sync.rest[0]].word, s.sync.epoch) then s.(sync := Quiet)
      else s.(sync := Scanning(s.sync.epoch, s.sync.rest[1..]))
    case SyncAnnounce => s.(epoch := (s.sync.epoch + 1) % EPOCHS, sync := Quiet)
  }

  function GcEpoch(s: State): nat { (s.epoch + 1) % EPOCHS }

  // ---------------------------------------------------------------- history

  /** now: announcements so far, i.e. the unbounded epoch.  section[w]: critical
      sections w has entered.  seen[w]: `now` when w last read global_epoch.
      born[w]: `now` at w's last store of local_epoch.
      late: workers whose last store came after the scan then in progress had
      passed them (or had started from a list without them). */
  datatype History = History(
    now: nat,
    section: map<Worker, nat>,
    seen: map<Worker, nat>,
    born: map<Worker, nat>,
    late: set<Worker>)

  const UNBORN := History(0, map[], map[], map[], {})

  function Entered(h: History, w: Worker): nat { if w in h.section then h.section[w] else 0 }

  predicate Passed(s: State, w: Worker) { s.sync.Scanning? && w !in s.sync.rest }

  function Record(h: History, s: State, a: Action): History {
    match a
    case Observe(w) => h.(seen := h.seen[w := h.now])
    case Publish(w) =>
      History(h.now, h.section[w := Entered(h, w) + 1], h.seen, h.born[w := h.now],
              if Passed(s, w) then h.late + {w} else h.late - {w})
    case SyncAnnounce => h.(now := h.now + 1)
    case _ => h
  }

  datatype Recorded = Recorded(s: State, h: History)

  const START := Recorded(INITIAL, UNBORN)

  function Step(x: Recorded, a: Action): Recorded
    requires Enabled(x.s, a)
  {
    Recorded(Apply(x.s, a), Record(x.h, x.s, a))
  }

  /** `run` is a possible interleaving from x, step after step. */
  predicate Possible(x: Recorded, run: seq<Action>)
    decreases run
  {
    run == [] || (Enabled(x.s, run[0]) && Possible(Step(x, run[0]), run[1..]))
  }

  function After(x: Recorded, run: seq<Action>): Recorded
    requires Possible(x, run)
    decreases run
  {
    if run == [] then x else After(Step(x, run[0]), run[1..])
  }

  ghost predicate Reachable(x: Recorded) {
    exists run :: Possible(START, run) && After(START, run) == x
  }

  predicate Active(s: State, w: Worker) { w in s.tls && s.tls[w].word.active }

  // -------------------------------------------------------------- invariants

  predicate Distinct(list: seq<Worker>) {
    forall i, j :: 0 <= i < j < |list| ==> list[i] != list[j]
  }

  /** Registration, program counters and words agree. */
  ghost predicate Shape(s: State) {
    && s.epoch < EPOCHS
    && Distinct(s.list)
    && (forall w :: w in s.list <==> w in s.tls)
    && (forall w :: w in s.tls ==> (s.tls[w].phase.Inside? <==> s.tls[w].word.active))
    && (s.sync.Loaded? ==> s.sync.epoch == s.epoch)
    && (s.sync.Scanning? ==>
          && s.sync.epoch == s.epoch
          && Distinct(s.sync.rest)
          && forall w :: w in s.sync.rest ==> w in s.tls)
  }

  /** The lag of one active worker.  A store that the scan in progress missed is
      worth one more announcement than any other, and no store survives three. */
  predicate Lag(x: Recorded, w: Worker)
    requires w in x.s.tls
  {
    && w in x.h.section && w in x.h.born
    && x.h.born[w] <= x.h.now <= x.h.born[w] + 2
    && (w !in x.h.late && x.h.now > x.h.born[w] ==>
          && x.h.now == x.h.born[w] + 1
          && x.s.tls[w].word.epoch == x.h.born[w] % EPOCHS
          && !Passed(x.s, w))
    && (w !in x.h.late && x.h.now == x.h.born[w] && Passed(x.s, w) ==>
          x.s.tls[w].word.epoch == x.h.now % EPOCHS)
    && (w in x.h.late && x.h.now == x.h.born[w] + 1 && Passed(x.s, w) ==>
          x.s.tls[w].word.epoch == x.h.now % EPOCHS)
    && (w in x.h.late && x.h.now == x.h.born[w] + 2 ==>
          && x.s.tls[w].word.epoch == (x.h.now - 1) % EPOCHS
          && !Passed(x.s, w))
  }

  /** The epoch that w carries, or has stored, is the one it read. */
  predicate Read(x: Recorded, w: Worker)
    requires w in x.s.tls
  {
    && (x.s.tls[w].phase.Observed? || x.s.tls[w].word.active ==> w in x.h.seen && x.h.seen[w] <= x.h.now)
    && (x.s.tls[w].phase.Observed? ==> x.s.tls[w].phase.epoch == x.h.seen[w] % EPOCHS)
    && (x.s.tls[w].word.active ==> x.s.tls[w].word.epoch == x.h.seen[w] % EPOCHS)
    && (x.s.tls[w].word.active ==> w in x.h.born && x.h.seen[w] <= x.h.born[w])
  }

  ghost predicate Inv(x: Recorded) {
    && Shape(x.s)
    && x.s.epoch == x.h.now % EPOCHS
    && (forall w :: w in x.s.tls ==> Read(x, w))
    && forall w :: Active(x.s, w) ==> Lag(x, w)
  }

  lemma RemoveDistinct(list: seq<Worker>, w: Worker)
    requires Distinct(list)
    ensures Distinct(Remove(list, w))
    ensures forall v :: v in Remove(list, w) <==> v in list && v != w
  {
    if list != [] {
      assert forall v :: v in list <==> v == list[0] || v in list[1..];
      assert list[0] !in list[1..];
      if list[0] != w { RemoveDistinct(list[1..], w); }
    }
  }

  lemma ShapeStep(s: State, a: Action)
    requires Shape(s) && Enabled(s, a)
    ensures Shape(Apply(s, a))
  {
    if a.Unregister? { RemoveDistinct(s.list, a.w); }
  }

  lemma LagStep(x: Recorded, a: Action, w: Worker)
    requires Inv(x) && Enabled(x.s, a)
    requires Active(Step(x, a).s, w)
    ensures Lag(Step(x, a), w)
  {
    if a != Publish(w) {
      assert Active(x.s, w) && Lag(x, w);
      assert Step(x, a).s.tls[w] == x.s.tls[w];
    }
  }

  lemma ReadStep(x: Recorded, a: Action, w: Worker)
    requires Inv(x) && Enabled(x.s, a) && w in Step(x, a).s.tls
    ensures Read(Step(x, a), w)
  {
    if w in x.s.tls { assert Read(x, w); }
  }

  lemma InvStep(x: Recorded, a: Action)
    requires Inv(x) && Enabled(x.s, a)
    ensures Inv(Step(x, a))
  {
    ShapeStep(x.s, a);
    forall w | w in Step(x, a).s.tls ensures Read(Step(x, a), w) { ReadStep(x, a, w); }
    forall w | Active(Step(x, a).s, w) ensures Lag(Step(x, a), w) { LagStep(x, a, w); }
  }

  lemma {:induction false} InvRun(x: Recorded, run: seq<Action>)
    requires Inv(x) && Possible(x, run)
    ensures Inv(After(x, run))
    decreases run
  {
    if run != [] {
      InvStep(x, run[0]);
      InvRun(Step(x, run[0]), run[1..]);
    }
  }

  /** One turn of the loop of ebr_sync(): it ends the scan exactly if the worker is
      active and its epoch is not the one that was loaded; else the next worker is due. */
  lemma VisitEnds(s: State)
    requires Enabled(s, SyncVisit)
    ensures var word := s.tls[s.sync.rest[0]].word;
            Apply(s, SyncVisit) == s.(sync := if word.active && word.epoch != s.sync.epoch then Quiet
                                              else Scanning(s.sync.epoch, s.sync.rest[1..]))
  {
  }

  lemma ReachStart()
    ensures Reachable(START)
  {
    assert Possible(START, []) && After(START, []) == START;
  }

  lemma {:induction false} AfterSnoc(x: Recorded, run: seq<Action>, a: Action)
    requires Possible(x, run) && Enabled(After(x, run).s, a)
    ensures Possible(x, run + [a]) && After(x, run + [a]) == Step(After(x, run), a)
    decreases run
  {
    if run == [] {
      assert (run + [a])[1..] == [];
    } else {
      AfterSnoc(Step(x, run[0]), run[1..], a);
      assert (run + [a])[1..] == run[1..] + [a];
    }
  }

  lemma ReachStep(x: Recorded, a: Action)
    requires Reachable(x) && Enabled(x.s, a)
    ensures Reachable(Step(x, a))
  {
    var run :| Possible(START, run) && After(START, run) == x;
    AfterSnoc(START, run, a);
  }

  lemma ReachInv(x: Recorded)
    requires Reachable(x)
    ensures Inv(x)
  {
    var run :| Possible(START, run) && After(START, run) == x;
    InvRun(START, run);
  }

  // ----------------------------------------------------------------- theorems

  /** For every interleaving of any number of workers with the scans, an active
      worker's store is at most two announcements old, and at most one unless the
      scan that was running at the store had already passed the worker.  The
      stored epoch itself may be stale by any amount. */
  lemma EpochLag(x: Recorded, w: Worker)
    requires Reachable(x) && Active(x.s, w)
    ensures w in x.h.born && x.h.born[w] <= x.h.now <= x.h.born[w] + (if w in x.h.late then 2 else 1)
  {
    ReachInv(x);
    assert Lag(x, w);
  }

  /** What a critical section that was running at a quiet moment of epoch d must
      still satisfy: one scan may accept its word, no second one can. */
  predicate Grace(x: Recorded, d: nat, w: Worker)
    requires w in x.s.tls
  {
    && d <= x.h.now <= d + 1
    && (x.h.now == d && Passed(x.s, w) ==> x.s.tls[w].word.epoch == d % EPOCHS)
    && (x.h.now == d + 1 ==> x.s.tls[w].word.epoch == d % EPOCHS && !Passed(x.s, w))
  }

  lemma GraceStep(x: Recorded, a: Action, d: nat, w: Worker)
    requires Inv(x) && Enabled(x.s, a)
    requires Active(x.s, w) && Grace(x, d, w)
    requires Active(Step(x, a).s, w)
    ensures Grace(Step(x, a), d, w)
    ensures Entered(Step(x, a).h, w) == Entered(x.h, w)
  {
    assert a != Publish(w);
    assert Step(x, a).s.tls[w] == x.s.tls[w];
  }

  /** Critical sections are numbered: leaving one and entering another shows. */
  lemma {:induction false} SectionsGrow(x: Recorded, run: seq<Action>, w: Worker)
    requires Inv(x) && Possible(x, run)
    ensures Entered(After(x, run).h, w) >= Entered(x.h, w)
    ensures !Active(x.s, w) && Active(After(x, run).s, w) ==> Entered(After(x, run).h, w) > Entered(x.h, w)
    decreases run
  {
    if run != [] {
      InvStep(x, run[0]);
      SectionsGrow(Step(x, run[0]), run[1..], w);
    }
  }

  lemma {:induction false} GraceRun(x: Recorded, run: seq<Action>, d: nat, w: Worker)
    requires Inv(x) && Possible(x, run)
    requires Active(x.s, w) && Grace(x, d, w)
    requires Active(After(x, run).s, w) && Entered(After(x, run).h, w) == Entered(x.h, w)
    ensures Grace(After(x, run), d, w)
    decreases run
  {
    if run != [] {
      var y := Step(x, run[0]);
      InvStep(x, run[0]);
      SectionsGrow(y, run[1..], w);
      if Active(y.s, w) {
        GraceStep(x, run[0], d, w);
        GraceRun(y, run[1..], d, w);
      }
    }
  }

  /** The barrier behind ebr_full_sync() and behind every grace period: once the
      epoch has advanced twice from a moment with no scan running, every critical
      section that was active at that moment has ended, stale words included. */
  lemma TwoAdvancesEndSections(x: Recorded, run: seq<Action>, w: Worker)
    requires Reachable(x) && Possible(x, run)
    requires x.s.sync.Quiet? && Active(x.s, w)
    requires After(x, run).h.now >= x.h.now + 2
    ensures Active(After(x, run).s, w) ==> Entered(After(x, run).h, w) > Entered(x.h, w)
  {
    ReachInv(x);
    SectionsGrow(x, run, w);
    if Active(After(x, run).s, w) && Entered(After(x, run).h, w) == Entered(x.h, w) {
      GraceRun(x, run, x.h.now, w);
    }
  }

  /** Exactly when the observation claimed at src/ebr.c:236-238 is wrong: an active
      worker holds the epoch that an announcement makes ready for reclamation if and
      only if it stored its word in this very epoch, behind the back of the scan,
      and had read it one, four, seven, ... announcements before. */
  lemma StaleExactly(x: Recorded, w: Worker)
    requires Reachable(x) && Enabled(x.s, SyncAnnounce) && Active(x.s, w)
    ensures w in x.h.born && w in x.h.seen && x.h.seen[w] <= x.h.born[w] <= x.h.now
    ensures var y := Step(x, SyncAnnounce);
            y.s.tls[w].word.epoch == GcEpoch(y.s) <==>
            w in x.h.late && x.h.born[w] == x.h.now && (x.h.now - x.h.seen[w]) % EPOCHS == 1
  {
    ReachInv(x);
    assert Lag(x, w) && Read(x, w);
  }

  /** In particular, when an epoch is announced, every active worker the scan did
      examine holds the epoch just left. */
  lemma ExaminedWorkersAreFresh(x: Recorded, w: Worker)
    requires Reachable(x) && Enabled(x.s, SyncAnnounce) && Active(x.s, w)
    requires !(w in x.h.late && w in x.h.born && x.h.born[w] == x.h.now)
    ensures var y := Step(x, SyncAnnounce);
            y.s.tls[w].word.epoch == (y.h.now - 1) % EPOCHS && y.s.tls[w].word.epoch != GcEpoch(y.s)
  {
    StaleExactly(x, w);
    ReachInv(x);
    assert Lag(x, w);
  }

  /** One uneventful ebr_sync() over a single worker. */
  lemma OneSync(x: Recorded, e: nat, t: Tls) returns (y: Recorded)
    requires Reachable(x)
    requires x.s == State(e, [0], map[0 := t], Quiet) && !Blocks(t.word, e)
    ensures y == Recorded(State((e + 1) % EPOCHS, [0], map[0 := t], Quiet), x.h.(now := x.h.now + 1))
    ensures Reachable(y)
  {
    ReachStep(x, SyncLoad);
    var x1 := Step(x, SyncLoad);
    ReachStep(x1, SyncHead);
    var x2 := Step(x1, SyncHead);
    ReachStep(x2, SyncVisit);
    var x3 := Step(x2, SyncVisit);
    ReachStep(x3, SyncAnnounce);
    y := Step(x3, SyncAnnounce);
  }

  /** ... and the claim taken literally is false: worker 0 reads epoch 1, stores
      it only after the scan of epoch 2 has passed, and so is active with the
      very epoch that is announced as ready for reclamation. */
  lemma StaleObservation() returns (y: Recorded)
    ensures Reachable(y) && y.s.sync.Quiet? && y.h.now == 3
    ensures Active(y.s, 0) && y.s.tls[0].word.epoch == GcEpoch(y.s)
  {
    ReachStart();
    ReachStep(START, Register(0));
    var x := Step(START, Register(0));
    x := OneSync(x, 0, Tls(CLEARED, Outside));
    ReachStep(x, Observe(0));
    x := Step(x, Observe(0));
    assert x.s.tls == map[0 := Tls(CLEARED, Observed(1))];
    x := OneSync(x, 1, Tls(CLEARED, Observed(1)));
    y := LateStore(x, 2, 1);
  }

  /** Worker 0, having read epoch e, stores it behind the back of a scan. */
  lemma LateStore(x: Recorded, now: nat, e: nat) returns (y: Recorded)
    requires Reachable(x) && now == x.h.now
    requires x.s == State(now % EPOCHS, [0], map[0 := Tls(CLEARED, Observed(e))], Quiet)
    ensures Reachable(y) && y.h.now == now + 1 && y.h.born == x.h.born[0 := now]
    ensures y.s == State((now + 1) % EPOCHS, [0], map[0 := Tls(Word(true, e), Inside)], Quiet)
  {
    ReachStep(x, SyncLoad);
    var x1 := Step(x, SyncLoad);
    ReachStep(x1, SyncHead);
    var x2 := Step(x1, SyncHead);
    ReachStep(x2, SyncVisit);
    var x3 := Step(x2, SyncVisit);
    ReachStep(x3, Publish(0));
    var x4 := Step(x3, Publish(0));
    assert x4.s.tls == map[0 := Tls(Word(true, e), Inside)];
    ReachStep(x4, SyncAnnounce);
    y := Step(x4, SyncAnnounce);
  }

  /** The bound of two in EpochLag is attained: the word read in epoch 1 and
      stored late in epoch 3 is taken for the current one in epoch 4. */
  lemma LagOfTwo() returns (y: Recorded)
    ensures Reachable(y) && Active(y.s, 0) && 0 in y.h.born && y.h.now == y.h.born[0] + 2
  {
    ReachStart();
    ReachStep(START, Register(0));
    var x := Step(START, Register(0));
    x := OneSync(x, 0, Tls(CLEARED, Outside));
    ReachStep(x, Observe(0));
    x := Step(x, Observe(0));
    var seen := Tls(CLEARED, Observed(1));
    assert x.s.tls == map[0 := seen];
    x := OneSync(x, 1, seen);
    x := OneSync(x, 2, seen);
    x := LateStore(x, 3, 1);
    y := OneSync(x, 1, Tls(Word(true, 1), Inside));
  }
}
