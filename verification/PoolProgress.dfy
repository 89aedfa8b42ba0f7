/**
 Progress of the thread pool.  When the clients make no further calls and no sleeper wakes without
 cause, every run is finite, and where it ends all the work is done; thr_pool_destroy returns
 exactly when its call found the queue empty or nothing active.
 */
module PoolProgress {
  import opened PoolModel
  import opened PoolInvariant
  import opened PoolSafety
  import opened Sequences

  /** A step that the pool makes by itself: not a new call, and not a spurious wakeup. */
  ghost predicate Internal(s: State, e: Event) {
    Enabled(s, e) &&
    match e
    case Start(_, _) => true
    case Resume(t, timedOut, _) => s.workers[t].Woken? || timedOut
    case JobReturns(_, _) => true
    case JobExits(_, _) => true
    case Queue(_, _) => false
    case Wait(_) => false
    case WaitResume(c) => s.waiters[c]
    case Destroy => false
    case DestroyResume => s.destroyer.notified
  }

  /** No thread can go on by itself. */
  ghost predicate Quiescent(s: State) {
    forall e :: !Internal(s, e)
  }

  // ----- the measure -----

  function Rank(w: Worker): nat {
    match w
    case Asleep(timed) => if timed then 1 else 0
    case Woken(_) => 2
    case Starting => 3
    case Holding => 3
    case Running(_) => 4
  }

  ghost function AtLeast(ws: map<Tid, Worker>, k: nat): set<Tid> {
    set t | t in ws && Rank(ws[t]) >= k
  }

  ghost function Weight(ws: map<Tid, Worker>): nat {
    |AtLeast(ws, 1)| + |AtLeast(ws, 2)| + |AtLeast(ws, 3)| + |AtLeast(ws, 4)|
  }

  ghost function Notified(cs: map<Client, bool>): set<Client> {
    set c | c in cs && cs[c]
  }

  ghost function ClientWeight(s: State): nat {
    if HasWork(s) then 2 * |s.waiters| + |Notified(s.waiters)| else |s.waiters|
  }

  function DestroyerWeight(s: State): nat {
    match s.destroyer
    case NotCalled => 0
    case OnWaitCv(n) => if s.active == [] then 6 else if n then 8 else 7
    case OnBusyCv(n) => if s.nthreads == 0 then 3 else if n then 5 else 4
    case Done => 0
  }

  ghost function Measure(s: State): nat {
    4 * |s.queue| + Weight(s.workers) + ClientWeight(s) + DestroyerWeight(s)
  }

  lemma AtLeastAfterUpdate(ws: map<Tid, Worker>, t: Tid, w: Worker, k: nat)
    ensures |AtLeast(ws[t := w], k)| ==
            |AtLeast(ws, k)| + (if Rank(w) >= k then 1 else 0) - (if t in ws && Rank(ws[t]) >= k then 1 else 0)
  {
    assert AtLeast(ws[t := w], k) == if Rank(w) >= k then AtLeast(ws, k) + {t} else AtLeast(ws, k) - {t};
  }

  lemma WeightAfterUpdate(ws: map<Tid, Worker>, t: Tid, w: Worker)
    ensures Weight(ws[t := w]) == Weight(ws) + Rank(w) - (if t in ws then Rank(ws[t]) else 0)
  {
    AtLeastAfterUpdate(ws, t, w, 1);
    AtLeastAfterUpdate(ws, t, w, 2);
    AtLeastAfterUpdate(ws, t, w, 3);
    AtLeastAfterUpdate(ws, t, w, 4);
  }

  lemma WeightAfterRemoval(ws: map<Tid, Worker>, t: Tid)
    requires t in ws
    ensures Weight(ws - {t}) == Weight(ws) - Rank(ws[t])
  {
    assert (ws - {t})[t := ws[t]] == ws;
    WeightAfterUpdate(ws - {t}, t, ws[t]);
  }

  // ----- the pieces of a critical section -----

  lemma NotifyWeighs(s: State)
    requires s.destroyer.OnWaitCv? ==> s.destroy
    ensures ClientWeight(NotifyWaiters(s)) == ClientWeight(s)
    ensures DestroyerWeight(NotifyWaiters(s)) == DestroyerWeight(s)
    ensures Measure(NotifyWaiters(s)) == Measure(s)
  {
    if !HasWork(s) {
      var s' := NotifyWaiters(s);
      assert s'.waiters.Keys == s.waiters.Keys;
      assert |s'.waiters| == |s'.waiters.Keys| && |s.waiters| == |s.waiters.Keys|;
    }
  }

  lemma JobCleanupWeighs(s: State, t: Tid)
    requires Inv(s) && IsRunning(s.workers, t)
    ensures Measure(JobCleanup(s, t)) < Measure(s)
  {
    var s1 := s.(finished := s.finished + {s.workers[t].job}, active := Without(s.active, t),
                 workers := s.workers[t := Holding]);
    WeightAfterUpdate(s.workers, t, Holding);
    assert t in s.active;
    assert HasWork(s);
    assert Measure(s1) < Measure(s);
    NotifyWeighs(s1);
  }

  lemma EnterIdleWeighs(s: State, t: Tid)
    requires Inv(s) && t in s.workers && (s.workers[t].Holding? || s.workers[t].Starting?)
    ensures Measure(EnterIdle(s, t)) == Measure(s) - 1
  {
    WeightAfterUpdate(s.workers, t, Woken(false));
    NotifyWeighs(s.(idle := s.idle + 1, workers := s.workers[t := Woken(false)]));
  }

  lemma LeaveIdleWeighs(s: State, t: Tid)
    requires t in s.workers && s.workers[t].Woken?
    ensures Measure(LeaveIdle(s, t)) == Measure(s) + 1
  {
    WeightAfterUpdate(s.workers, t, Holding);
  }

  lemma WorkerCleanupWeighs(s: State, t: Tid, ch: Choice)
    requires Inv(s) && t in s.workers && s.workers[t].Holding? && ch.child !in s.workers
    ensures Measure(WorkerCleanup(s, t, ch)) <= Measure(s)
    ensures s.destroy || s.queue == [] ==> Measure(WorkerCleanup(s, t, ch)) <= Measure(s) - 3
  {
    var s1 := s.(workers := s.workers - {t}, nthreads := s.nthreads - 1);
    WeightAfterRemoval(s.workers, t);
    assert Measure(s1) <= Measure(s) - 3;
    if !s.destroy && s.queue != [] {
      WeightAfterUpdate(s1.workers, ch.child, Starting);
    }
  }

  lemma TakeJobWeighs(s: State, t: Tid)
    requires Inv(s) && t in s.workers && s.workers[t].Woken? && !s.destroy && s.queue != []
    ensures Measure(TakeJob(s, t)) == Measure(s) - 2
  {
    WeightAfterUpdate(s.workers, t, Running(s.started));
  }

  // ----- the worker's loop -----

  lemma LoopTopWeighs(s: State, t: Tid, ch: Choice)
    requires Inv(s) && t in s.workers && (s.workers[t].Holding? || s.workers[t].Starting?)
    requires ch.child !in s.workers && s.destroyer != Done
    ensures Measure(LoopTop(s, t, ch)) < Measure(s)
    ensures s.queue == [] && !s.destroy && s.nthreads <= s.minimum ==> Measure(LoopTop(s, t, ch)) <= Measure(s) - 3
    decreases 1
  {
    EnterIdleKeeps(s, t);
    EnterIdleWeighs(s, t);
    WaitTestWeighs(EnterIdle(s, t), t, ch);
  }

  lemma WaitTestWeighs(s: State, t: Tid, ch: Choice)
    requires Inv(s) && t in s.workers && s.workers[t].Woken?
    requires ch.child !in s.workers && s.destroyer != Done
    ensures Measure(WaitTest(s, t, ch)) < Measure(s)
    ensures s.queue == [] && !s.destroy && s.nthreads <= s.minimum ==> Measure(WaitTest(s, t, ch)) <= Measure(s) - 2
    decreases 1, 0
  {
    if s.queue == [] && !s.destroy {
      WeightAfterUpdate(s.workers, t, Asleep(false));
      WeightAfterUpdate(s.workers, t, Asleep(true));
      if s.nthreads > s.minimum && s.linger == 0 {
        AfterWaitWeighs(s, t, true, ch);
      }
    } else {
      AfterWaitWeighs(s, t, false, ch);
    }
  }

  lemma AfterWaitWeighs(s: State, t: Tid, timedOut: bool, ch: Choice)
    requires Inv(s) && t in s.workers && s.workers[t].Woken?
    requires ch.child !in s.workers && s.destroyer != Done
    requires timedOut || s.destroy || s.queue != []
    ensures Measure(AfterWait(s, t, timedOut, ch)) <= Measure(s) - 2
    decreases if s.destroy || s.queue != [] || (timedOut && s.nthreads > s.minimum) then 0 else 2
  {
    if !s.destroy && s.queue != [] {
      TakeJobWeighs(s, t);
    } else {
      LeaveIdleKeeps(s, t);
      LeaveIdleWeighs(s, t);
      if s.destroy || s.nthreads > s.minimum {
        WorkerCleanupWeighs(LeaveIdle(s, t), t, ch);
      } else {
        LoopTopWeighs(LeaveIdle(s, t), t, ch);
      }
    }
  }

  // ----- every internal step -----

  lemma ResumeWeighs(s: State, t: Tid, timedOut: bool, ch: Choice)
    requires Inv(s) && Internal(s, Resume(t, timedOut, ch))
    ensures Measure(Apply(s, Resume(t, timedOut, ch))) < Measure(s)
  {
    WakeKeeps(s, t);
    var s1 := s.(workers := s.workers[t := Woken(s.workers[t].timed)]);
    WeightAfterUpdate(s.workers, t, Woken(s.workers[t].timed));
    if timedOut {
      AfterWaitWeighs(s1, t, true, ch);
    } else {
      WaitTestWeighs(s1, t, ch);
    }
  }

  lemma WaiterCounts(cs: map<Client, bool>, c: Client)
    requires c in cs && cs[c]
    ensures |Notified(cs[c := false])| == |Notified(cs)| - 1 && |cs[c := false]| == |cs|
    ensures |cs - {c}| == |cs| - 1
  {
    assert Notified(cs[c := false]) == Notified(cs) - {c};
    assert cs[c := false].Keys == cs.Keys;
    assert (cs - {c}).Keys == cs.Keys - {c};
  }

  lemma WaitLoopWeighs(s: State, c: Client)
    requires c in s.waiters && s.waiters[c]
    ensures Measure(WaitLoop(s, c)) < Measure(s)
  {
    WaiterCounts(s.waiters, c);
    var s' := WaitLoop(s, c);
    assert HasWork(s') == HasWork(s) && DestroyerWeight(s') == DestroyerWeight(s);
    assert ClientWeight(s') < ClientWeight(s);
  }

  lemma WaitResumeWeighs(s: State, c: Client)
    requires Inv(s) && Internal(s, WaitResume(c))
    ensures Measure(Apply(s, WaitResume(c))) < Measure(s)
  {
    WaitLoopWeighs(s, c);
  }

  lemma DestroyWaitWeighs(s: State)
    requires s.destroyer == OnWaitCv(true) && s.nthreads >= 0
    ensures Measure(DestroyWaitLoop(s)) < Measure(s)
  {
    assert ClientWeight(DestroyWaitLoop(s)) == ClientWeight(s);
  }

  lemma DestroyBusyWeighs(s: State)
    requires s.destroyer == OnBusyCv(true)
    ensures Measure(DestroyBusyLoop(s)) < Measure(s)
  {
    assert ClientWeight(DestroyBusyLoop(s)) == ClientWeight(s);
  }

  lemma DestroyResumeWeighs(s: State)
    requires Inv(s) && Internal(s, DestroyResume)
    ensures Measure(Apply(s, DestroyResume)) < Measure(s)
  {
    if s.destroyer.OnWaitCv? {
      DestroyWaitWeighs(s);
    } else {
      DestroyBusyWeighs(s);
    }
  }

  /** Every step that the pool makes by itself brings it closer to rest. */
  lemma InternalStepWeighs(s: State, e: Event)
    requires Inv(s) && AtRest(s) && Internal(s, e)
    ensures Measure(Apply(s, e)) < Measure(s)
  {
    match e
    case Start(t, ch) => LoopTopWeighs(s, t, ch);
    case Resume(t, timedOut, ch) => ResumeWeighs(s, t, timedOut, ch);
    case JobReturns(t, ch) =>
      JobCleanupKeeps(s, t);
      JobCleanupWeighs(s, t);
      LoopTopWeighs(JobCleanup(s, t), t, ch);
    case JobExits(t, ch) =>
      JobCleanupKeeps(s, t);
      JobCleanupWeighs(s, t);
      WorkerCleanupWeighs(JobCleanup(s, t), t, ch);
    case WaitResume(c) => WaitResumeWeighs(s, c);
    case DestroyResume => DestroyResumeWeighs(s);
  }

  /** A run in which the pool is left alone from event number `from` on. */
  ghost predicate LeftAlone(states: seq<State>, events: seq<Event>, from: nat) {
    IsRun(states, events) && forall i :: from <= i < |events| ==> Internal(states[i], events[i])
  }

  /** A pool that is left alone comes to rest: its runs are no longer than the measure. */
  lemma {:induction false} LeftAloneIsFinite(states: seq<State>, events: seq<Event>, from: nat, i: nat)
    requires PoolRun(states, events) && LeftAlone(states, events, from) && from <= i < |states|
    ensures Measure(states[i]) + (i - from) <= Measure(states[from])
  {
    if from < i {
      LeftAloneIsFinite(states, events, from, i - 1);
      PoolRunKeeps(states, events, i - 1);
      InternalStepWeighs(states[i - 1], events[i - 1]);
    }
  }

  // ----- where it comes to rest -----

  lemma {:induction false} FreshId(ts: set<Tid>) returns (id: Tid)
    ensures forall t :: t in ts ==> t < id
  {
    if ts == {} {
      id := 0;
    } else {
      var t :| t in ts;
      var rest := FreshId(ts - {t});
      id := if t < rest then rest else t + 1;
      assert forall u :: u in ts ==> u == t || u in ts - {t};
    }
  }

  lemma SomeChoice(s: State) returns (ch: Choice)
    ensures ChoiceOk(s, ch)
  {
    var child := FreshId(s.workers.Keys);
    if SomeAsleep(s.workers) {
      var t :| IsAsleep(s.workers, t);
      ch := Choice(t, child, true);
    } else {
      ch := Choice(0, child, true);
      assert forall t :: !IsAsleep(s.workers, t);
    }
  }

  lemma QuiescentThreads(s: State)
    requires Inv(s) && AtRest(s) && Quiescent(s) && s.destroyer != Done
    ensures forall t :: t in s.workers ==> s.workers[t] == Asleep(false)
    ensures forall c :: c in s.waiters ==> !s.waiters[c]
    ensures s.destroyer.OnWaitCv? || s.destroyer.OnBusyCv? ==> !s.destroyer.notified
  {
    var ch := SomeChoice(s);
    forall t | t in s.workers ensures s.workers[t] == Asleep(false) {
      assert !Internal(s, Start(t, ch));
      assert !Internal(s, Resume(t, false, ch));
      assert !Internal(s, Resume(t, true, ch));
      assert !Internal(s, JobReturns(t, ch));
    }
    forall c | c in s.waiters ensures !s.waiters[c] {
      assert !Internal(s, WaitResume(c));
    }
    assert !Internal(s, DestroyResume);
  }

  lemma NobodyRuns(s: State)
    requires ActiveList(s) && forall t :: t in s.workers ==> s.workers[t] == Asleep(false)
    ensures s.active == [] && forall j: nat :: !BeingRun(s.workers, j)
  {
    assert forall t :: t !in s.active;
    SomeMember(s.active);
  }

  /** A pool at rest that is not being destroyed: every worker sleeps without a time-out, nothing is
      active, and if there is a worker or no create_worker failed, then every job has finished and
      nobody is left in thr_pool_wait. */
  lemma RestMeansDone(s: State)
    requires Inv(s) && AtRest(s) && Quiescent(s) && !s.destroy
    ensures s.active == [] && forall t :: t in s.workers ==> s.workers[t] == Asleep(false)
    ensures s.nthreads > 0 || (!s.createFailed && s.maximum >= 1) ==>
              s.queue == [] && s.waiters == map[] && AllFinished(s)
  {
    QuiescentThreads(s);
    NobodyRuns(s);
    assert s.nthreads > 0 ==> s.queue == [] by {
      if s.nthreads > 0 {
        assert s.workers.Keys != {};
        var t :| t in s.workers;
        assert IsAsleep(s.workers, t);
        assert SomeAsleep(s.workers);
        assert WokenSet(s.workers) == {};
      }
    }
    if s.queue == [] {
      assert s.waiters.Keys == {};
    }
  }

  /** Jobs drain: a run of a pool that has a worker, or in which no create_worker failed, and that is
      left alone until nothing moves, ends with every job finished and every waiter gone. */
  lemma WorkDrains(states: seq<State>, events: seq<Event>)
    requires PoolRun(states, events) && Quiescent(states[|events|]) && !states[|events|].destroy
    requires states[|events|].nthreads > 0 || (!states[|events|].createFailed && states[|events|].maximum >= 1)
    ensures AllFinished(states[|events|]) && states[|events|].waiters == map[] && states[|events|].queue == []
  {
    PoolRunKeeps(states, events, |events|);
    RestMeansDone(states[|events|]);
  }

  // ----- thr_pool_destroy -----

  lemma DestroyAfterWait(s: State, t: Tid, timedOut: bool, ch: Choice)
    requires s.destroy
    ensures var s' := WaitTest(s, t, ch);
            s' == AfterWait(s, t, timedOut, ch) && s'.destroy && s'.queue == s.queue &&
            (s.queue != [] && s.destroyer == OnWaitCv(false) ==> s'.destroyer == OnWaitCv(false)) &&
            (!s.destroyer.OnWaitCv? ==> !s'.destroyer.OnWaitCv?)
  {
  }

  lemma DestroyLoop(s: State, t: Tid, ch: Choice)
    requires s.destroy
    ensures var s' := LoopTop(s, t, ch);
            s'.destroy && s'.queue == s.queue &&
            (s.queue != [] && s.destroyer == OnWaitCv(false) ==> s'.destroyer == OnWaitCv(false)) &&
            (!s.destroyer.OnWaitCv? ==> !s'.destroyer.OnWaitCv?)
  {
    DestroyAfterWait(EnterIdle(s, t), t, false, ch);
  }

  /** Under destruction a step of the pool itself leaves the queue alone.  With jobs in the queue a
      destroyer asleep on pool_waitcv stays there; one that is past that loop stays past it. */
  lemma DestroyStep(s: State, e: Event)
    requires Inv(s) && AtRest(s) && s.destroy && Internal(s, e)
    ensures Apply(s, e).destroy && Apply(s, e).queue == s.queue
    ensures s.queue != [] && s.destroyer == OnWaitCv(false) ==> Apply(s, e).destroyer == OnWaitCv(false)
    ensures !s.destroyer.OnWaitCv? ==> !Apply(s, e).destroyer.OnWaitCv?
  {
    if e.Start? {
      DestroyLoop(s, e.t, e.ch);
    } else if e.JobReturns? {
      DestroyLoop(JobCleanup(s, e.t), e.t, e.ch);
    } else if e.Resume? {
      DestroyAfterWait(s.(workers := s.workers[e.t := Woken(s.workers[e.t].timed)]), e.t, e.timedOut, e.ch);
    }
  }

  lemma {:induction false} DestroyRun(states: seq<State>, events: seq<Event>, d: nat, i: nat)
    requires PoolRun(states, events) && d < |events| && events[d] == Destroy
    requires LeftAlone(states, events, d + 1) && d < i < |states|
    ensures states[i].destroy && states[i].queue == states[d].queue
    ensures states[d].active != [] && states[d].queue != [] ==> states[i].destroyer == OnWaitCv(false)
    ensures states[d].active == [] ==> !states[i].destroyer.OnWaitCv?
  {
    PoolRunKeeps(states, events, i - 1);
    if i == d + 1 {
      assert states[i] == Apply(states[d], Destroy);
    } else {
      DestroyRun(states, events, d, i - 1);
      DestroyStep(states[i - 1], events[i - 1]);
    }
  }

  /** Destroy is called at event d and then the pool is left alone until nothing moves.  The call gets
      as far as free(pool) exactly if it found nothing active or nothing queued; otherwise it sleeps
      for ever on pool_waitcv, since notify_waiters asks for an empty queue and no job starts any more. */
  lemma DestroyReturnsIff(states: seq<State>, events: seq<Event>, d: nat)
    requires PoolRun(states, events) && d < |events| && events[d] == Destroy
    requires LeftAlone(states, events, d + 1) && Quiescent(states[|events|])
    ensures states[|events|].destroyer == Done <==> states[d].active == [] || states[d].queue == []
    ensures states[|events|].destroyer != Done ==>
              states[|events|].destroyer == OnWaitCv(false) && states[|events|].workers == map[]
  {
    var s := states[|events|];
    DestroyRun(states, events, d, |events|);
    PoolRunKeeps(states, events, |events|);
    if s.destroyer != Done {
      QuiescentThreads(s);
      NobodyRuns(s);
      assert forall t :: t in s.workers ==> IsAsleep(s.workers, t);
      assert s.workers.Keys == {};
      assert |s.workers| == |s.workers.Keys|;
    }
  }

  /** A pool whose only worker performs the only job. */
  function OneJob(): State {
    State([], [7], false, false, 0, 0, 1, 1, 0, map[7 := Running(0)], map[], NotCalled, [Job(0, 0)], 1, {}, false)
  }

  lemma FirstJobQueued(s: State, e: Event) returns (s': State)
    requires s == Create(0, 1, 0).value && e == Queue(Job(0, 0), Choice(0, 7, true))
    ensures Enabled(s, e) && Apply(s, e) == s'
    ensures s' == s.(queue := [Job(0, 0)], submitted := [Job(0, 0)], workers := map[7 := Starting], nthreads := 1)
  {
    s' := Apply(s, e);
  }

  lemma FirstJobStarted(s: State, e: Event)
    requires s == Create(0, 1, 0).value.(queue := [Job(0, 0)], submitted := [Job(0, 0)], workers := map[7 := Starting],
                                         nthreads := 1)
    requires e == Start(7, Choice(0, 0, true))
    ensures Enabled(s, e) && Apply(s, e) == OneJob()
  {
    var idle := EnterIdle(s, 7);
    assert LoopTop(s, 7, e.ch) == WaitTest(idle, 7, e.ch) == AfterWait(idle, 7, false, e.ch) == TakeJob(idle, 7);
  }

  lemma OneJobRun() returns (states: seq<State>, events: seq<Event>)
    ensures PoolRun(states, events) && |events| == 2 && states[2] == OneJob()
  {
    var e0, e1 := Queue(Job(0, 0), Choice(0, 7, true)), Start(7, Choice(0, 0, true));
    var s0 := Create(0, 1, 0).value;
    var s1 := FirstJobQueued(s0, e0);
    FirstJobStarted(s1, e1);
    states, events := [s0, s1, OneJob()], [e0, e1];
  }

  /** A pool whose only worker performs the first of two jobs. */
  function OneBusyWorker(): State {
    OneJob().(queue := [Job(1, 1)], submitted := [Job(0, 0), Job(1, 1)])
  }

  lemma OneBusyWorkerRun() returns (states: seq<State>, events: seq<Event>)
    ensures PoolRun(states, events) && |events| == 3 && states[3] == OneBusyWorker()
  {
    var e := Queue(Job(1, 1), Choice(0, 0, true));
    assert Enabled(OneJob(), e) && Apply(OneJob(), e) == OneBusyWorker();
    states, events := OneJobRun();
    Extend(states, events, e, OneBusyWorker());
    states, events := states + [OneBusyWorker()], events + [e];
  }

  lemma DestroyStrandedSteps() returns (s4: State, s5: State)
    ensures Enabled(OneBusyWorker(), Destroy) && Apply(OneBusyWorker(), Destroy) == s4
    ensures Internal(s4, JobExits(7, Choice(0, 0, true))) && Apply(s4, JobExits(7, Choice(0, 0, true))) == s5
    ensures s5.destroyer == OnWaitCv(false) && s5.workers == map[] && s5.waiters == map[] && s5.queue != []
  {
    s4 := Apply(OneBusyWorker(), Destroy);
    assert s4.workers == map[7 := Running(0)];
    s5 := Apply(s4, JobExits(7, Choice(0, 0, true)));
    assert s5.workers == map[];
  }

  /** A run of that kind: destroy finds one job running and one queued, and is never woken. */
  lemma DestroyStranded()
    ensures exists states: seq<State>, events :: PoolRun(states, events) && |events| == 5 && events[3] == Destroy &&
              LeftAlone(states, events, 4) && Quiescent(states[5]) &&
              states[5].destroyer == OnWaitCv(false) && states[5].workers == map[] && states[5].queue != []
  {
    var before, calls := OneBusyWorkerRun();
    var s4, s5 := DestroyStrandedSteps();
    var states, events := before + [s4, s5], calls + [Destroy, JobExits(7, Choice(0, 0, true))];
    forall i | 0 <= i < |events| ensures Enabled(states[i], events[i]) && states[i + 1] == Apply(states[i], events[i]) {
      assert i < 3 ==> states[i] == before[i] && states[i + 1] == before[i + 1] && events[i] == calls[i];
    }
    assert PoolRun(states, events);
  }
}
