/**
 What every critical section of the thread pool keeps.
 Each lemma `...Keeps` handles one piece of a critical section; they meet in StepKeeps.
 */
module PoolInvariant {
  import opened PoolModel
  import opened Sequences
  import opened Wrappers

  ghost function IdleSet(ws: map<Tid, Worker>): set<Tid> {
    set t | t in ws && ws[t].Idle()
  }

  ghost function WokenSet(ws: map<Tid, Worker>): set<Tid> {
    set t | t in ws && ws[t].Woken?
  }

  ghost predicate Runs(ws: map<Tid, Worker>, t: Tid, j: nat) {
    t in ws && ws[t] == Running(j)
  }

  ghost predicate IsRunning(ws: map<Tid, Worker>, t: Tid) {
    t in ws && ws[t].Running?
  }

  ghost predicate BeingRun(ws: map<Tid, Worker>, j: nat) {
    exists t :: Runs(ws, t, j)
  }

  ghost predicate SomeAsleep(ws: map<Tid, Worker>) {
    exists t :: IsAsleep(ws, t)
  }

  ghost predicate HasWork(s: State) {
    s.queue != [] || s.active != []
  }

  /** The counters agree with the threads. */
  ghost predicate Counts(s: State) {
    && s.nthreads == |s.workers|
    && s.idle == |IdleSet(s.workers)|
    && (s.nthreads <= s.maximum || s.nthreads == 0)
  }

  /** The active list is exactly the running workers, each once. */
  ghost predicate ActiveList(s: State) {
    && (forall t :: t in s.active <==> IsRunning(s.workers, t))
    && Distinct(s.active)
  }

  /** Every job is queued, or running on exactly one worker, or finished; jobs start in order. */
  ghost predicate JobAccount(s: State) {
    && s.started <= |s.submitted|
    && s.queue == s.submitted[s.started..]
    && (forall j :: j in s.finished ==> j < s.started)
    && (forall t, j: nat :: Runs(s.workers, t, j) ==> j < s.started && j !in s.finished)
    && (forall t, u, j: nat :: Runs(s.workers, t, j) && Runs(s.workers, u, j) ==> t == u)
    && (forall j: nat :: j < s.started ==> j in s.finished || BeingRun(s.workers, j))
  }

  /** While a worker sleeps, every queued job has a woken worker of its own. */
  ghost predicate Handoff(s: State) {
    !s.destroy && SomeAsleep(s.workers) ==> |s.queue| <= |WokenSet(s.workers)|
  }

  /** Nobody sleeps on pool_waitcv without a flag that promises a broadcast and work that will end. */
  ghost predicate WaitersCovered(s: State) {
    && (forall c :: c in s.waiters && !s.waiters[c] ==> s.wait && HasWork(s))
    && (s.destroyer == OnWaitCv(false) ==> s.wait && HasWork(s))
  }

  ghost predicate DestroyerOk(s: State) {
    && (s.destroy <==> s.destroyer != NotCalled)
    && (s.destroy ==> !SomeAsleep(s.workers))
    && (s.destroyer.OnBusyCv? || s.destroyer == Done ==> s.active == [])
    && (s.destroyer == OnBusyCv(false) ==> s.nthreads > 0)
    && (s.destroyer == Done ==> s.nthreads == 0)
  }

  ghost predicate Served(s: State) {
    !s.createFailed && s.maximum >= 1 && !s.destroy && s.queue != [] ==> s.nthreads > 0
  }

  ghost predicate Inv(s: State) {
    Counts(s) && ActiveList(s) && JobAccount(s) && Handoff(s) && WaitersCovered(s) &&
    DestroyerOk(s) && Served(s)
  }

  /** Nobody is inside a critical section. */
  ghost predicate AtRest(s: State) {
    forall t :: t in s.workers ==> !s.workers[t].Holding?
  }

  ghost predicate OnlyHolder(s: State, t: Tid) {
    forall u :: u in s.workers && u != t ==> !s.workers[u].Holding?
  }

  // ----- small facts -----

  lemma IdleAfterUpdate(ws: map<Tid, Worker>, t: Tid, w: Worker)
    ensures |IdleSet(ws[t := w])| ==
            |IdleSet(ws)| + (if w.Idle() then 1 else 0) - (if t in ws && ws[t].Idle() then 1 else 0)
  {
    assert IdleSet(ws[t := w]) == if w.Idle() then IdleSet(ws) + {t} else IdleSet(ws) - {t};
  }

  lemma WokenAfterUpdate(ws: map<Tid, Worker>, t: Tid, w: Worker)
    ensures |WokenSet(ws[t := w])| ==
            |WokenSet(ws)| + (if w.Woken? then 1 else 0) - (if t in ws && ws[t].Woken? then 1 else 0)
  {
    assert WokenSet(ws[t := w]) == if w.Woken? then WokenSet(ws) + {t} else WokenSet(ws) - {t};
  }

  /** How the counts and the classes of workers change when one worker moves. */
  lemma AfterUpdate(ws: map<Tid, Worker>, t: Tid, w: Worker)
    ensures |IdleSet(ws[t := w])| ==
            |IdleSet(ws)| + (if w.Idle() then 1 else 0) - (if t in ws && ws[t].Idle() then 1 else 0)
    ensures |WokenSet(ws[t := w])| ==
            |WokenSet(ws)| + (if w.Woken? then 1 else 0) - (if t in ws && ws[t].Woken? then 1 else 0)
    ensures |ws[t := w]| == |ws| + (if t in ws then 0 else 1)
    ensures SomeAsleep(ws[t := w]) && !w.Asleep? ==> SomeAsleep(ws)
    ensures !w.Running? && !IsRunning(ws, t) ==> forall u, j: nat :: Runs(ws[t := w], u, j) <==> Runs(ws, u, j)
  {
    IdleAfterUpdate(ws, t, w);
    WokenAfterUpdate(ws, t, w);
    if SomeAsleep(ws[t := w]) && !w.Asleep? {
      var u :| IsAsleep(ws[t := w], u);
      assert IsAsleep(ws, u);
    }
  }

  lemma AfterRemoval(ws: map<Tid, Worker>, t: Tid)
    requires t in ws && ws[t].Holding?
    ensures |IdleSet(ws - {t})| == |IdleSet(ws)| && |WokenSet(ws - {t})| == |WokenSet(ws)|
    ensures |ws - {t}| == |ws| - 1
    ensures SomeAsleep(ws - {t}) ==> SomeAsleep(ws)
    ensures forall u, j: nat :: Runs(ws - {t}, u, j) <==> Runs(ws, u, j)
  {
    assert IdleSet(ws - {t}) == IdleSet(ws);
    assert WokenSet(ws - {t}) == WokenSet(ws);
    assert (ws - {t}).Keys == ws.Keys - {t};
    if SomeAsleep(ws - {t}) {
      var u :| IsAsleep(ws - {t}, u);
      assert IsAsleep(ws, u);
    }
  }

  lemma {:induction false} WithoutRemoves(ts: seq<Tid>, t: Tid)
    requires Distinct(ts)
    ensures forall u :: u in Without(ts, t) <==> u in ts && u != t
    ensures Distinct(Without(ts, t))
  {
    if ts != [] {
      WithoutRemoves(ts[1..], t);
      assert ts == [ts[0]] + ts[1..];
      assert ts[0] !in ts[1..];
    }
  }

  /** Steps that move no job keep the account and the active list. */
  lemma JobsFrame(s: State, s': State)
    requires ActiveList(s) && JobAccount(s)
    requires s'.submitted == s.submitted && s'.started == s.started && s'.finished == s.finished
    requires s'.queue == s.queue && s'.active == s.active
    requires forall t, j: nat :: Runs(s'.workers, t, j) <==> Runs(s.workers, t, j)
    ensures ActiveList(s') && JobAccount(s')
  {
    forall t ensures IsRunning(s'.workers, t) <==> IsRunning(s.workers, t) {
      if IsRunning(s.workers, t) { assert Runs(s.workers, t, s.workers[t].job); }
      if IsRunning(s'.workers, t) { assert Runs(s'.workers, t, s'.workers[t].job); }
    }
    forall j: nat ensures BeingRun(s'.workers, j) <==> BeingRun(s.workers, j) {
      if BeingRun(s.workers, j) { var t :| Runs(s.workers, t, j); assert Runs(s'.workers, t, j); }
    }
  }

  // ----- pieces of a critical section -----

  lemma CreateKeeps(s: State, ch: Choice)
    requires Counts(s) && ActiveList(s) && JobAccount(s) && Handoff(s) && WaitersCovered(s) && DestroyerOk(s)
    requires ch.child !in s.workers && s.nthreads < s.maximum && s.destroyer != Done
    ensures Inv(CreateWorker(s, ch))
  {
    AfterUpdate(s.workers, ch.child, Starting);
    JobsFrame(s, CreateWorker(s, ch));
  }

  lemma WorkerCleanupKeeps(s: State, t: Tid, ch: Choice)
    requires Inv(s) && t in s.workers && s.workers[t].Holding? && ch.child !in s.workers
    requires s.destroyer != Done
    ensures Inv(WorkerCleanup(s, t, ch))
    ensures OnlyHolder(s, t) ==> AtRest(WorkerCleanup(s, t, ch))
  {
    var s1 := s.(workers := s.workers - {t}, nthreads := s.nthreads - 1);
    AfterRemoval(s.workers, t);
    JobsFrame(s, s1);
    if !s1.destroy && s1.queue != [] && s1.nthreads < s1.maximum {
      CreateKeeps(s1, ch);
    }
  }

  lemma NotifyKeeps(s: State)
    requires Counts(s) && ActiveList(s) && JobAccount(s) && Handoff(s) && DestroyerOk(s) && Served(s)
    requires WaitersCovered(s) || (s.wait && !HasWork(s))
    ensures Inv(NotifyWaiters(s))
  {
    var s1 := NotifyWaiters(s);
    JobsFrame(s, s1);
    assert WaitersCovered(s1);
  }

  /** The end of a job moves it from running to finished. */
  lemma FinishAccount(s: State, t: Tid, s': State)
    requires JobAccount(s) && ActiveList(s) && IsRunning(s.workers, t)
    requires s' == s.(finished := s.finished + {s.workers[t].job}, active := Without(s.active, t),
                      workers := s.workers[t := Holding])
    ensures JobAccount(s') && ActiveList(s')
  {
    var k := s.workers[t].job;
    assert Runs(s.workers, t, k);
    assert forall u, j: nat :: Runs(s'.workers, u, j) <==> Runs(s.workers, u, j) && u != t;
    forall j: nat | j < s.started ensures j in s'.finished || BeingRun(s'.workers, j) {
      if j !in s'.finished {
        var u :| Runs(s.workers, u, j);
        assert Runs(s'.workers, u, j);
      }
    }
    WithoutRemoves(s.active, t);
    assert forall u :: IsRunning(s'.workers, u) <==> IsRunning(s.workers, u) && u != t;
  }

  lemma JobCleanupKeeps(s: State, t: Tid)
    requires Inv(s) && IsRunning(s.workers, t)
    ensures Inv(JobCleanup(s, t))
  {
    var s1 := s.(finished := s.finished + {s.workers[t].job}, active := Without(s.active, t),
                 workers := s.workers[t := Holding]);
    AfterUpdate(s.workers, t, Holding);
    FinishAccount(s, t, s1);
    assert t in s.active;
    if s1.wait {
      NotifyKeeps(s1);
    }
  }

  lemma EnterIdleKeeps(s: State, t: Tid)
    requires Inv(s) && t in s.workers && (s.workers[t].Holding? || s.workers[t].Starting?)
    ensures Inv(EnterIdle(s, t))
  {
    var s1 := s.(idle := s.idle + 1, workers := s.workers[t := Woken(false)]);
    AfterUpdate(s.workers, t, Woken(false));
    JobsFrame(s, s1);
    if s1.wait {
      NotifyKeeps(s1);
    }
  }

  lemma LeaveIdleKeeps(s: State, t: Tid)
    requires Inv(s) && t in s.workers && s.workers[t].Woken? && (s.destroy || s.queue == [])
    ensures Inv(LeaveIdle(s, t))
  {
    AfterUpdate(s.workers, t, Holding);
    JobsFrame(s, LeaveIdle(s, t));
  }

  /** Taking a job moves the head of the queue to running. */
  lemma TakeAccount(s: State, t: Tid)
    requires JobAccount(s) && ActiveList(s) && t in s.workers && s.workers[t].Woken? && s.queue != []
    ensures JobAccount(TakeJob(s, t)) && ActiveList(TakeJob(s, t))
  {
    var s1 := TakeJob(s, t);
    assert forall u, j: nat :: Runs(s1.workers, u, j) <==> Runs(s.workers, u, j) || (u == t && j == s.started);
    assert Runs(s1.workers, t, s.started);
    forall j: nat | j < s1.started ensures j in s1.finished || BeingRun(s1.workers, j) {
      if j < s.started && j !in s.finished {
        var u :| Runs(s.workers, u, j);
        assert Runs(s1.workers, u, j);
      }
    }
    assert !IsRunning(s.workers, t);
    assert forall u :: IsRunning(s1.workers, u) <==> IsRunning(s.workers, u) || u == t;
  }

  lemma TakeJobKeeps(s: State, t: Tid)
    requires Inv(s) && t in s.workers && s.workers[t].Woken? && !s.destroy && s.queue != []
    ensures Inv(TakeJob(s, t))
  {
    AfterUpdate(s.workers, t, Running(s.started));
    TakeAccount(s, t);
  }

  lemma SleepKeeps(s: State, t: Tid, timed: bool)
    requires Inv(s) && t in s.workers && s.workers[t].Woken? && !s.destroy && s.queue == []
    ensures Inv(s.(workers := s.workers[t := Asleep(timed)]))
  {
    AfterUpdate(s.workers, t, Asleep(timed));
    JobsFrame(s, s.(workers := s.workers[t := Asleep(timed)]));
  }

  lemma WakeKeeps(s: State, t: Tid)
    requires Inv(s) && t in s.workers && s.workers[t].Idle()
    ensures Inv(s.(workers := s.workers[t := Woken(s.workers[t].timed)]))
  {
    var w := Woken(s.workers[t].timed);
    AfterUpdate(s.workers, t, w);
    JobsFrame(s, s.(workers := s.workers[t := w]));
  }

  // ----- the worker's loop -----

  lemma LoopTopKeeps(s: State, t: Tid, ch: Choice)
    requires Inv(s) && t in s.workers && (s.workers[t].Holding? || s.workers[t].Starting?)
    requires OnlyHolder(s, t) && ch.child !in s.workers && s.destroyer != Done
    ensures Inv(LoopTop(s, t, ch)) && AtRest(LoopTop(s, t, ch))
    decreases 1
  {
    EnterIdleKeeps(s, t);
    WaitTestKeeps(EnterIdle(s, t), t, ch);
  }

  lemma WaitTestKeeps(s: State, t: Tid, ch: Choice)
    requires Inv(s) && t in s.workers && s.workers[t].Woken?
    requires OnlyHolder(s, t) && ch.child !in s.workers && s.destroyer != Done
    ensures Inv(WaitTest(s, t, ch)) && AtRest(WaitTest(s, t, ch))
    decreases 1, 0
  {
    if s.queue == [] && !s.destroy {
      if s.nthreads <= s.minimum {
        SleepKeeps(s, t, false);
      } else if s.linger == 0 {
        AfterWaitKeeps(s, t, true, ch);
      } else {
        SleepKeeps(s, t, true);
      }
    } else {
      AfterWaitKeeps(s, t, false, ch);
    }
  }

  lemma AfterWaitKeeps(s: State, t: Tid, timedOut: bool, ch: Choice)
    requires Inv(s) && t in s.workers && s.workers[t].Woken?
    requires OnlyHolder(s, t) && ch.child !in s.workers && s.destroyer != Done
    ensures Inv(AfterWait(s, t, timedOut, ch)) && AtRest(AfterWait(s, t, timedOut, ch))
    decreases if s.destroy || s.queue != [] || (timedOut && s.nthreads > s.minimum) then 0 else 2
  {
    if !s.destroy && s.queue != [] {
      TakeJobKeeps(s, t);
    } else {
      LeaveIdleKeeps(s, t);
      if s.destroy || (timedOut && s.nthreads > s.minimum) {
        WorkerCleanupKeeps(LeaveIdle(s, t), t, ch);
      } else {
        LoopTopKeeps(LeaveIdle(s, t), t, ch);
      }
    }
  }

  // ----- the clients -----

  lemma AppendAccount(s: State, job: Job)
    requires JobAccount(s) && ActiveList(s)
    ensures JobAccount(s.(queue := s.queue + [job], submitted := s.submitted + [job]))
    ensures ActiveList(s.(queue := s.queue + [job], submitted := s.submitted + [job]))
  {
  }

  lemma SignalKeeps(s: State, job: Job, t: Tid)
    requires Inv(s) && IsAsleep(s.workers, t)
    ensures Inv(SignalWork(s.(queue := s.queue + [job], submitted := s.submitted + [job]), t))
  {
    var s1 := s.(queue := s.queue + [job], submitted := s.submitted + [job]);
    AppendAccount(s, job);
    AfterUpdate(s.workers, t, Woken(s.workers[t].timed));
    JobsFrame(s1, SignalWork(s1, t));
    assert SomeAsleep(s.workers);
    assert t in s.workers.Keys;
  }

  lemma SleepersAreIdle(s: State)
    requires Counts(s)
    ensures SomeAsleep(s.workers) ==> s.idle > 0
    ensures s.idle > 0 ==> s.nthreads > 0
  {
    if SomeAsleep(s.workers) {
      var t :| IsAsleep(s.workers, t);
      assert t in IdleSet(s.workers);
    }
    if s.idle > 0 {
      var t :| t in IdleSet(s.workers);
      assert t in s.workers.Keys;
    }
  }

  lemma QueueKeeps(s: State, job: Job, ch: Choice)
    requires Inv(s) && ChoiceOk(s, ch) && s.destroyer != Done
    ensures Inv(QueueJob(s, job, ch))
  {
    var s1 := s.(queue := s.queue + [job], submitted := s.submitted + [job]);
    AppendAccount(s, job);
    if s.idle > 0 && IsAsleep(s.workers, ch.sleeper) {
      SignalKeeps(s, job, ch.sleeper);
    } else {
      SleepersAreIdle(s);
      if s.idle == 0 && s.nthreads < s.maximum {
        CreateKeeps(s1, ch);
      }
    }
  }

  lemma WaitLoopKeeps(s: State, c: Client)
    requires Inv(s)
    ensures Inv(WaitLoop(s, c))
  {
    JobsFrame(s, WaitLoop(s, c));
  }

  lemma DestroyKeeps(s: State)
    requires Inv(s) && s.destroyer.NotCalled?
    ensures Inv(DestroyWaitLoop(BroadcastWork(s.(destroy := true))))
  {
    var s1 := BroadcastWork(s.(destroy := true));
    assert s1.workers.Keys == s.workers.Keys;
    assert |s1.workers| == |s1.workers.Keys| && |s.workers| == |s.workers.Keys|;
    assert IdleSet(s1.workers) == IdleSet(s.workers);
    JobsFrame(s, DestroyWaitLoop(s1));
  }

  lemma DestroyResumeKeeps(s: State)
    requires Inv(s) && (s.destroyer.OnWaitCv? || s.destroyer.OnBusyCv?)
    ensures s.destroyer.OnWaitCv? ==> Inv(DestroyWaitLoop(s))
    ensures s.destroyer.OnBusyCv? ==> Inv(DestroyBusyLoop(s))
  {
    JobsFrame(s, if s.destroyer.OnWaitCv? then DestroyWaitLoop(s) else DestroyBusyLoop(s));
  }

  // ----- every step, every run -----

  lemma InitKeeps(s: State)
    requires Initial(s)
    ensures Inv(s) && AtRest(s)
  {
    assert IdleSet(s.workers) == {};
  }

  lemma ResumeKeeps(s: State, t: Tid, timedOut: bool, ch: Choice)
    requires Inv(s) && AtRest(s) && Enabled(s, Resume(t, timedOut, ch))
    ensures Inv(Apply(s, Resume(t, timedOut, ch))) && AtRest(Apply(s, Resume(t, timedOut, ch)))
  {
    WakeKeeps(s, t);
    var s1 := s.(workers := s.workers[t := Woken(s.workers[t].timed)]);
    if timedOut {
      AfterWaitKeeps(s1, t, true, ch);
    } else {
      WaitTestKeeps(s1, t, ch);
    }
  }

  lemma JobReturnsKeeps(s: State, t: Tid, ch: Choice)
    requires Inv(s) && AtRest(s) && Enabled(s, JobReturns(t, ch))
    ensures Inv(Apply(s, JobReturns(t, ch))) && AtRest(Apply(s, JobReturns(t, ch)))
  {
    JobCleanupKeeps(s, t);
    LoopTopKeeps(JobCleanup(s, t), t, ch);
  }

  lemma JobExitsKeeps(s: State, t: Tid, ch: Choice)
    requires Inv(s) && AtRest(s) && Enabled(s, JobExits(t, ch))
    ensures Inv(Apply(s, JobExits(t, ch))) && AtRest(Apply(s, JobExits(t, ch)))
  {
    JobCleanupKeeps(s, t);
    WorkerCleanupKeeps(JobCleanup(s, t), t, ch);
  }

  lemma DestroyStepKeeps(s: State, e: Event)
    requires Inv(s) && AtRest(s) && Enabled(s, e) && (e.Destroy? || e.DestroyResume?)
    ensures Inv(Apply(s, e)) && AtRest(Apply(s, e))
  {
    if e.Destroy? {
      DestroyKeeps(s);
    } else {
      DestroyResumeKeeps(s);
    }
  }

  ghost predicate ByClient(e: Event) {
    !e.Start? && !e.Resume? && !e.JobReturns? && !e.JobExits?
  }

  lemma ClientStepKeeps(s: State, e: Event)
    requires Inv(s) && AtRest(s) && Enabled(s, e) && ByClient(e)
    ensures Inv(Apply(s, e)) && AtRest(Apply(s, e))
  {
    match e
    case Queue(job, ch) => QueueKeeps(s, job, ch);
    case Wait(c) => WaitLoopKeeps(s, c);
    case WaitResume(c) => WaitLoopKeeps(s, c);
    case _ => DestroyStepKeeps(s, e);
  }

  /** Every critical section keeps the invariant. */
  lemma StepKeeps(s: State, e: Event)
    requires Inv(s) && AtRest(s) && Enabled(s, e)
    ensures Inv(Apply(s, e)) && AtRest(Apply(s, e))
  {
    if ByClient(e) {
      ClientStepKeeps(s, e);
    } else {
      match e
      case Start(t, ch) => LoopTopKeeps(s, t, ch);
      case Resume(t, timedOut, ch) => ResumeKeeps(s, t, timedOut, ch);
      case JobReturns(t, ch) => JobReturnsKeeps(s, t, ch);
      case JobExits(t, ch) => JobExitsKeeps(s, t, ch);
    }
  }

  /** Every state of every run that begins in a good state is good. */
  lemma {:induction false} RunKeeps(states: seq<State>, events: seq<Event>, i: nat)
    requires IsRun(states, events) && Inv(states[0]) && AtRest(states[0]) && i < |states|
    ensures Inv(states[i]) && AtRest(states[i])
  {
    if i > 0 {
      RunKeeps(states, events, i - 1);
      StepKeeps(states[i - 1], events[i - 1]);
    }
  }
}
