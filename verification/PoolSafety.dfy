/**
 What holds in every run of the thread pool: no stuck work, job accounting, the
 promises of thr_pool_wait, of thr_pool_destroy and of the thread counts.
 */
module PoolSafety {
  import opened PoolModel
  import opened PoolInvariant
  import opened Sequences
  import opened Wrappers

  /** A run of the pool from its creation. */
  ghost predicate PoolRun(states: seq<State>, events: seq<Event>) {
    IsRun(states, events) && Initial(states[0])
  }

  ghost predicate SomeAwake(ws: map<Tid, Worker>) {
    exists t :: t in ws && !ws[t].Asleep?
  }

  lemma Extend(states: seq<State>, events: seq<Event>, e: Event, s: State)
    requires PoolRun(states, events) && Enabled(states[|events|], e) && Apply(states[|events|], e) == s
    ensures PoolRun(states + [s], events + [e])
  {
  }

  lemma PoolRunKeeps(states: seq<State>, events: seq<Event>, i: nat)
    requires PoolRun(states, events) && i < |states|
    ensures Inv(states[i]) && AtRest(states[i])
  {
    InitKeeps(states[0]);
    RunKeeps(states, events, i);
  }

  // ----- no stuck work -----

  lemma AwakeWhenQueued(s: State)
    requires Inv(s) && !s.destroy && s.queue != []
    ensures SomeAwake(s.workers) <==> s.nthreads > 0
  {
    if s.nthreads > 0 {
      assert s.workers.Keys != {};
      var t :| t in s.workers;
      if IsAsleep(s.workers, t) {
        assert SomeAsleep(s.workers);
        var u :| u in WokenSet(s.workers);
        assert u in s.workers && !s.workers[u].Asleep?;
      }
    }
    if SomeAwake(s.workers) {
      var t :| t in s.workers && !s.workers[t].Asleep?;
      assert t in s.workers.Keys;
    }
  }

  /** While the pool is not being destroyed, queued work finds an awake worker exactly when the
      pool has a worker at all; and it has one unless pthread_create failed. */
  lemma NoStuckWork(states: seq<State>, events: seq<Event>, i: nat)
    requires PoolRun(states, events) && i < |states|
    requires !states[i].destroy && states[i].queue != []
    ensures SomeAwake(states[i].workers) <==> states[i].nthreads > 0
    ensures !states[i].createFailed && states[i].maximum >= 1 ==> SomeAwake(states[i].workers)
  {
    PoolRunKeeps(states, events, i);
    AwakeWhenQueued(states[i]);
  }

  /** While some worker sleeps, the woken workers are at least as many as the queued jobs:
      a signal that finds no sleeper, or that races with a time-out, is not lost. */
  lemma EveryQueuedJobHasAWorker(states: seq<State>, events: seq<Event>, i: nat)
    requires PoolRun(states, events) && i < |states|
    requires !states[i].destroy && SomeAsleep(states[i].workers)
    ensures |states[i].queue| <= |WokenSet(states[i].workers)|
  {
    PoolRunKeeps(states, events, i);
  }

  /** The failing case is real: a pool whose only create_worker failed keeps its job and has no worker. */
  lemma FailedCreateLeavesWork()
    ensures exists states: seq<State>, events :: PoolRun(states, events) && |events| == 1 &&
              states[1].queue != [] && states[1].nthreads == 0
  {
    var s := Create(0, 1, 0).value;
    var e := Queue(Job(0, 0), Choice(0, 0, false));
    var states := [s, Apply(s, e)];
    var events := [e];
    assert PoolRun(states, events) && |events| == 1 && states[1].queue != [] && states[1].nthreads == 0;
  }

  /** Which arguments are accepted, and how a new pool stores them: up to 2^31 as they are.  A larger maximum is
      stored as a negative number, and no worker is ever created.  The pool has no workers and no jobs. */
  lemma ArgumentsStored(min: nat, max: nat, linger: nat)
    requires min < 0x1_0000_0000 && max < 0x1_0000_0000
    ensures Create(min, max, linger).Some? <==> min <= max && max >= 1
    ensures Create(min, max, linger).Some? ==>
              var s := Create(min, max, linger).value;
              StoredAs(min, s.minimum) && StoredAs(max, s.maximum) && s.linger == linger &&
              (s.maximum >= 1 <==> max < 0x8000_0000) &&
              s.nthreads == 0 && s.queue == [] && !s.wait && !s.destroy && !s.createFailed
  {
  }

  ghost function AsleepSet(ws: map<Tid, Worker>): set<Tid> {
    set t | t in ws && IsAsleep(ws, t)
  }

  ghost function AwakeCount(s: State): int {
    s.nthreads - |AsleepSet(s.workers)|
  }

  lemma AsleepAfterUpdate(ws: map<Tid, Worker>, t: Tid, w: Worker)
    requires !w.Asleep?
    ensures |AsleepSet(ws[t := w])| == |AsleepSet(ws)| - if IsAsleep(ws, t) then 1 else 0
  {
    assert AsleepSet(ws[t := w]) == AsleepSet(ws) - {t};
  }

  /** What one thr_pool_queue call wakes or creates: one more awake worker exactly when some worker
      sleeps, or nobody is idle and a thread could be created. */
  lemma QueueAwakens(s: State, job: Job, ch: Choice)
    requires Inv(s) && Enabled(s, Queue(job, ch))
    ensures AwakeCount(Apply(s, Queue(job, ch))) == AwakeCount(s) +
            if SomeAsleep(s.workers) || (s.idle == 0 && s.nthreads < s.maximum && ch.createOk) then 1 else 0
  {
    SleepersAreIdle(s);
    assert SomeAsleep(s.workers) <==> IsAsleep(s.workers, ch.sleeper);
    if IsAsleep(s.workers, ch.sleeper) {
      AsleepAfterUpdate(s.workers, ch.sleeper, Woken(s.workers[ch.sleeper].timed));
    } else {
      AsleepAfterUpdate(s.workers, ch.child, Starting);
    }
  }

  /** Its job goes to the end of the queue. */
  lemma QueueAppends(s: State, job: Job, ch: Choice)
    requires Enabled(s, Queue(job, ch))
    ensures Apply(s, Queue(job, ch)).queue == s.queue + [job]
  {
  }

  // ----- job accounting -----

  /** Each job ever queued is in exactly one place: in the queue at its turn,
      running on exactly one worker, or finished. */
  lemma JobsAccounted(states: seq<State>, events: seq<Event>, i: nat, j: nat)
    requires PoolRun(states, events) && i < |states| && j < |states[i].submitted|
    ensures var s := states[i];
            if j >= s.started then
              j - s.started < |s.queue| && s.queue[j - s.started] == s.submitted[j] &&
              j !in s.finished && !BeingRun(s.workers, j)
            else
              (j in s.finished <==> !BeingRun(s.workers, j))
    ensures forall t, u :: Runs(states[i].workers, t, j) && Runs(states[i].workers, u, j) ==> t == u
  {
    PoolRunKeeps(states, events, i);
  }

  /** |active| + idle <= nthreads <= maximum, and the active list is the running workers; with a maximum
      that was stored as a negative number there is never a worker. */
  lemma ThreadsAccounted(states: seq<State>, events: seq<Event>, i: nat)
    requires PoolRun(states, events) && i < |states|
    ensures var s := states[i];
            |s.active| + s.idle <= s.nthreads && (s.nthreads <= s.maximum || s.nthreads == 0) &&
            s.nthreads == |s.workers| &&
            (forall t :: t in s.active <==> IsRunning(s.workers, t)) &&
            Distinct(s.active)
    ensures states[i].maximum < 1 ==> states[i].nthreads == 0
  {
    PoolRunKeeps(states, events, i);
    var s := states[i];
    var running := Members(s.active);
    DistinctCount(s.active);
    assert running !! IdleSet(s.workers);
    assert running + IdleSet(s.workers) <= s.workers.Keys by {
      assert forall t :: t in s.active ==> IsRunning(s.workers, t);
    }
    SubsetCount(running + IdleSet(s.workers), s.workers.Keys);
    assert |s.workers| == |s.workers.Keys|;
    assert |running + IdleSet(s.workers)| == |running| + |IdleSet(s.workers)|;
  }

  // ----- what steps change -----

  /** The parts of the history, and the request to destroy, only grow; the limits never change. */
  ghost predicate Later(s: State, s': State) {
    && s.submitted <= s'.submitted
    && s.started <= s'.started
    && s.finished <= s'.finished
    && (s.destroy ==> s'.destroy && s'.started == s.started)
    && s'.minimum == s.minimum && s'.maximum == s.maximum && s'.linger == s.linger
  }

  /** What the worker's loop may do to the pool before it gives up the mutex. */
  ghost predicate LoopEffect(s: State, t: Tid, s': State) {
    && Later(s, s') && s'.submitted == s.submitted && s'.finished == s.finished && s'.destroy == s.destroy
    && s'.waiters.Keys == s.waiters.Keys
    && (forall u, j: nat :: Runs(s'.workers, u, j) && !Runs(s.workers, u, j) ==>
          u == t && j == s.started && s.queue != [] && !s.destroy)
    && (!s.destroy && s'.nthreads < s.nthreads ==> s'.nthreads >= s.minimum)
  }

  lemma LoopTopEffect(s: State, t: Tid, ch: Choice)
    ensures LoopEffect(s, t, LoopTop(s, t, ch))
    decreases 1
  {
    WaitTestEffect(EnterIdle(s, t), t, ch);
  }

  lemma WaitTestEffect(s: State, t: Tid, ch: Choice)
    ensures LoopEffect(s, t, WaitTest(s, t, ch))
    decreases 1, 0
  {
    if s.queue == [] && !s.destroy {
      if s.nthreads > s.minimum && s.linger == 0 {
        AfterWaitEffect(s, t, true, ch);
      }
    } else {
      AfterWaitEffect(s, t, false, ch);
    }
  }

  lemma LeaveEffect(s: State, t: Tid, ch: Choice)
    requires s.destroy || s.nthreads > s.minimum
    ensures LoopEffect(s, t, WorkerCleanup(LeaveIdle(s, t), t, ch))
  {
  }

  lemma AfterWaitEffect(s: State, t: Tid, timedOut: bool, ch: Choice)
    ensures LoopEffect(s, t, AfterWait(s, t, timedOut, ch))
    decreases if s.destroy || s.queue != [] || (timedOut && s.nthreads > s.minimum) then 0 else 2
  {
    if !s.destroy && s.queue != [] {
    } else if s.destroy || (timedOut && s.nthreads > s.minimum) {
      LeaveEffect(s, t, ch);
    } else {
      LoopTopEffect(LeaveIdle(s, t), t, ch);
    }
  }

  lemma WorkerStepEffect(s: State, e: Event)
    requires Enabled(s, e) && (e.Start? || e.Resume? || e.JobReturns?)
    ensures Later(s, Apply(s, e)) && Apply(s, e).submitted == s.submitted
    ensures Apply(s, e).waiters.Keys == s.waiters.Keys
    ensures forall u, j: nat :: Runs(Apply(s, e).workers, u, j) && !Runs(s.workers, u, j) ==>
              j == s.started && s.queue != [] && !s.destroy
    ensures !s.destroy && Apply(s, e).nthreads < s.nthreads ==> Apply(s, e).nthreads >= s.minimum
  {
    if e.Start? {
      LoopTopEffect(s, e.t, e.ch);
    } else if e.JobReturns? {
      LoopTopEffect(JobCleanup(s, e.t), e.t, e.ch);
    } else {
      var s1 := s.(workers := s.workers[e.t := Woken(s.workers[e.t].timed)]);
      if e.timedOut {
        AfterWaitEffect(s1, e.t, true, e.ch);
      } else {
        WaitTestEffect(s1, e.t, e.ch);
      }
    }
  }

  lemma ClientStepLater(s: State, e: Event)
    requires Enabled(s, e) && ByClient(e)
    ensures Later(s, Apply(s, e))
  {
    if e.Queue? {
      assert s.submitted <= QueueJob(s, e.job, e.ch).submitted;
    }
  }

  lemma StepLater(s: State, e: Event)
    requires Enabled(s, e)
    ensures Later(s, Apply(s, e))
  {
    if e.Start? || e.Resume? || e.JobReturns? {
      WorkerStepEffect(s, e);
    } else if !e.JobExits? {
      ClientStepLater(s, e);
    }
  }

  lemma {:induction false} RunLater(states: seq<State>, events: seq<Event>, i: nat, k: nat)
    requires IsRun(states, events) && i <= k < |states|
    ensures Later(states[i], states[k])
    decreases k - i
  {
    if i < k {
      StepLater(states[i], events[i]);
      RunLater(states, events, i + 1, k);
    }
  }

  lemma CleanupsStartNothing(s: State, t: Tid, ch: Choice)
    requires IsRunning(s.workers, t)
    ensures forall u, j: nat :: Runs(WorkerCleanup(JobCleanup(s, t), t, ch).workers, u, j) ==> Runs(s.workers, u, j)
  {
    var s1 := JobCleanup(s, t);
    assert forall u, j: nat :: Runs(s1.workers, u, j) ==> Runs(s.workers, u, j);
  }

  lemma QueueStartsNothing(s: State, job: Job, ch: Choice)
    ensures forall u, j: nat :: Runs(QueueJob(s, job, ch).workers, u, j) ==> Runs(s.workers, u, j)
  {
  }

  lemma OthersStartNothing(s: State, e: Event)
    requires Enabled(s, e) && !e.Start? && !e.Resume? && !e.JobReturns?
    ensures forall u, j: nat :: Runs(Apply(s, e).workers, u, j) ==> Runs(s.workers, u, j)
  {
    if e.JobExits? {
      CleanupsStartNothing(s, e.t, e.ch);
    } else if e.Queue? {
      QueueStartsNothing(s, e.job, e.ch);
    }
  }

  /** Jobs are started in the order in which they were queued. */
  lemma JobsStartInOrder(states: seq<State>, events: seq<Event>, i: nat, t: Tid, j: nat)
    requires PoolRun(states, events) && i < |events|
    requires Runs(states[i + 1].workers, t, j) && !Runs(states[i].workers, t, j)
    ensures j == states[i].started && !states[i].destroy
    ensures j < |states[i].submitted| && states[i].queue != [] && states[i].queue[0] == states[i].submitted[j]
  {
    PoolRunKeeps(states, events, i);
    var e := events[i];
    if e.Start? || e.Resume? || e.JobReturns? {
      WorkerStepEffect(states[i], e);
    } else {
      OthersStartNothing(states[i], e);
    }
  }

  // ----- thr_pool_wait -----

  /** A caller asleep in thr_pool_wait and not notified is covered by the flag, and there is work. */
  lemma WaiterIsCovered(states: seq<State>, events: seq<Event>, i: nat, c: Client)
    requires PoolRun(states, events) && i < |states|
    requires c in states[i].waiters && !states[i].waiters[c]
    ensures states[i].wait && (states[i].queue != [] || states[i].active != [])
  {
    PoolRunKeeps(states, events, i);
  }

  ghost predicate AllFinished(s: State) {
    forall j: nat :: j < |s.submitted| ==> j in s.finished
  }

  lemma NoWorkIsFinished(s: State)
    requires ActiveList(s) && JobAccount(s) && !HasWork(s)
    ensures AllFinished(s)
  {
    forall j: nat | j < |s.submitted| ensures j in s.finished {
      if BeingRun(s.workers, j) {
        var t :| Runs(s.workers, t, j);
        assert IsRunning(s.workers, t);
      }
    }
  }

  /** When thr_pool_wait returns, every job queued so far has finished. */
  lemma WaitReturnsAfterAllJobs(states: seq<State>, events: seq<Event>, i: nat, c: Client)
    requires PoolRun(states, events) && i < |events|
    requires events[i] == Wait(c) || events[i] == WaitResume(c)
    requires c !in states[i + 1].waiters
    ensures AllFinished(states[i + 1])
  {
    PoolRunKeeps(states, events, i + 1);
    NoWorkIsFinished(states[i + 1]);
  }

  // ----- thr_pool_destroy -----

  /** Once POOL_DESTROY is set it stays set, no job starts, and nobody can sleep on pool_workcv. */
  lemma NoJobStartsAfterDestroy(states: seq<State>, events: seq<Event>, i: nat, k: nat)
    requires PoolRun(states, events) && i <= k < |states| && states[i].destroy
    ensures states[k].destroy && states[k].started == states[i].started && !SomeAsleep(states[k].workers)
  {
    RunLater(states, events, i, k);
    PoolRunKeeps(states, events, k);
  }

  /** free(pool) is reached only with no live worker and an empty active list, and then every job has
      finished or is discarded with the queue. */
  lemma FreeFindsNoWorker(states: seq<State>, events: seq<Event>, i: nat)
    requires PoolRun(states, events) && i < |states| && states[i].destroyer == Done
    ensures states[i].workers == map[] && states[i].active == []
    ensures forall j: nat :: j < |states[i].submitted| ==> (j in states[i].finished <==> j < states[i].started)
  {
    PoolRunKeeps(states, events, i);
    var s := states[i];
    assert s.workers.Keys == {};
    forall j: nat | j < s.started ensures j in s.finished {
      assert !BeingRun(s.workers, j);
    }
  }

  /** The destroyer never sleeps un-notified on pool_busycv without threads; asleep un-notified on
      pool_waitcv with nothing active it has a non-empty queue in front of it. */
  lemma DestroyerIsCovered(states: seq<State>, events: seq<Event>, i: nat)
    requires PoolRun(states, events) && i < |states|
    ensures states[i].destroyer == OnBusyCv(false) ==> states[i].nthreads > 0
    ensures states[i].destroyer == OnWaitCv(false) && states[i].active == [] ==> states[i].queue != []
  {
    PoolRunKeeps(states, events, i);
  }

  lemma OnlyQueueSubmits(s: State, e: Event)
    requires Enabled(s, e) && !e.Queue?
    ensures Apply(s, e).submitted == s.submitted
  {
    if e.Start? || e.Resume? || e.JobReturns? {
      WorkerStepEffect(s, e);
    }
  }

  lemma {:induction false} NothingSubmitted(states: seq<State>, events: seq<Event>, i: nat, k: nat)
    requires IsRun(states, events) && i <= k < |states| && forall n :: i <= n < k ==> !events[n].Queue?
    ensures states[k].submitted == states[i].submitted
    decreases k - i
  {
    if i < k {
      OnlyQueueSubmits(states[i], events[i]);
      NothingSubmitted(states, events, i + 1, k);
    }
  }

  /** If the queue is empty when thr_pool_destroy is called and nothing is queued later, the destroyer
      never sleeps un-notified on pool_waitcv with nothing active, whatever else is called. */
  lemma DestroyerNotStranded(states: seq<State>, events: seq<Event>, d: nat, i: nat)
    requires PoolRun(states, events) && d < i < |states| && events[d] == Destroy && states[d].queue == []
    requires forall n :: d <= n < i ==> !events[n].Queue?
    ensures states[i].queue == []
    ensures states[i].destroyer == OnWaitCv(false) ==> states[i].active != []
  {
    PoolRunKeeps(states, events, d);
    PoolRunKeeps(states, events, i);
    assert states[d + 1] == Apply(states[d], Destroy);
    RunLater(states, events, d, d + 1);
    RunLater(states, events, d + 1, i);
    NothingSubmitted(states, events, d, i);
  }

  // ----- the minimum -----

  /** The one step that takes a pool below its minimum: at the minimum, a job calls pthread_exit, and its
      worker is not replaced, since nothing is queued or the replacement cannot be created. */
  ghost predicate ExitsAtMinimum(s: State, e: Event) {
    e.JobExits? && s.nthreads == s.minimum && (s.queue == [] || !e.ch.createOk)
  }

  /** A step keeps a live pool at its minimum exactly if it is not of that kind. */
  lemma StepKeepsMinimum(s: State, e: Event)
    requires Inv(s) && Enabled(s, e) && !Apply(s, e).destroy && s.nthreads >= s.minimum
    ensures Apply(s, e).nthreads >= s.minimum <==> !ExitsAtMinimum(s, e)
  {
    StepLater(s, e);
    if e.Start? || e.Resume? || e.JobReturns? {
      WorkerStepEffect(s, e);
    } else if e.JobExits? {
      assert e.t in s.workers.Keys;
    }
  }

  /** A live pool that has reached its minimum stays there exactly as long as no such step is taken. */
  lemma {:induction false} MinimumKept(states: seq<State>, events: seq<Event>, i: nat, k: nat)
    requires PoolRun(states, events) && i <= k < |states|
    requires states[i].nthreads >= states[i].minimum && !states[k].destroy
    ensures (forall n :: i <= n <= k ==> states[n].nthreads >= states[n].minimum) <==>
            (forall n :: i <= n < k ==> !ExitsAtMinimum(states[n], events[n]))
    decreases k - i
  {
    if i < k {
      PoolRunKeeps(states, events, i);
      RunLater(states, events, i + 1, k);
      StepKeepsMinimum(states[i], events[i]);
      StepLater(states[i], events[i]);
      if states[i + 1].nthreads >= states[i + 1].minimum {
        MinimumKept(states, events, i + 1, k);
      }
    }
  }

  /** Such a step is possible: a run in which a pool reaches its minimum, and a job's pthread_exit takes it below. */
  lemma ExitGoesBelowMinimum()
    ensures exists states: seq<State>, events :: PoolRun(states, events) && |events| == 3 &&
              states[1].nthreads >= states[1].minimum && ExitsAtMinimum(states[2], events[2]) &&
              !states[3].destroy && states[3].nthreads < states[3].minimum
  {
    var s0 := Create(1, 1, 0).value;
    var events := [Queue(Job(0, 0), Choice(0, 7, true)), Start(7, Choice(0, 0, true)), JobExits(7, Choice(0, 0, true))];
    var s1 := Apply(s0, events[0]);
    var s2 := Apply(s1, events[1]);
    assert s2 == TakeJob(EnterIdle(s1, 7), 7);
    assert s2.active == [7] && s2.queue == [];
    var s3 := Apply(s2, events[2]);
    var states := [s0, s1, s2, s3];
    assert PoolRun(states, events);
  }

  /** The minimum is not reached by creating the pool: workers come one by one with the jobs. */
  lemma MinimumNotReachedAtFirst()
    ensures exists states: seq<State>, events :: PoolRun(states, events) && |events| == 1 &&
              !states[1].createFailed && states[1].nthreads < states[1].minimum
  {
    var s := Create(2, 3, 0).value;
    var e := Queue(Job(0, 0), Choice(0, 0, true));
    var states := [s, Apply(s, e)];
    var events := [e];
    assert PoolRun(states, events) && |events| == 1 &&
           !states[1].createFailed && states[1].nthreads < states[1].minimum;
  }
}
