/**
 What a worker does each time it gets the mutex, as one table: the loops of worker_thread with their tests,
 time-outs and turns come down to it.
 */
module PoolWorker {
  import opened PoolModel
  import opened PoolInvariant
  import opened PoolSafety

  datatype Move = Leaves | Takes | Sleeps(timed: bool)

  /** Under destruction a worker leaves; with a job in the queue it takes it; up to the minimum it sleeps
      without a time-out; and above it leaves if it has waited for the linger time, or need not wait. */
  function Decision(s: State, expired: bool): Move {
    if s.destroy then Leaves
    else if s.queue != [] then Takes
    else if s.nthreads <= s.minimum then Sleeps(false)
    else if expired || s.linger == 0 then Leaves
    else Sleeps(true)
  }

  /** Worker t has made its move, and all others are where they were. */
  ghost predicate Moved(s: State, t: Tid, move: Move, s': State) {
    && s'.nthreads == s.nthreads - (if move.Leaves? then 1 else 0)
    && s'.queue == (if move.Takes? && s.queue != [] then s.queue[1..] else s.queue)
    && s'.active == (if move.Takes? then [t] + s.active else s.active)
    && s'.submitted == s.submitted && s'.createFailed == s.createFailed && (s'.wait ==> s.wait)
    && s'.workers == match move
                     case Leaves => s.workers - {t}
                     case Takes => s.workers[t := Running(s.started)]
                     case Sleeps(timed) => s.workers[t := Asleep(timed)]
  }

  lemma LoopTopDecides(s: State, t: Tid, ch: Choice)
    ensures Moved(s, t, Decision(s, false), LoopTop(s, t, ch))
    decreases 1
  {
    WaitTestDecides(EnterIdle(s, t), t, ch);
  }

  lemma WaitTestDecides(s: State, t: Tid, ch: Choice)
    ensures Moved(s, t, Decision(s, false), WaitTest(s, t, ch))
    decreases 1, 0
  {
    if s.queue == [] && !s.destroy {
      if s.nthreads > s.minimum && s.linger == 0 {
        AfterWaitDecides(s, t, true, ch);
      }
    } else {
      AfterWaitDecides(s, t, false, ch);
    }
  }

  lemma AfterWaitDecides(s: State, t: Tid, expired: bool, ch: Choice)
    requires expired || s.destroy || s.queue != []
    ensures Moved(s, t, Decision(s, expired), AfterWait(s, t, expired, ch))
    decreases if s.destroy || s.queue != [] || (expired && s.nthreads > s.minimum) then 0 else 2
  {
    if !s.destroy && s.queue == [] && s.nthreads <= s.minimum {
      LoopTopDecides(LeaveIdle(s, t), t, ch);
    }
  }

  ghost predicate OfWorker(e: Event) {
    e.Start? || e.Resume? || e.JobReturns?
  }

  /** What has happened before the worker decides: its job has ended, if it had one. */
  ghost function Before(s: State, e: Event): State
    requires Enabled(s, e) && OfWorker(e)
  {
    if e.JobReturns? then JobCleanup(s, e.t) else s
  }

  /** Each critical section of a worker makes the move of the table: a new worker, one that was signalled,
      one whose time is up or that woke for no reason, and one whose job has returned. */
  lemma WorkerDecides(s: State, e: Event)
    requires Enabled(s, e) && OfWorker(e)
    ensures Moved(Before(s, e), e.t, Decision(s, e.Resume? && e.timedOut), Apply(s, e))
  {
    match e
    case Start(t, ch) => LoopTopDecides(s, t, ch);
    case JobReturns(t, ch) => LoopTopDecides(JobCleanup(s, t), t, ch);
    case Resume(t, timedOut, ch) =>
      var s1 := s.(workers := s.workers[t := Woken(s.workers[t].timed)]);
      if timedOut {
        AfterWaitDecides(s1, t, true, ch);
      } else {
        WaitTestDecides(s1, t, ch);
      }
  }

  /** The system refuses a thread: to thr_pool_queue when nobody is idle and the pool may grow, or in place of a
      worker that leaves while there are jobs. */
  ghost predicate FailsToCreate(s: State, e: Event) {
    match e
    case Queue(_, ch) => !ch.createOk && s.idle <= 0 && s.nthreads < s.maximum
    case JobExits(_, ch) => !ch.createOk && !s.destroy && s.queue != []
    case _ => false
  }

  /** A worker whose job calls pthread_exit leaves, and another one is made for it exactly if the pool lives,
      there is a job in the queue and a thread can be created. */
  lemma ExitDecides(s: State, e: Event)
    requires Inv(s) && Enabled(s, e) && e.JobExits?
    ensures var replaced := !s.destroy && s.queue != [] && e.ch.createOk;
            var rest := s.workers - {e.t};
            Apply(s, e).nthreads == s.nthreads - (if replaced then 0 else 1) &&
            Apply(s, e).workers == (if replaced then rest[e.ch.child := Starting] else rest) &&
            Apply(s, e).submitted == s.submitted && Apply(s, e).queue == s.queue &&
            (Apply(s, e).createFailed <==> s.createFailed || FailsToCreate(s, e))
  {
    assert e.t in s.workers.Keys;
    assert JobCleanup(s, e.t).workers - {e.t} == s.workers - {e.t};
  }

  // ----- the flag of the waiters -----

  lemma StepKeepsFlag(s: State, e: Event)
    requires Enabled(s, e) && (s.wait ==> HasWork(s))
    ensures Apply(s, e).wait ==> HasWork(Apply(s, e))
  {
    if OfWorker(e) {
      WorkerDecides(s, e);
    }
  }

  /** POOL_WAIT is set only while there is work: who ends the last of it clears the flag and wakes all that wait. */
  lemma {:induction false} FlagMeansWork(states: seq<State>, events: seq<Event>, i: nat)
    requires PoolRun(states, events) && i < |states|
    ensures states[i].wait ==> HasWork(states[i])
  {
    if i > 0 {
      FlagMeansWork(states, events, i - 1);
      StepKeepsFlag(states[i - 1], events[i - 1]);
    }
  }

  // ----- the history -----

  function JobsOf(events: seq<Event>): seq<Job> {
    if events == [] then []
    else JobsOf(events[..|events| - 1]) +
         if events[|events| - 1].Queue? then [events[|events| - 1].job] else []
  }

  lemma StepHistory(s: State, e: Event)
    requires Inv(s) && Enabled(s, e)
    ensures Apply(s, e).submitted == s.submitted + if e.Queue? then [e.job] else []
    ensures Apply(s, e).createFailed <==> s.createFailed || FailsToCreate(s, e)
  {
    if OfWorker(e) {
      WorkerDecides(s, e);
    } else if e.JobExits? {
      ExitDecides(s, e);
    }
  }

  /** The jobs of a run are those of its thr_pool_queue calls, in order; and some create_worker has failed
      exactly if the system refused a thread. */
  lemma {:induction false} HistoryIs(states: seq<State>, events: seq<Event>, i: nat)
    requires PoolRun(states, events) && i < |states|
    ensures states[i].submitted == JobsOf(events[..i])
    ensures states[i].createFailed <==> exists n :: 0 <= n < i && FailsToCreate(states[n], events[n])
  {
    if i > 0 {
      HistoryIs(states, events, i - 1);
      PoolRunKeeps(states, events, i - 1);
      StepHistory(states[i - 1], events[i - 1]);
      assert events[..i][..i - 1] == events[..i - 1];
    }
  }
}
