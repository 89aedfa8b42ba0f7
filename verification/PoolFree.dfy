/**
 What free(pool), at the end of thr_pool_destroy, means for the callers of thr_pool_wait: who sleeps in the
 pool un-notified when it is freed, and when nobody is inside.
 */
module PoolFree {
  import opened PoolModel
  import opened PoolInvariant
  import opened PoolSafety
  import opened PoolProgress

  ghost predicate Unnotified(s: State, c: Client) {
    c in s.waiters && !s.waiters[c]
  }

  /** The events after which client c sleeps un-notified in a pool that is being destroyed and has a queue:
      destroy is called, or a job is queued, while c sleeps; or c tests the queue and goes to sleep. */
  ghost predicate Strands(s: State, e: Event, c: Client) {
    match e
    case Destroy => s.queue != [] && Unnotified(s, c)
    case Queue(_, _) => Unnotified(s, c)
    case Wait(d) => d == c && s.queue != []
    case WaitResume(d) => d == c && s.queue != []
    case _ => false
  }

  ghost predicate Stranded(s: State, c: Client) {
    s.queue != [] && Unnotified(s, c)
  }

  // ----- steps under destruction -----

  /** A worker leaves the queue alone, and with a queue also the waiters. */
  ghost predicate LeavesWaiters(s: State, s': State) {
    s'.queue == s.queue && (s.queue != [] ==> s'.waiters == s.waiters)
  }

  lemma AfterWaitLeaves(s: State, t: Tid, timedOut: bool, ch: Choice)
    requires s.destroy
    ensures LeavesWaiters(s, AfterWait(s, t, timedOut, ch)) && WaitTest(s, t, ch) == AfterWait(s, t, timedOut, ch)
  {
    assert AfterWait(s, t, timedOut, ch) == WorkerCleanup(LeaveIdle(s, t), t, ch);
  }

  lemma LoopTopLeaves(s: State, t: Tid, ch: Choice)
    requires s.destroy
    ensures LeavesWaiters(s, LoopTop(s, t, ch))
  {
    AfterWaitLeaves(EnterIdle(s, t), t, false, ch);
  }

  lemma WorkerLeaves(s: State, e: Event)
    requires Enabled(s, e) && s.destroy && !ByClient(e)
    ensures LeavesWaiters(s, Apply(s, e))
  {
    match e
    case Start(t, ch) => LoopTopLeaves(s, t, ch);
    case Resume(t, timedOut, ch) =>
      AfterWaitLeaves(s.(workers := s.workers[t := Woken(s.workers[t].timed)]), t, timedOut, ch);
    case JobReturns(t, ch) => LoopTopLeaves(JobCleanup(s, t), t, ch);
    case JobExits(t, ch) =>
  }

  /** Nobody is saved: a stranded client stays stranded, and nothing else strands one. */
  ghost predicate Follows(s: State, e: Event, s': State, c: Client) {
    Stranded(s', c) <==> (s.destroy && Stranded(s, c)) || Strands(s, e, c)
  }

  lemma StepFollows(s: State, e: Event, c: Client)
    requires Enabled(s, e) && (s.destroy || e.Destroy?)
    ensures Follows(s, e, Apply(s, e), c)
  {
    if !ByClient(e) {
      WorkerLeaves(s, e);
    }
  }

  ghost predicate SomeStrands(states: seq<State>, events: seq<Event>, d: nat, i: nat, c: Client)
    requires i <= |events| && i <= |states|
  {
    exists n :: d <= n < i && Strands(states[n], events[n], c)
  }

  lemma {:induction false} StrandedFrom(states: seq<State>, events: seq<Event>, d: nat, i: nat, c: Client)
    requires |states| == |events| + 1 && d < i < |states|
    requires forall n :: d <= n < i ==> Follows(states[n], events[n], states[n + 1], c) && (states[n].destroy <==> n > d)
    ensures Stranded(states[i], c) <==> SomeStrands(states, events, d, i, c)
  {
    if i > d + 1 {
      StrandedFrom(states, events, d, i - 1, c);
    }
    assert Follows(states[i - 1], events[i - 1], states[i], c);
  }

  lemma DestroyedFrom(states: seq<State>, events: seq<Event>, d: nat, n: nat)
    requires PoolRun(states, events) && d <= n < |states| && d < |events| && events[d] == Destroy
    ensures states[n].destroy <==> n > d
  {
    PoolRunKeeps(states, events, d);
    if d < n {
      assert states[d + 1] == Apply(states[d], Destroy);
      RunLater(states, events, d + 1, n);
    }
  }

  lemma StrandedIff(states: seq<State>, events: seq<Event>, d: nat, i: nat, c: Client)
    requires PoolRun(states, events) && d < i < |states| && events[d] == Destroy
    ensures Stranded(states[i], c) <==> SomeStrands(states, events, d, i, c)
  {
    forall n | d <= n < i
      ensures Follows(states[n], events[n], states[n + 1], c) && (states[n].destroy <==> n > d)
    {
      DestroyedFrom(states, events, d, n);
      StepFollows(states[n], events[n], c);
    }
    StrandedFrom(states, events, d, i, c);
  }

  // ----- at free(pool) -----

  /** Client c tests whether there is work, between two moments. */
  ghost predicate Tests(events: seq<Event>, d: nat, i: nat, c: Client)
    requires i <= |events|
  {
    exists n :: d <= n < i && (events[n] == Wait(c) || events[n] == WaitResume(c))
  }

  lemma QueueStays(states: seq<State>, events: seq<Event>, d: nat, n: nat)
    requires PoolRun(states, events) && d <= n < |states| && d < |events| && events[d] == Destroy
    requires forall k :: d <= k < n ==> !events[k].Queue?
    ensures states[n].queue == states[d].queue
  {
    PoolRunKeeps(states, events, d);
    PoolRunKeeps(states, events, n);
    NothingSubmitted(states, events, d, n);
    if d < n {
      assert states[d + 1] == Apply(states[d], Destroy);
      RunLater(states, events, d + 1, n);
    }
  }

  lemma OneDestroy(states: seq<State>, events: seq<Event>, d: nat, n: nat)
    requires PoolRun(states, events) && d <= n < |events| && events[d] == Destroy && events[n] == Destroy
    ensures n == d
  {
    DestroyedFrom(states, events, d, n);
    PoolRunKeeps(states, events, n);
  }

  lemma OnlyTests(states: seq<State>, events: seq<Event>, d: nat, i: nat, c: Client)
    requires PoolRun(states, events) && d < i < |states| && events[d] == Destroy
    requires forall n :: d <= n < i ==> !events[n].Queue?
    ensures SomeStrands(states, events, d, i, c) <==>
            states[d].queue != [] && (Unnotified(states[d], c) || Tests(events, d, i, c))
  {
    forall n | d <= n < i ensures states[n].queue == states[d].queue {
      QueueStays(states, events, d, n);
    }
    if SomeStrands(states, events, d, i, c) {
      var n :| d <= n < i && Strands(states[n], events[n], c);
      if events[n] == Destroy {
        OneDestroy(states, events, d, n);
      }
    }
    if states[d].queue != [] && Unnotified(states[d], c) {
      assert Strands(states[d], events[d], c);
    }
    if states[d].queue != [] && Tests(events, d, i, c) {
      var n :| d <= n < i && (events[n] == Wait(c) || events[n] == WaitResume(c));
      assert Strands(states[n], events[n], c);
    }
  }

  /** Client c calls thr_pool_wait between two moments. */
  ghost predicate Comes(events: seq<Event>, d: nat, i: nat, c: Client)
    requires i <= |events|
  {
    exists n :: d <= n < i && events[n] == Wait(c)
  }

  /** With a queue nobody leaves a pool that is being destroyed. */
  lemma NobodyLeaves(s: State, e: Event, c: Client)
    requires Enabled(s, e) && s.queue != [] && (s.destroy || e.Destroy?)
    ensures Apply(s, e).queue != []
    ensures c in Apply(s, e).waiters <==> c in s.waiters || e == Wait(c)
  {
    if !ByClient(e) {
      WorkerLeaves(s, e);
    }
  }

  lemma {:induction false} InsideIff(states: seq<State>, events: seq<Event>, d: nat, i: nat, c: Client)
    requires PoolRun(states, events) && d <= i < |states| && d < |events| && events[d] == Destroy
    requires states[d].queue != []
    ensures states[i].queue != []
    ensures c in states[i].waiters <==> c in states[d].waiters || Comes(events, d, i, c)
  {
    if d < i {
      InsideIff(states, events, d, i - 1, c);
      DestroyedFrom(states, events, d, i - 1);
      NobodyLeaves(states[i - 1], events[i - 1], c);
    }
  }

  /** Who sleeps un-notified when the pool is freed.  Whatever is called: exactly who slept so when destroy
      found a queue or when a job was queued after it, and who tested a queue after it.  If nothing is queued
      after destroy: nobody if the queue was empty then, and otherwise exactly who slept so then or tested
      the queue later.  And if destroy found a queue, everybody is inside who was inside or came later. */
  lemma WaitersAtFree(states: seq<State>, events: seq<Event>, d: nat, i: nat, c: Client)
    requires PoolRun(states, events) && d < i < |states| && events[d] == Destroy && states[i].destroyer == Done
    ensures Unnotified(states[i], c) <==> SomeStrands(states, events, d, i, c)
    ensures (forall n :: d <= n < i ==> !events[n].Queue?) ==>
              (Unnotified(states[i], c) <==>
                 states[d].queue != [] && (Unnotified(states[d], c) || Tests(events, d, i, c)))
    ensures states[d].queue != [] ==> (c in states[i].waiters <==> c in states[d].waiters || Comes(events, d, i, c))
  {
    StrandedIff(states, events, d, i, c);
    PoolRunKeeps(states, events, i);
    if states[d].queue != [] {
      InsideIff(states, events, d, i, c);
    }
    if forall n :: d <= n < i ==> !events[n].Queue? {
      OnlyTests(states, events, d, i, c);
    }
  }

  /** A run that frees the pool while a caller of thr_pool_wait sleeps in it and was not notified: destroy
      found a queue. */
  lemma FreedUnderAWaiter()
    ensures exists states: seq<State>, events :: PoolRun(states, events) && |events| == 3 &&
              events[2] == Destroy && states[2].queue != [] && states[3].destroyer == Done && Unnotified(states[3], 5)
  {
    var s0 := Create(0, 1, 0).value;
    var events := [Queue(Job(0, 0), Choice(0, 7, false)), Wait(5), Destroy];
    var s1 := Apply(s0, events[0]);
    var s2 := Apply(s1, events[1]);
    var s3 := Apply(s2, events[2]);
    var states := [s0, s1, s2, s3];
    assert PoolRun(states, events);
  }

  /** A pool that is being destroyed while its only job runs and a client waits. */
  function WaitedForAndDestroyed(): State {
    OneJob().(wait := true, waiters := map[5 := false], destroy := true, destroyer := OnWaitCv(false))
  }

  lemma WaitThenDestroy(s: State)
    requires s == OneJob().(wait := true, waiters := map[5 := false])
    ensures Enabled(OneJob(), Wait(5)) && Apply(OneJob(), Wait(5)) == s
    ensures Enabled(s, Destroy) && Apply(s, Destroy) == WaitedForAndDestroyed()
  {
    assert Apply(s, Destroy).workers == OneJob().workers;
  }

  lemma DestroyWhileOneWaits() returns (states: seq<State>, events: seq<Event>)
    ensures PoolRun(states, events) && |events| == 4 && states[4] == WaitedForAndDestroyed()
    ensures events[3] == Destroy && states[3].queue == []
  {
    var before, calls := OneJobRun();
    var s := OneJob().(wait := true, waiters := map[5 := false]);
    WaitThenDestroy(s);
    Extend(before, calls, Wait(5), s);
    Extend(before + [s], calls + [Wait(5)], Destroy, WaitedForAndDestroyed());
    states, events := before + [s] + [WaitedForAndDestroyed()], calls + [Wait(5)] + [Destroy];
  }

  lemma LastWorkerExits() returns (e: Event, s1: State, s2: State)
    ensures Enabled(WaitedForAndDestroyed(), e) && Apply(WaitedForAndDestroyed(), e) == s1
    ensures Enabled(s1, DestroyResume) && Apply(s1, DestroyResume) == s2
    ensures s2.destroyer == Done && 5 in s2.waiters
  {
    e := JobExits(7, Choice(0, 0, true));
    var s := JobCleanup(WaitedForAndDestroyed(), 7);
    assert s.active == [] && s.destroyer == OnWaitCv(true) && 5 in s.waiters && s.nthreads == 1;
    s1 := Apply(WaitedForAndDestroyed(), e);
    s2 := Apply(s1, DestroyResume);
  }

  /** A run that frees the pool under a caller of thr_pool_wait although destroy found no queue: the caller
      was notified, but has not come back from its sleep. */
  lemma FreedUnderAWokenWaiter()
    ensures exists states: seq<State>, events :: PoolRun(states, events) && |events| == 6 &&
              events[3] == Destroy && states[3].queue == [] && states[6].destroyer == Done && 5 in states[6].waiters
  {
    var before, calls := DestroyWhileOneWaits();
    var e, s5, s6 := LastWorkerExits();
    Extend(before, calls, e, s5);
    Extend(before + [s5], calls + [e], DestroyResume, s6);
    var states, events := before + [s5] + [s6], calls + [e] + [DestroyResume];
    assert events[3] == calls[3] && states[3] == before[3];
  }

  // ----- nobody inside -----

  lemma WorkersBringNobody(s: State, e: Event)
    requires Enabled(s, e) && !ByClient(e)
    ensures Apply(s, e).waiters.Keys == s.waiters.Keys
  {
    if e.JobExits? {
      assert JobCleanup(s, e.t).waiters.Keys == s.waiters.Keys;
    } else {
      WorkerStepEffect(s, e);
    }
  }

  lemma ClientsBringThemselves(s: State, e: Event, c: Client)
    requires Enabled(s, e) && ByClient(e) && c !in s.waiters && (e == Wait(c) ==> !HasWork(s))
    ensures c !in Apply(s, e).waiters
  {
  }

  /** A client that is not inside thr_pool_wait stays outside as long as its calls find no work. */
  lemma {:induction false} StaysOutside(states: seq<State>, events: seq<Event>, d: nat, i: nat, c: Client)
    requires IsRun(states, events) && d <= i < |states| && c !in states[d].waiters
    requires forall n :: d <= n < i && events[n] == Wait(c) ==> !HasWork(states[n])
    ensures c !in states[i].waiters
  {
    if d < i {
      StaysOutside(states, events, d, i - 1, c);
      if ByClient(events[i - 1]) {
        ClientsBringThemselves(states[i - 1], events[i - 1], c);
      } else {
        WorkersBringNobody(states[i - 1], events[i - 1]);
      }
    }
  }

  /** What a caller can do about it: if nobody is inside thr_pool_wait when thr_pool_destroy is called, or at
      any other moment, and no later call of thr_pool_wait finds work, then nobody is inside afterwards. */
  lemma NobodyInside(states: seq<State>, events: seq<Event>, d: nat, i: nat)
    requires IsRun(states, events) && d <= i < |states| && states[d].waiters == map[]
    requires forall n :: d <= n < i && events[n].Wait? ==> !HasWork(states[n])
    ensures states[i].waiters == map[]
  {
    forall c ensures c !in states[i].waiters {
      StaysOutside(states, events, d, i, c);
    }
  }
}
