/**
 What linger is for: workers in excess of the minimum stay for the linger time, and no longer.  Only as many
 workers as the minimum ever sleep without a time-out, so when a pool has come to rest it has no more workers
 than that.
 */
module PoolLinger {
  import opened PoolModel
  import opened PoolInvariant
  import opened PoolProgress
  import opened PoolSafety
  import opened PoolWorker
  import opened Sequences

  /** The workers that sleep without a time-out. */
  ghost function Untimed(ws: map<Tid, Worker>): set<Tid> {
    set t | t in ws && ws[t] == Asleep(false)
  }

  function Floor(minimum: int): nat {
    if minimum < 0 then 0 else minimum
  }

  ghost predicate FewUntimed(s: State) {
    |Untimed(s.workers)| <= Floor(s.minimum)
  }

  /** Nobody new sleeps without a time-out. */
  lemma NoNewUntimed(s: State, s': State)
    requires FewUntimed(s) && s'.minimum == s.minimum
    requires forall t :: t in s'.workers && s'.workers[t] == Asleep(false) ==> t in s.workers && s.workers[t] == Asleep(false)
    ensures FewUntimed(s')
  {
    SubsetCount(Untimed(s'.workers), Untimed(s.workers));
  }

  /** A worker sleeps without a time-out only if the pool is not above its minimum. */
  lemma UntimedSleepKeeps(s: State, t: Tid)
    requires Counts(s) && t in s.workers && s.nthreads <= s.minimum
    ensures FewUntimed(s.(workers := s.workers[t := Asleep(false)]))
  {
    var ws := s.workers[t := Asleep(false)];
    assert ws.Keys == s.workers.Keys;
    SubsetCount(Untimed(ws), s.workers.Keys);
    assert |s.workers| == |s.workers.Keys|;
  }

  lemma WorkerKeepsFew(s: State, e: Event)
    requires Inv(s) && FewUntimed(s) && Enabled(s, e) && OfWorker(e)
    ensures FewUntimed(Apply(s, e))
  {
    WorkerDecides(s, e);
    StepLater(s, e);
    if Decision(s, e.Resume? && e.timedOut) == Sleeps(false) {
      UntimedSleepKeeps(s, e.t);
      assert Apply(s, e).workers == s.workers[e.t := Asleep(false)];
    } else {
      NoNewUntimed(s, Apply(s, e));
    }
  }

  lemma StepKeepsFew(s: State, e: Event)
    requires Inv(s) && FewUntimed(s) && Enabled(s, e)
    ensures FewUntimed(Apply(s, e))
  {
    if OfWorker(e) {
      WorkerKeepsFew(s, e);
    } else {
      StepLater(s, e);
      if e.JobExits? {
        ExitDecides(s, e);
      }
      NoNewUntimed(s, Apply(s, e));
    }
  }

  /** In every run at most as many workers as the minimum sleep without a time-out. */
  lemma {:induction false} FewSleepUntimed(states: seq<State>, events: seq<Event>, i: nat)
    requires PoolRun(states, events) && i < |states|
    ensures FewUntimed(states[i])
  {
    if i == 0 {
      assert Untimed(states[0].workers) == {};
    } else {
      FewSleepUntimed(states, events, i - 1);
      PoolRunKeeps(states, events, i - 1);
      StepKeepsFew(states[i - 1], events[i - 1]);
    }
  }

  /** Excess workers leave: a pool at rest that is not being destroyed is not above its minimum. */
  lemma ExcessWorkersLeave(states: seq<State>, events: seq<Event>)
    requires PoolRun(states, events) && Quiescent(states[|events|]) && !states[|events|].destroy
    ensures states[|events|].nthreads <= Floor(states[|events|].minimum)
  {
    var s := states[|events|];
    PoolRunKeeps(states, events, |events|);
    FewSleepUntimed(states, events, |events|);
    QuiescentThreads(s);
    assert Untimed(s.workers) == s.workers.Keys;
    assert |s.workers| == |s.workers.Keys|;
  }

  // ----- for how long -----

  /** In a pool with a linger time a worker leaves, while the pool lives, only when its job calls pthread_exit or
      after it has waited for that time; without one, no worker waits for a time. */
  lemma ExcessLingers(s: State, e: Event)
    requires Inv(s) && Enabled(s, e) && !s.destroy && Apply(s, e).nthreads < s.nthreads
    ensures s.linger != 0 ==> e.JobExits? || (e.Resume? && e.timedOut)
    ensures !e.JobExits? ==> s.queue == [] && s.nthreads > s.minimum
  {
    if OfWorker(e) {
      WorkerDecides(s, e);
    }
  }

  ghost predicate NoTimedSleep(ws: map<Tid, Worker>) {
    forall t :: t in ws ==> ws[t] != Asleep(true)
  }

  lemma StepKeepsUntimed(s: State, e: Event)
    requires Inv(s) && Enabled(s, e) && s.linger == 0 && NoTimedSleep(s.workers)
    ensures NoTimedSleep(Apply(s, e).workers)
  {
    if OfWorker(e) {
      WorkerDecides(s, e);
    } else if e.JobExits? {
      ExitDecides(s, e);
    }
  }

  /** In a pool without a linger time no worker ever sleeps with a time-out. */
  lemma {:induction false} NoLingerNoTimedSleep(states: seq<State>, events: seq<Event>, i: nat)
    requires PoolRun(states, events) && i < |states| && states[0].linger == 0
    ensures NoTimedSleep(states[i].workers)
  {
    if i > 0 {
      NoLingerNoTimedSleep(states, events, i - 1);
      RunLater(states, events, 0, i - 1);
      PoolRunKeeps(states, events, i - 1);
      StepKeepsUntimed(states[i - 1], events[i - 1]);
    }
  }
}
