/**
 The thread pool of ThreadPoolOracle/thr_pool.c as a state machine.

 One event is one critical section: what a thread does between acquiring pool_mutex
 and giving it up, by unlocking it or by sleeping on a condition variable.
 What the scheduler and the system decide (which sleeper a signal wakes, whether
 pthread_create succeeds, whether a timed wait expires) is part of the event.
 */
module PoolModel {
  import opened Wrappers

  type Tid = nat
  type Client = nat

  datatype Job = Job(func: nat, arg: nat)

  /** Where a live worker thread is.  Holding is the worker that is inside a critical section,
      counted neither as idle nor as active; Woken has been signalled, or timed out, and has
      not yet got the mutex back.  Running carries the submission number of its job. */
  datatype Worker = Starting | Holding | Asleep(timed: bool) | Woken(timed: bool) | Running(job: nat)
  {
    predicate Idle() {
      Asleep? || Woken?
    }
  }

  /** Where the caller of thr_pool_destroy is. */
  datatype Destroyer = NotCalled | OnWaitCv(notified: bool) | OnBusyCv(notified: bool) | Done

  /** The fields of the pool, then the threads, then the history of the run. */
  datatype State = State(
    queue: seq<Job>,
    active: seq<Tid>,
    wait: bool,
    destroy: bool,
    linger: nat,
    minimum: int,
    maximum: int,
    nthreads: int,
    idle: int,
    workers: map<Tid, Worker>,
    waiters: map<Client, bool>,      // asleep in thr_pool_wait; true once notified
    destroyer: Destroyer,
    submitted: seq<Job>,             // every job ever queued, in order
    started: nat,                    // how many of them a worker has taken
    finished: set<nat>,              // submission numbers of the jobs that have ended
    createFailed: bool               // some create_worker has failed
  )

  /** What the system decides during one critical section. */
  datatype Choice = Choice(sleeper: Tid, child: Tid, createOk: bool)

  datatype Event =
    | Start(t: Tid, ch: Choice)
    | Resume(t: Tid, timedOut: bool, ch: Choice)
    | JobReturns(t: Tid, ch: Choice)
    | JobExits(t: Tid, ch: Choice)
    | Queue(job: Job, ch: Choice)
    | Wait(c: Client)
    | WaitResume(c: Client)
    | Destroy
    | DestroyResume

  // ----- creation -----

  /** Conversion of an unsigned to a signed 32-bit integer. */
  function ToInt(u: nat): int
    requires u < 0x1_0000_0000
  {
    if u < 0x8000_0000 then u else u - 0x1_0000_0000
  }

  /** What is stored for a requested number of threads: the number itself if it is below 2^31. */
  ghost predicate StoredAs(requested: nat, stored: int) {
    if requested < 0x8000_0000 then stored == requested else stored == requested - 0x1_0000_0000
  }

  function Create(min: nat, max: nat, linger: nat): Option<State>
    requires min < 0x1_0000_0000 && max < 0x1_0000_0000
  {
    if min > max || max < 1 then None
    else Some(State([], [], false, false, linger, ToInt(min), ToInt(max), 0, 0,
                    map[], map[], NotCalled, [], 0, {}, false))
  }

  ghost predicate Initial(s: State) {
    exists min: nat, max: nat, linger: nat ::
      min < 0x1_0000_0000 && max < 0x1_0000_0000 && Create(min, max, linger) == Some(s)
  }

  // ----- condition variables -----

  predicate IsAsleep(ws: map<Tid, Worker>, t: Tid) {
    t in ws && ws[t].Asleep?
  }

  /** pthread_cond_signal(&pool_workcv): wakes the chosen sleeper, or nobody. */
  function SignalWork(s: State, t: Tid): State {
    if IsAsleep(s.workers, t) then s.(workers := s.workers[t := Woken(s.workers[t].timed)]) else s
  }

  function Wake(w: Worker): Worker {
    if w.Asleep? then Woken(w.timed) else w
  }

  function BroadcastWork(s: State): State {
    s.(workers := map t | t in s.workers :: Wake(s.workers[t]))
  }

  function BroadcastWait(s: State): State {
    s.(waiters := map c | c in s.waiters :: true,
       destroyer := if s.destroyer.OnWaitCv? then OnWaitCv(true) else s.destroyer)
  }

  function BroadcastBusy(s: State): State {
    s.(destroyer := if s.destroyer.OnBusyCv? then OnBusyCv(true) else s.destroyer)
  }

  // ----- worker side -----

  /** create_worker, and the count kept by its callers. */
  function CreateWorker(s: State, ch: Choice): State {
    if ch.createOk then s.(workers := s.workers[ch.child := Starting], nthreads := s.nthreads + 1)
    else s.(createFailed := true)
  }

  function WorkerCleanup(s: State, t: Tid, ch: Choice): State {
    var s := s.(workers := s.workers - {t}, nthreads := s.nthreads - 1);
    if s.destroy then
      if s.nthreads == 0 then BroadcastBusy(s) else s
    else if s.queue != [] && s.nthreads < s.maximum then CreateWorker(s, ch)
    else s
  }

  function NotifyWaiters(s: State): State {
    if s.queue == [] && s.active == [] then BroadcastWait(s.(wait := false)) else s
  }

  function Without(ts: seq<Tid>, t: Tid): seq<Tid> {
    if ts == [] then []
    else if ts[0] == t then ts[1..]
    else [ts[0]] + Without(ts[1..], t)
  }

  /** The job of worker t has ended; t takes the mutex and unlinks itself. */
  function JobCleanup(s: State, t: Tid): State
    requires t in s.workers && s.workers[t].Running?
  {
    var s := s.(finished := s.finished + {s.workers[t].job},
                active := Without(s.active, t),
                workers := s.workers[t := Holding]);
    if s.wait then NotifyWaiters(s) else s
  }

  /** The top of the worker's loop: it counts itself idle. */
  function EnterIdle(s: State, t: Tid): State {
    var s := s.(idle := s.idle + 1, workers := s.workers[t := Woken(false)]);
    if s.wait then NotifyWaiters(s) else s
  }

  /** The worker stops being idle without taking a job. */
  function LeaveIdle(s: State, t: Tid): State {
    s.(idle := s.idle - 1, workers := s.workers[t := Holding])
  }

  /** The worker stops being idle and takes the job at the head of the queue. */
  function TakeJob(s: State, t: Tid): State
    requires s.queue != []
  {
    s.(idle := s.idle - 1, queue := s.queue[1..], active := [t] + s.active,
       workers := s.workers[t := Running(s.started)], started := s.started + 1)
  }

  /** The worker's loop from `timedout = 0` to the next point where the mutex is given up. */
  function LoopTop(s: State, t: Tid, ch: Choice): State
    decreases 1
  {
    WaitTest(EnterIdle(s, t), t, ch)
  }

  /** The inner while loop, entered with t idle and holding the mutex. */
  function WaitTest(s: State, t: Tid, ch: Choice): State
    decreases 1, 0
  {
    if s.queue == [] && !s.destroy then
      if s.nthreads <= s.minimum then s.(workers := s.workers[t := Asleep(false)])
      else if s.linger == 0 then AfterWait(s, t, true, ch)
      else s.(workers := s.workers[t := Asleep(true)])
    else AfterWait(s, t, false, ch)
  }

  /** From `pool_idle--` on. */
  function AfterWait(s: State, t: Tid, timedOut: bool, ch: Choice): State
    decreases if s.destroy || s.queue != [] || (timedOut && s.nthreads > s.minimum) then 0 else 2
  {
    if s.destroy then WorkerCleanup(LeaveIdle(s, t), t, ch)
    else if s.queue != [] then TakeJob(s, t)
    else if timedOut && s.nthreads > s.minimum then WorkerCleanup(LeaveIdle(s, t), t, ch)
    else LoopTop(LeaveIdle(s, t), t, ch)
  }

  // ----- client side -----

  function QueueJob(s: State, job: Job, ch: Choice): State {
    var s := s.(queue := s.queue + [job], submitted := s.submitted + [job]);
    if s.idle > 0 then SignalWork(s, ch.sleeper)
    else if s.nthreads < s.maximum then CreateWorker(s, ch)
    else s
  }

  /** One turn of the loop in thr_pool_wait: sleep, or return. */
  function WaitLoop(s: State, c: Client): State {
    if s.queue != [] || s.active != [] then s.(wait := true, waiters := s.waiters[c := false])
    else s.(waiters := s.waiters - {c})
  }

  function DestroyBusyLoop(s: State): State {
    s.(destroyer := if s.nthreads != 0 then OnBusyCv(false) else Done)
  }

  /** The two waiting loops of thr_pool_destroy, each from its test on. */
  function DestroyWaitLoop(s: State): State {
    if s.active != [] then s.(wait := true, destroyer := OnWaitCv(false)) else DestroyBusyLoop(s)
  }

  // ----- steps -----

  /** The system's choice is possible: a signal wakes a sleeper if there is one,
      and a new thread gets an id that no live worker has. */
  ghost predicate ChoiceOk(s: State, ch: Choice) {
    (forall t :: IsAsleep(s.workers, t) ==> IsAsleep(s.workers, ch.sleeper)) && ch.child !in s.workers
  }

  ghost predicate Enabled(s: State, e: Event) {
    s.destroyer != Done &&
    match e
    case Start(t, ch) => ChoiceOk(s, ch) && t in s.workers && s.workers[t].Starting?
    case Resume(t, timedOut, ch) =>
      ChoiceOk(s, ch) && t in s.workers && s.workers[t].Idle() && (timedOut ==> s.workers[t].timed)
    case JobReturns(t, ch) => ChoiceOk(s, ch) && t in s.workers && s.workers[t].Running?
    case JobExits(t, ch) => ChoiceOk(s, ch) && t in s.workers && s.workers[t].Running?
    case Queue(_, ch) => ChoiceOk(s, ch)
    case Wait(c) => c !in s.waiters
    case WaitResume(c) => c in s.waiters
    case Destroy => s.destroyer.NotCalled?
    case DestroyResume => s.destroyer.OnWaitCv? || s.destroyer.OnBusyCv?
  }

  /** The state after a critical section. */
  ghost function Apply(s: State, e: Event): State
    requires Enabled(s, e)
  {
    match e
    case Start(t, ch) => LoopTop(s, t, ch)
    case Resume(t, timedOut, ch) =>
      var s := s.(workers := s.workers[t := Woken(s.workers[t].timed)]);
      if timedOut then AfterWait(s, t, true, ch) else WaitTest(s, t, ch)
    case JobReturns(t, ch) => LoopTop(JobCleanup(s, t), t, ch)
    case JobExits(t, ch) => WorkerCleanup(JobCleanup(s, t), t, ch)
    case Queue(job, ch) => QueueJob(s, job, ch)
    case Wait(c) => WaitLoop(s, c)
    case WaitResume(c) => WaitLoop(s, c)
    case Destroy => DestroyWaitLoop(BroadcastWork(s.(destroy := true)))
    case DestroyResume => if s.destroyer.OnWaitCv? then DestroyWaitLoop(s) else DestroyBusyLoop(s)
  }

  /** A run: the state before each event, and the state after the last. */
  ghost predicate IsRun(states: seq<State>, events: seq<Event>) {
    && |states| == |events| + 1
    && forall i :: 0 <= i < |events| ==>
         Enabled(states[i], events[i]) && states[i + 1] == Apply(states[i], events[i])
  }
}
