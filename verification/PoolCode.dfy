/**
 The thread pool as thr_pool.c writes it: a linked job queue with head and tail, an active list linked
 through its nodes, flags and counters, changed in place by one critical section at a time.
 Every method is proved to do what the state machine of PoolModel does.
 */
module PoolLists {
  import opened PoolModel

  /** A queued job (job_t). */
  class JobNode {
    const job: Job
    var next: JobNode?

    constructor (job: Job)
      ensures this.job == job && next == null
    {
      this.job := job;
      next := null;
    }
  }

  /** pool_head and pool_tail. */
  class JobList {
    var head: JobNode?
    var tail: JobNode?
    ghost var nodes: seq<JobNode>
    ghost var contents: seq<Job>

    ghost predicate Valid()
      reads this, nodes
    {
      && |contents| == |nodes|
      && (forall i :: 0 <= i < |nodes| ==> nodes[i].job == contents[i])
      && (forall i, j :: 0 <= i < j < |nodes| ==> nodes[i] != nodes[j])
      && (forall i, j :: 0 <= i && j == i + 1 && j < |nodes| ==> nodes[i].next == nodes[j])
      && (if nodes == [] then head == null && tail == null
          else head == nodes[0] && tail == nodes[|nodes| - 1] && nodes[|nodes| - 1].next == null)
    }

    constructor ()
      ensures Valid() && contents == [] && nodes == []
    {
      head, tail := null, null;
      nodes, contents := [], [];
    }

    /** A new job goes behind the tail. */
    method Append(job: Job)
      requires Valid()
      modifies this, nodes
      ensures Valid() && contents == old(contents) + [job]
      ensures forall n :: n in nodes ==> n in old(nodes) || fresh(n)
    {
      var n := new JobNode(job);
      if head == null {
        head := n;
      } else {
        tail.next := n;
      }
      tail := n;
      nodes := nodes + [n];
      contents := contents + [job];
    }

    /** The job at the head leaves the list. */
    method TakeHead() returns (job: Job)
      requires Valid() && contents != []
      modifies this
      ensures Valid() && job == old(contents)[0] && contents == old(contents)[1..]
      ensures forall n :: n in nodes ==> n in old(nodes)
    {
      var n := head;
      job := n.job;
      head := n.next;
      if n == tail {
        tail := null;
      }
      nodes := nodes[1..];
      contents := contents[1..];
    }
  }

  /** A worker that is performing a job (active_t). */
  class ActiveNode {
    const tid: Tid
    var next: ActiveNode?

    constructor (tid: Tid, next: ActiveNode?)
      ensures this.tid == tid && this.next == next
    {
      this.tid := tid;
      this.next := next;
    }
  }

  lemma {:induction false} WithoutAt(ts: seq<Tid>, t: Tid, k: nat)
    requires k <= |ts| && t !in ts[..k] && (k < |ts| ==> ts[k] == t)
    ensures Without(ts, t) == if k < |ts| then ts[..k] + ts[k + 1..] else ts
  {
    if k > 0 {
      var rest := ts[1..];
      assert ts[..k] == [ts[0]] + rest[..k - 1];
      WithoutAt(rest, t, k - 1);
      assert Without(ts, t) == [ts[0]] + Without(rest, t);
      if k < |ts| {
        assert rest[k..] == ts[k + 1..];
        assert [ts[0]] + (rest[..k - 1] + rest[k..]) == ts[..k] + ts[k + 1..];
      }
    }
  }

  /** pool_active. */
  class ActiveList {
    var first: ActiveNode?
    ghost var nodes: seq<ActiveNode>
    ghost var contents: seq<Tid>

    ghost predicate Valid()
      reads this, nodes
    {
      && |contents| == |nodes|
      && (forall i :: 0 <= i < |nodes| ==> nodes[i].tid == contents[i])
      && (forall i, j :: 0 <= i < j < |nodes| ==> nodes[i] != nodes[j])
      && (forall i, j :: 0 <= i && j == i + 1 && j < |nodes| ==> nodes[i].next == nodes[j])
      && (if nodes == [] then first == null
          else first == nodes[0] && nodes[|nodes| - 1].next == null)
    }

    constructor ()
      ensures Valid() && contents == [] && nodes == []
    {
      first := null;
      nodes, contents := [], [];
    }

    method Push(t: Tid)
      requires Valid()
      modifies this
      ensures Valid() && contents == [t] + old(contents)
      ensures forall n :: n in nodes ==> n in old(nodes) || fresh(n)
    {
      var n := new ActiveNode(t, first);
      first := n;
      nodes := [n] + nodes;
      contents := [t] + contents;
    }

    /** The search for thread t: its node and the one before it. */
    method Find(t: Tid) returns (prev: ActiveNode?, cur: ActiveNode?, ghost k: nat)
      requires Valid()
      ensures k <= |contents| == |nodes| && t !in contents[..k] && (k < |contents| ==> contents[k] == t)
      ensures cur == if k < |nodes| then nodes[k] else null
      ensures prev == if k > 0 then nodes[k - 1] else null
    {
      prev, cur, k := null, first, 0;
      while cur != null && cur.tid != t
        invariant k <= |nodes|
        invariant cur == if k < |nodes| then nodes[k] else null
        invariant prev == if k > 0 then nodes[k - 1] else null
        invariant t !in contents[..k]
        decreases |nodes| - k
      {
        prev := cur;
        cur := cur.next;
        k := k + 1;
      }
    }

    /** Node number k leaves the list. */
    method Remove(prev: ActiveNode?, cur: ActiveNode, ghost k: nat)
      requires Valid() && k < |nodes| && cur == nodes[k] && prev == if k > 0 then nodes[k - 1] else null
      modifies this, nodes
      ensures Valid() && k < |old(contents)| && contents == old(contents)[..k] + old(contents)[k + 1..]
      ensures forall n :: n in nodes ==> n in old(nodes)
    {
      ghost var rest := nodes[..k] + nodes[k + 1..];
      assert forall i :: 0 <= i < |rest| ==> rest[i] == if i < k then nodes[i] else nodes[i + 1];
      if prev == null {
        first := cur.next;
      } else {
        prev.next := cur.next;
      }
      contents := contents[..k] + contents[k + 1..];
      nodes := rest;
    }

    /** The search for thread t through the list, and its removal. */
    method Unlink(t: Tid)
      requires Valid()
      modifies this, nodes
      ensures Valid() && contents == Without(old(contents), t)
      ensures forall n :: n in nodes ==> n in old(nodes)
    {
      var prev, cur, k := Find(t);
      WithoutAt(contents, t, k);
      if cur != null {
        Remove(prev, cur, k);
      }
    }

    /** The loop of thr_pool_destroy over the list: the ids that it cancels. */
    method All() returns (ts: set<Tid>)
      requires Valid()
      ensures forall t :: t in ts <==> t in contents
    {
      ts := {};
      var cur := first;
      ghost var k := 0;
      while cur != null
        invariant 0 <= k <= |nodes|
        invariant cur == if k < |nodes| then nodes[k] else null
        invariant forall t :: t in ts <==> t in contents[..k]
        decreases |nodes| - k
      {
        ts := ts + {cur.tid};
        cur := cur.next;
        k := k + 1;
      }
    }
  }
}

module PoolCode {
  import opened Wrappers
  import opened PoolModel
  import opened PoolInvariant
  import opened PoolLists

  class ThrPool {
    const queue: JobList
    const activeList: ActiveList
    var wait: bool
    var destroy: bool
    const linger: nat
    const minimum: int
    const maximum: int
    var nthreads: int
    var idle: int

    // the ids that pthread_cancel was called on
    var cancelled: set<Tid>

    // where the threads are, and the history
    ghost var workers: map<Tid, Worker>
    ghost var waiters: map<Client, bool>
    ghost var destroyer: Destroyer
    ghost var submitted: seq<Job>
    ghost var started: nat
    ghost var finished: set<nat>
    ghost var createFailed: bool

    ghost predicate Valid()
      reads queue, queue.nodes, activeList, activeList.nodes
    {
      queue.Valid() && activeList.Valid()
    }

    ghost function Abs(): State
      reads this, queue, activeList
    {
      State(queue.contents, activeList.contents, wait, destroy, linger, minimum, maximum, nthreads, idle,
            workers, waiters, destroyer, submitted, started, finished, createFailed)
    }

    /** thr_pool_create, for arguments that it accepts. */
    constructor (min: nat, max: nat, linger: nat)
      requires min <= max < 0x1_0000_0000 && max >= 1
      ensures Valid() && Create(min, max, linger) == Some(Abs())
      ensures fresh(queue) && fresh(activeList) && queue.nodes == [] && activeList.nodes == []
    {
      queue := new JobList();
      activeList := new ActiveList();
      wait, destroy := false, false;
      this.linger := linger;
      minimum, maximum := ToInt(min), ToInt(max);
      nthreads, idle := 0, 0;
      workers, waiters, destroyer, cancelled := map[], map[], NotCalled, {};
      submitted, started, finished, createFailed := [], 0, {}, false;
    }

    // ----- pieces of a critical section -----

    method CreateWorkerCall(ch: Choice) returns (ok: bool)
      modifies `workers, `createFailed
      ensures ok == ch.createOk
      ensures workers == if ok then old(workers)[ch.child := Starting] else old(workers)
      ensures createFailed == (old(createFailed) || !ok)
    {
      ok := ch.createOk;
      if ok {
        workers := workers[ch.child := Starting];
      } else {
        createFailed := true;
      }
    }

    method NotifyWaitersCall()
      requires Valid()
      modifies `wait, `waiters, `destroyer
      ensures Abs() == NotifyWaiters(old(Abs()))
    {
      if queue.head == null && activeList.first == null {
        wait := false;
        waiters := map c | c in waiters :: true;
        destroyer := if destroyer.OnWaitCv? then OnWaitCv(true) else destroyer;
      }
    }

    method WorkerCleanupCall(t: Tid, ch: Choice)
      requires Valid()
      modifies `nthreads, `workers, `createFailed, `destroyer
      ensures Abs() == WorkerCleanup(old(Abs()), t, ch)
    {
      nthreads := nthreads - 1;
      workers := workers - {t};
      if destroy {
        if nthreads == 0 {
          destroyer := if destroyer.OnBusyCv? then OnBusyCv(true) else destroyer;
        }
      } else if queue.head != null && nthreads < maximum {
        var ok := CreateWorkerCall(ch);
        if ok {
          nthreads := nthreads + 1;
        }
      }
    }

    method JobCleanupCall(t: Tid)
      requires Valid() && t in workers && workers[t].Running?
      modifies this, activeList, activeList.nodes
      ensures Valid() && Abs() == JobCleanup(old(Abs()), t)
    {
      finished := finished + {workers[t].job};
      activeList.Unlink(t);
      workers := workers[t := Holding];
      if wait {
        NotifyWaitersCall();
      }
    }

    method EnterIdleCall(t: Tid)
      requires Valid()
      modifies `idle, `workers, `wait, `waiters, `destroyer
      ensures Abs() == EnterIdle(old(Abs()), t)
    {
      idle := idle + 1;
      workers := workers[t := Woken(false)];
      if wait {
        NotifyWaitersCall();
      }
    }

    /** The job at the head of the queue moves to worker t. */
    method MoveJob(t: Tid) returns (job: Job)
      requires Valid() && queue.contents != []
      modifies queue, activeList
      ensures Valid() && job == old(queue.contents)[0] && queue.contents == old(queue.contents)[1..]
      ensures activeList.contents == [t] + old(activeList.contents)
    {
      job := queue.TakeHead();
      activeList.Push(t);
    }

    method Enqueue(job: Job)
      requires Valid()
      modifies queue, queue.nodes, `submitted
      ensures Valid() && queue.contents == old(queue.contents) + [job] && submitted == old(submitted) + [job]
    {
      queue.Append(job);
      submitted := submitted + [job];
    }

    method TakeJobCall(t: Tid) returns (job: Job)
      requires Valid() && queue.contents != []
      modifies `idle, `workers, `started, queue, activeList
      ensures Valid() && Abs() == TakeJob(old(Abs()), t) && job == old(queue.contents)[0]
    {
      idle := idle - 1;
      job := MoveJob(t);
      workers := workers[t := Running(started)];
      started := started + 1;
    }

    /** From `pool_idle--` on: the worker takes a job, leaves, or goes round again. */
    method AfterWaitTurn(t: Tid, timedout: bool, ch: Choice) returns (again: bool)
      requires Valid()
      modifies this, queue, activeList
      ensures Valid()
      ensures if again then AfterWait(old(Abs()), t, timedout, ch) == LoopTop(Abs(), t, ch)
              else Abs() == AfterWait(old(Abs()), t, timedout, ch)
      ensures again ==> queue.nodes == old(queue.nodes) && activeList.nodes == old(activeList.nodes)
      ensures again ==> !old(destroy) && old(queue.contents) == [] && !(timedout && old(nthreads) > minimum)
    {
      if !destroy && queue.head != null {
        var job := TakeJobCall(t);
        return false;
      }
      idle := idle - 1;
      workers := workers[t := Holding];
      if destroy || (timedout && nthreads > minimum) {
        WorkerCleanupCall(t, ch);
        return false;
      }
      return true;
    }

    /** The test of the inner loop: the worker sleeps, or goes on with or without a time-out. */
    method WaitTestTurn(t: Tid, ch: Choice) returns (asleep: bool, timedout: bool)
      requires Valid()
      modifies `workers
      ensures if asleep then Abs() == WaitTest(old(Abs()), t, ch)
              else Abs() == old(Abs()) && WaitTest(Abs(), t, ch) == AfterWait(Abs(), t, timedout, ch)
      ensures !asleep ==> destroy || queue.contents != [] || (timedout && nthreads > minimum)
    {
      asleep, timedout := false, false;
      if queue.head == null && !destroy {
        if nthreads <= minimum {
          workers := workers[t := Asleep(false)];
          asleep := true;
        } else if linger == 0 {
          timedout := true;
        } else {
          workers := workers[t := Asleep(true)];
          asleep := true;
        }
      }
    }

    ghost function Rest(s: State, t: Tid, inWait: bool, timedout: bool, ch: Choice): State {
      if !inWait then LoopTop(s, t, ch)
      else if timedout then AfterWait(s, t, true, ch)
      else WaitTest(s, t, ch)
    }

    /** One turn of the worker's loops; again says whether the outer loop goes round. */
    method WorkerTurn(t: Tid, inWait: bool, expired: bool, ch: Choice) returns (again: bool)
      requires Valid()
      modifies this, queue, activeList
      ensures Valid() && (again ==> inWait && expired)
      ensures if again then LoopTop(Abs(), t, ch) == Rest(old(Abs()), t, inWait, expired, ch)
              else Abs() == Rest(old(Abs()), t, inWait, expired, ch)
    {
      var timedout := inWait && expired;
      if !inWait {
        EnterIdleCall(t);
      }
      var asleep := false;
      if !timedout {
        asleep, timedout := WaitTestTurn(t, ch);
      }
      again := false;
      if !asleep {
        again := AfterWaitTurn(t, timedout, ch);
      }
    }

    /** The worker's loop: from its top, or from a return of its wait on pool_workcv,
        to the next point where the mutex is given up. */
    method WorkerLoop(t: Tid, waited: bool, expired: bool, ch: Choice)
      requires Valid()
      modifies this, queue, activeList
      ensures Valid()
      ensures Abs() == Rest(old(Abs()), t, waited, expired, ch)
    {
      var inWait, again := waited, true;
      while again
        invariant Valid()
        invariant if again then Rest(Abs(), t, inWait, expired, ch) == Rest(old(Abs()), t, waited, expired, ch)
                  else Abs() == Rest(old(Abs()), t, waited, expired, ch)
        decreases again, inWait
      {
        again := WorkerTurn(t, inWait, expired, ch);
        inWait := false;
      }
    }

    // ----- the critical sections -----

    /** A new worker's first critical section. */
    method StartWorker(t: Tid, ch: Choice)
      requires Valid() && Enabled(Abs(), Start(t, ch))
      modifies this, queue, activeList
      ensures Valid() && Abs() == Apply(old(Abs()), Start(t, ch))
    {
      WorkerLoop(t, false, false, ch);
    }

    /** A worker's wait on pool_workcv returns. */
    method ResumeWorker(t: Tid, timedOut: bool, ch: Choice)
      requires Valid() && Enabled(Abs(), Resume(t, timedOut, ch))
      modifies this, queue, activeList
      ensures Valid() && Abs() == Apply(old(Abs()), Resume(t, timedOut, ch))
    {
      workers := workers[t := Woken(workers[t].timed)];
      WorkerLoop(t, true, timedOut, ch);
    }

    /** A job function returns. */
    method JobReturned(t: Tid, ch: Choice)
      requires Valid() && Enabled(Abs(), JobReturns(t, ch))
      modifies this, queue, activeList, activeList.nodes
      ensures Valid() && Abs() == Apply(old(Abs()), JobReturns(t, ch))
    {
      JobCleanupCall(t);
      WorkerLoop(t, false, false, ch);
    }

    /** A job calls pthread_exit, or is cancelled. */
    method JobExited(t: Tid, ch: Choice)
      requires Valid() && Enabled(Abs(), JobExits(t, ch))
      modifies this, activeList, activeList.nodes
      ensures Valid() && Abs() == Apply(old(Abs()), JobExits(t, ch))
    {
      JobCleanupCall(t);
      WorkerCleanupCall(t, ch);
    }

    /** The end of thr_pool_queue: it signals an idle worker, or creates one. */
    method Awaken(ch: Choice)
      modifies `workers, `createFailed, `nthreads
      ensures Abs() == if old(idle) > 0 then SignalWork(old(Abs()), ch.sleeper)
                       else if old(nthreads) < maximum then CreateWorker(old(Abs()), ch)
                       else old(Abs())
    {
      if idle > 0 {
        workers := if IsAsleep(workers, ch.sleeper)
                   then workers[ch.sleeper := Woken(workers[ch.sleeper].timed)] else workers;
      } else if nthreads < maximum {
        var ok := CreateWorkerCall(ch);
        if ok {
          nthreads := nthreads + 1;
        }
      }
    }

    /** thr_pool_queue */
    method QueueCall(job: Job, ch: Choice)
      requires Valid() && Enabled(Abs(), Queue(job, ch))
      modifies this, queue, queue.nodes
      ensures Valid() && Abs() == Apply(old(Abs()), Queue(job, ch))
    {
      Enqueue(job);
      Awaken(ch);
    }

    /** thr_pool_wait, from each test of its loop to the next sleep or to the return. */
    method WaitTurn(c: Client) returns (returned: bool)
      requires Valid() && (Enabled(Abs(), Wait(c)) || Enabled(Abs(), WaitResume(c)))
      modifies `wait, `waiters
      ensures Valid()
      ensures Enabled(old(Abs()), Wait(c)) ==> Abs() == Apply(old(Abs()), Wait(c))
      ensures Enabled(old(Abs()), WaitResume(c)) ==> Abs() == Apply(old(Abs()), WaitResume(c))
      ensures returned <==> c !in waiters
    {
      if queue.head != null || activeList.first != null {
        wait := true;
        waiters := waiters[c := false];
        returned := false;
      } else {
        waiters := waiters - {c};
        returned := true;
      }
    }

    method DestroyWaitTurn()
      requires Valid()
      modifies `wait, `destroyer
      ensures Valid() && Abs() == DestroyWaitLoop(old(Abs()))
    {
      if activeList.first != null {
        wait := true;
        destroyer := OnWaitCv(false);
      } else {
        destroyer := if nthreads != 0 then OnBusyCv(false) else Done;
      }
    }

    /** The flag, the broadcast, and the cancellation of the active workers. */
    method BeginDestroy()
      requires Valid()
      modifies `destroy, `workers, `cancelled
      ensures Valid() && Abs() == BroadcastWork(old(Abs()).(destroy := true))
      ensures forall t :: t in cancelled <==> t in old(cancelled) || t in old(activeList.contents)
    {
      destroy := true;
      workers := map t | t in workers :: Wake(workers[t]);
      var ids := activeList.All();
      cancelled := cancelled + ids;
    }

    /** thr_pool_destroy, to its first sleep or to its last unlock. */
    method DestroyCall()
      requires Valid() && Enabled(Abs(), Destroy)
      modifies this
      ensures Valid() && Abs() == Apply(old(Abs()), Destroy)
      ensures forall t :: t in cancelled <==> t in old(cancelled) || t in old(activeList.contents)
    {
      BeginDestroy();
      DestroyWaitTurn();
    }

    /** The destroyer's wait on pool_waitcv returns. */
    method DestroyWaitResumed()
      requires Valid() && Enabled(Abs(), DestroyResume) && destroyer.OnWaitCv?
      modifies `wait, `destroyer
      ensures Valid() && Abs() == Apply(old(Abs()), DestroyResume)
    {
      DestroyWaitTurn();
    }

    /** The destroyer's wait on pool_busycv returns. */
    method DestroyBusyResumed()
      requires Valid() && Enabled(Abs(), DestroyResume) && destroyer.OnBusyCv?
      modifies `destroyer
      ensures Valid() && Abs() == Apply(old(Abs()), DestroyResume)
    {
      if nthreads != 0 {
        destroyer := OnBusyCv(false);
      } else {
        destroyer := Done;
      }
    }

    /** The end of thr_pool_destroy: pending jobs are freed, in order. */
    method FreePool() returns (discarded: seq<Job>)
      requires Valid() && destroyer == Done
      modifies queue
      ensures Valid() && discarded == old(queue.contents) && queue.contents == []
    {
      discarded := [];
      while queue.head != null
        invariant Valid() && discarded + queue.contents == old(queue.contents)
        decreases |queue.contents|
      {
        var job := queue.TakeHead();
        discarded := discarded + [job];
      }
    }
  }

  /** thr_pool_create: refuses bad arguments, and otherwise makes a pool. */
  method CreatePool(min: nat, max: nat, linger: nat) returns (pool: ThrPool?)
    requires min < 0x1_0000_0000 && max < 0x1_0000_0000
    ensures pool == null <==> min > max || max < 1
    ensures pool != null ==> fresh(pool) && pool.Valid() && Initial(pool.Abs())
    ensures pool != null ==> StoredAs(min, pool.minimum) && StoredAs(max, pool.maximum) && pool.linger == linger
    ensures pool != null ==> pool.nthreads == 0 && pool.idle == 0 && !pool.wait && !pool.destroy
  {
    if min > max || max < 1 {
      return null;
    }
    pool := new ThrPool(min, max, linger);
    assert Create(min, max, linger) == Some(pool.Abs());
  }
}
