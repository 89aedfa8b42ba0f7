/**
 Threads that wait on one condition variable, each with what it wants to do when it gets on.
 */
module Sleepers {

  type Tid = nat

  datatype Sleeper<+X> = Sleeper(op: X, awake: bool, timed: bool)

  ghost function AwakeSet<X>(ws: map<Tid, Sleeper<X>>): set<Tid> {
    set t | t in ws && ws[t].awake
  }

  predicate IsAsleep<X>(ws: map<Tid, Sleeper<X>>, t: Tid) {
    t in ws && !ws[t].awake
  }

  ghost predicate SomeAsleep<X>(ws: map<Tid, Sleeper<X>>) {
    exists t :: IsAsleep(ws, t)
  }

  /** notify_one, when the system picks t: nobody is woken if t does not sleep. */
  function Notify<X>(ws: map<Tid, Sleeper<X>>, t: Tid): map<Tid, Sleeper<X>> {
    if IsAsleep(ws, t) then ws[t := ws[t].(awake := true)] else ws
  }

  lemma AfterUpdate<X>(ws: map<Tid, Sleeper<X>>, t: Tid, w: Sleeper<X>)
    ensures |AwakeSet(ws[t := w])| ==
            |AwakeSet(ws)| + (if w.awake then 1 else 0) - (if t in ws && ws[t].awake then 1 else 0)
    ensures |ws[t := w]| == |ws| + if t in ws then 0 else 1
    ensures SomeAsleep(ws[t := w]) ==> SomeAsleep(ws) || !w.awake
  {
    assert AwakeSet(ws[t := w]) == if w.awake then AwakeSet(ws) + {t} else AwakeSet(ws) - {t};
    if SomeAsleep(ws[t := w]) && w.awake {
      var u :| IsAsleep(ws[t := w], u);
      assert IsAsleep(ws, u);
    }
  }

  lemma AfterRemoval<X>(ws: map<Tid, Sleeper<X>>, t: Tid)
    ensures |AwakeSet(ws - {t})| == |AwakeSet(ws)| - if t in ws && ws[t].awake then 1 else 0
    ensures |ws - {t}| == |ws| - if t in ws then 1 else 0
    ensures SomeAsleep(ws - {t}) ==> SomeAsleep(ws)
  {
    assert AwakeSet(ws - {t}) == AwakeSet(ws) - {t};
    assert (ws - {t}).Keys == ws.Keys - {t};
    if SomeAsleep(ws - {t}) {
      var u :| IsAsleep(ws - {t}, u);
      assert IsAsleep(ws, u);
    }
  }

  lemma AfterNotify<X>(ws: map<Tid, Sleeper<X>>, t: Tid)
    ensures |AwakeSet(Notify(ws, t))| == |AwakeSet(ws)| + if IsAsleep(ws, t) then 1 else 0
    ensures |Notify(ws, t)| == |ws|
    ensures SomeAsleep(Notify(ws, t)) ==> SomeAsleep(ws)
  {
    if IsAsleep(ws, t) {
      AfterUpdate(ws, t, ws[t].(awake := true));
      assert SomeAsleep(ws);
    }
  }
}

/**
 SharedQueue of shared_queue_condvar.cpp: any number of producers and consumers, timed or not,
 over a bounded deque.  One event is one critical section, or one notification: notify_one is
 called after the lock is given up, so the two are separate steps.
 */
module SharedQueueModel {
  import opened Sleepers

  /** How an element left the queue. */
  datatype Fate<+T> = Popped(x: T) | Cleared(x: T)

  datatype State<T> = State(
    maxSize: nat,
    items: seq<T>,
    pushers: map<Tid, Sleeper<T>>,     // waiting on condWr
    poppers: map<Tid, Sleeper<()>>,    // waiting on condRd
    pendingRd: nat,                    // unlocked, about to notify condRd
    pendingWr: nat,                    // unlocked, about to notify condWr
    pushed: seq<T>,                    // every element ever pushed, in order
    gone: seq<Fate<T>>                 // how they left, in order
  )

  datatype Event<T> =
    | Push(t: Tid, x: T, timed: bool)
    | PushResume(t: Tid, expired: bool)
    | Pop(t: Tid, timed: bool)
    | PopResume(t: Tid, expired: bool)
    | NotifyRd(t: Tid)
    | NotifyWr(t: Tid)
    | Clear

  function Empty<T>(maxSize: nat): State<T> {
    State(maxSize, [], map[], map[], 0, 0, [], [])
  }

  predicate Full<T>(s: State<T>) {
    |s.items| >= s.maxSize
  }

  /** The test of the wait loop in push and timed_push, and what follows it. */
  function PushTurn<T>(s: State<T>, t: Tid, x: T, timed: bool, expired: bool): State<T> {
    if !Full(s) then
      s.(items := s.items + [x], pushed := s.pushed + [x], pushers := s.pushers - {t}, pendingRd := s.pendingRd + 1)
    else if expired then s.(pushers := s.pushers - {t})
    else s.(pushers := s.pushers[t := Sleeper(x, false, timed)])
  }

  /** The test of the wait loop in pop and timed_pop, and what follows it. */
  function PopTurn<T>(s: State<T>, t: Tid, timed: bool, expired: bool): State<T> {
    if s.items != [] then
      s.(items := s.items[1..], gone := s.gone + [Popped(s.items[0])], poppers := s.poppers - {t},
         pendingWr := s.pendingWr + 1)
    else if expired then s.(poppers := s.poppers - {t})
    else s.(poppers := s.poppers[t := Sleeper((), false, timed)])
  }

  function AllCleared<T>(xs: seq<T>): (fs: seq<Fate<T>>)
    ensures |fs| == |xs|
  {
    seq(|xs|, i requires 0 <= i < |xs| => Cleared(xs[i]))
  }

  function Elements<T>(fs: seq<Fate<T>>): (xs: seq<T>)
    ensures |xs| == |fs|
  {
    seq(|fs|, i requires 0 <= i < |fs| => fs[i].x)
  }

  /** A wait may return notified, timed out, or for no reason; notify_one wakes a sleeper if there is one. */
  ghost predicate Enabled<T>(s: State<T>, e: Event<T>) {
    match e
    case Push(t, _, _) => t !in s.pushers && t !in s.poppers
    case Pop(t, _) => t !in s.pushers && t !in s.poppers
    case PushResume(t, expired) => t in s.pushers && (expired ==> s.pushers[t].timed)
    case PopResume(t, expired) => t in s.poppers && (expired ==> s.poppers[t].timed)
    case NotifyRd(t) => s.pendingRd > 0 && (SomeAsleep(s.poppers) ==> IsAsleep(s.poppers, t))
    case NotifyWr(t) => s.pendingWr > 0 && (SomeAsleep(s.pushers) ==> IsAsleep(s.pushers, t))
    case Clear => true
  }

  ghost function Apply<T>(s: State<T>, e: Event<T>): State<T>
    requires Enabled(s, e)
  {
    match e
    case Push(t, x, timed) => PushTurn(s, t, x, timed, false)
    case PushResume(t, expired) => PushTurn(s, t, s.pushers[t].op, s.pushers[t].timed, expired)
    case Pop(t, timed) => PopTurn(s, t, timed, false)
    case PopResume(t, expired) => PopTurn(s, t, s.poppers[t].timed, expired)
    case NotifyRd(t) => s.(pendingRd := s.pendingRd - 1, poppers := Notify(s.poppers, t))
    case NotifyWr(t) => s.(pendingWr := s.pendingWr - 1, pushers := Notify(s.pushers, t))
    case Clear => s.(items := [], gone := s.gone + AllCleared(s.items))
  }

  ghost predicate IsRun<T>(states: seq<State<T>>, events: seq<Event<T>>) {
    && |states| == |events| + 1
    && (exists maxSize: nat :: states[0] == Empty(maxSize))
    && forall i :: 0 <= i < |events| ==>
         Enabled(states[i], events[i]) && states[i + 1] == Apply(states[i], events[i])
  }

  // ----- the invariant -----

  /** While a consumer sleeps, every element has an awake consumer or a coming notification. */
  ghost predicate ReadersCovered<T>(s: State<T>) {
    SomeAsleep(s.poppers) ==> |s.items| <= |AwakeSet(s.poppers)| + s.pendingRd
  }

  /** While a producer sleeps, every free place has an awake producer or a coming notification. */
  ghost predicate WritersCovered<T>(s: State<T>) {
    SomeAsleep(s.pushers) ==> s.maxSize - |s.items| <= |AwakeSet(s.pushers)| + s.pendingWr
  }

  ghost predicate Fifo<T>(s: State<T>) {
    s.pushed == Elements(s.gone) + s.items && |s.items| <= s.maxSize
  }

  ghost predicate Inv<T>(s: State<T>) {
    Fifo(s) && ReadersCovered(s)
  }

  lemma PushTurnKeeps<T>(s: State<T>, t: Tid, x: T, timed: bool, expired: bool)
    requires Inv(s)
    ensures Inv(PushTurn(s, t, x, timed, expired))
    ensures WritersCovered(s) ==> WritersCovered(PushTurn(s, t, x, timed, expired))
  {
    AfterRemoval(s.pushers, t);
    AfterUpdate(s.pushers, t, Sleeper(x, false, timed));
    assert Elements(s.gone) + (s.items + [x]) == s.pushed + [x];
  }

  lemma PopTurnKeeps<T>(s: State<T>, t: Tid, timed: bool, expired: bool)
    requires Inv(s)
    ensures Inv(PopTurn(s, t, timed, expired))
    ensures WritersCovered(s) ==> WritersCovered(PopTurn(s, t, timed, expired))
  {
    AfterRemoval(s.poppers, t);
    AfterUpdate(s.poppers, t, Sleeper((), false, timed));
    if s.items != [] {
      assert Elements(s.gone + [Popped(s.items[0])]) == Elements(s.gone) + [s.items[0]];
    }
  }

  lemma ClearKeeps<T>(s: State<T>)
    requires Inv(s)
    ensures Inv(Apply(s, Clear))
  {
    assert Elements(s.gone + AllCleared(s.items)) == Elements(s.gone) + s.items;
  }

  /** What clear finds does it no harm: no producer sleeps, or enough of them are awake, or about to be
      notified, for the whole capacity. */
  ghost predicate HarmlessClear<T>(s: State<T>) {
    !SomeAsleep(s.pushers) || s.maxSize <= |AwakeSet(s.pushers)| + s.pendingWr
  }

  /** Every critical section and every notification keeps the invariant, and also that producers are
      covered, except for a clear that does harm. */
  lemma StepKeeps<T>(s: State<T>, e: Event<T>)
    requires Inv(s) && Enabled(s, e)
    ensures Inv(Apply(s, e))
    ensures WritersCovered(s) && !e.Clear? ==> WritersCovered(Apply(s, e))
    ensures e.Clear? ==> (WritersCovered(Apply(s, e)) <==> HarmlessClear(s))
  {
    match e
    case Push(t, x, timed) => PushTurnKeeps(s, t, x, timed, false);
    case PushResume(t, expired) => PushTurnKeeps(s, t, s.pushers[t].op, s.pushers[t].timed, expired);
    case Pop(t, timed) => PopTurnKeeps(s, t, timed, false);
    case PopResume(t, expired) => PopTurnKeeps(s, t, s.poppers[t].timed, expired);
    case NotifyRd(t) => AfterNotify(s.poppers, t);
    case NotifyWr(t) => AfterNotify(s.pushers, t);
    case Clear => ClearKeeps(s);
  }

  lemma {:induction false} RunKeeps<T>(states: seq<State<T>>, events: seq<Event<T>>, i: nat)
    requires IsRun(states, events) && i < |states|
    ensures Inv(states[i])
  {
    if i > 0 {
      RunKeeps(states, events, i - 1);
      StepKeeps(states[i - 1], events[i - 1]);
    }
  }

  // ----- the claims -----

  /** No lost wakeup for consumers, in every run, with or without clear. */
  lemma NoLostWakeup<T>(states: seq<State<T>>, events: seq<Event<T>>, i: nat)
    requires IsRun(states, events) && i < |states|
    ensures SomeAsleep(states[i].poppers) ==>
              |states[i].items| <= |AwakeSet(states[i].poppers)| + states[i].pendingRd
  {
    RunKeeps(states, events, i);
  }

  /** Every clear among the first i events is harmless. */
  ghost predicate HarmlessClears<T>(states: seq<State<T>>, events: seq<Event<T>>, i: nat)
    requires i <= |events| <= |states|
  {
    forall k :: 0 <= k < i && events[k].Clear? ==> HarmlessClear(states[k])
  }

  ghost predicate WritersCoveredTo<T>(states: seq<State<T>>, i: nat)
    requires i < |states|
  {
    forall k :: 0 <= k <= i ==> WritersCovered(states[k])
  }

  lemma HarmlessUpTo<T>(states: seq<State<T>>, events: seq<Event<T>>, i: nat)
    requires 0 < i <= |events| <= |states|
    ensures HarmlessClears(states, events, i) <==>
            HarmlessClears(states, events, i - 1) && (events[i - 1].Clear? ==> HarmlessClear(states[i - 1]))
  {
  }

  lemma CoveredUpTo<T>(states: seq<State<T>>, i: nat)
    requires 0 < i < |states|
    ensures WritersCoveredTo(states, i) <==> WritersCoveredTo(states, i - 1) && WritersCovered(states[i])
  {
  }

  /** No lost wakeup for producers, up to a point of a run, exactly if every clear before was harmless;
      in particular in every run without clear. */
  lemma {:induction false} NoLostWakeupForProducers<T>(states: seq<State<T>>, events: seq<Event<T>>, i: nat)
    requires IsRun(states, events) && i < |states|
    ensures WritersCoveredTo(states, i) <==> HarmlessClears(states, events, i)
  {
    if i > 0 {
      NoLostWakeupForProducers(states, events, i - 1);
      RunKeeps(states, events, i - 1);
      var s, e := states[i - 1], events[i - 1];
      StepKeeps(s, e);
      CoveredUpTo(states, i);
      HarmlessUpTo(states, events, i);
    }
  }

  /** A run in which clear leaves a producer asleep at an empty queue, with nothing on its way to wake it. */
  lemma ClearStrandsAWriter()
    ensures exists states: seq<State<int>>, events :: IsRun(states, events) && |events| == 4 &&
              SomeAsleep(states[4].pushers) && states[4].items == [] && states[4].maxSize > 0 &&
              AwakeSet(states[4].pushers) == {} && states[4].pendingRd == 0 && states[4].pendingWr == 0
  {
    var s0: State<int> := Empty(1);
    var s1 := Apply(s0, Push(1, 10, false));
    var s2 := Apply(s1, Push(2, 20, false));
    assert !SomeAsleep(s2.poppers);
    var s3 := Apply(s2, NotifyRd(0));
    var s4 := Apply(s3, Clear);
    var states := [s0, s1, s2, s3, s4];
    var events := [Push(1, 10, false), Push(2, 20, false), NotifyRd(0), Clear];
    assert IsAsleep(s4.pushers, 2);
    assert IsRun(states, events);
    assert SomeAsleep(states[4].pushers) && states[4].items == [] && AwakeSet(states[4].pushers) == {};
  }

  /** First in, first out, within the bound: the n-th element to leave is the n-th that was pushed. */
  lemma FirstInFirstOut<T>(states: seq<State<T>>, events: seq<Event<T>>, i: nat)
    requires IsRun(states, events) && i < |states|
    ensures |states[i].pushed| == |states[i].gone| + |states[i].items| && |states[i].items| <= states[i].maxSize
    ensures forall n :: 0 <= n < |states[i].gone| ==> states[i].gone[n].x == states[i].pushed[n]
    ensures forall n :: 0 <= n < |states[i].items| ==>
              states[i].items[n] == states[i].pushed[|states[i].gone| + n]
  {
    RunKeeps(states, events, i);
    var s := states[i];
    forall n | 0 <= n < |s.gone| ensures s.gone[n].x == s.pushed[n] {
      assert Elements(s.gone)[n] == s.gone[n].x;
    }
  }

  /** How elements leave: by a turn of pop, which takes the oldest one if there is one, or all by a clear. */
  lemma LeavesHow<T>(s: State<T>, e: Event<T>)
    requires Enabled(s, e)
    ensures Apply(s, e).gone == s.gone +
            match e
            case Pop(_, _) => if s.items == [] then [] else [Popped(s.items[0])]
            case PopResume(_, _) => if s.items == [] then [] else [Popped(s.items[0])]
            case Clear => AllCleared(s.items)
            case _ => []
  {
  }

  // ----- what a sleeping call remembers -----

  ghost predicate StartsCall<T>(e: Event<T>, t: Tid) {
    (e.Push? || e.Pop?) && e.t == t
  }

  /** Event k is the call by which thread t came in last, before event i. */
  ghost predicate LastCall<T>(events: seq<Event<T>>, i: nat, t: Tid, k: int) {
    0 <= k < i <= |events| && StartsCall(events[k], t) && forall n :: k < n < i ==> !StartsCall(events[n], t)
  }

  ghost predicate PusherRemembers<T>(s: State<T>, events: seq<Event<T>>, i: nat, t: Tid, k: int) {
    LastCall(events, i, t, k) && t in s.pushers && events[k] == Push(t, s.pushers[t].op, s.pushers[t].timed)
  }

  ghost predicate PopperRemembers<T>(s: State<T>, events: seq<Event<T>>, i: nat, t: Tid, k: int) {
    LastCall(events, i, t, k) && t in s.poppers && events[k] == Pop(t, s.poppers[t].timed)
  }

  ghost predicate Remembers<T>(s: State<T>, events: seq<Event<T>>, i: nat, t: Tid) {
    && (t in s.pushers ==> exists k :: PusherRemembers(s, events, i, t, k))
    && (t in s.poppers ==> exists k :: PopperRemembers(s, events, i, t, k))
  }

  lemma StepRemembers<T>(s: State<T>, e: Event<T>, t: Tid)
    requires Enabled(s, e)
    ensures t in Apply(s, e).pushers ==>
              var p := Apply(s, e).pushers[t];
              if StartsCall(e, t) then e == Push(t, p.op, p.timed)
              else t in s.pushers && s.pushers[t].op == p.op && s.pushers[t].timed == p.timed
    ensures t in Apply(s, e).poppers ==>
              var p := Apply(s, e).poppers[t];
              if StartsCall(e, t) then e == Pop(t, p.timed) else t in s.poppers && s.poppers[t].timed == p.timed
  {
  }

  lemma StillRemembers<T>(s: State<T>, s': State<T>, events: seq<Event<T>>, i: nat, t: Tid)
    requires 0 < i && forall k :: LastCall(events, i - 1, t, k) ==> LastCall(events, i, t, k)
    requires t in s'.pushers ==>
               t in s.pushers && s.pushers[t].op == s'.pushers[t].op && s.pushers[t].timed == s'.pushers[t].timed
    requires t in s'.poppers ==> t in s.poppers && s.poppers[t].timed == s'.poppers[t].timed
    requires Remembers(s, events, i - 1, t)
    ensures Remembers(s', events, i, t)
  {
    if t in s'.pushers {
      var k :| PusherRemembers(s, events, i - 1, t, k);
      assert PusherRemembers(s', events, i, t, k);
    }
    if t in s'.poppers {
      var k :| PopperRemembers(s, events, i - 1, t, k);
      assert PopperRemembers(s', events, i, t, k);
    }
  }

  /** A waiting thread still has the element, and the choice of a time-out, that its call came with. */
  lemma {:induction false} SleepersRemember<T>(states: seq<State<T>>, events: seq<Event<T>>, i: nat, t: Tid)
    requires IsRun(states, events) && i < |states|
    ensures Remembers(states[i], events, i, t)
  {
    if i > 0 {
      var e := events[i - 1];
      SleepersRemember(states, events, i - 1, t);
      StepRemembers(states[i - 1], e, t);
      if StartsCall(e, t) {
        assert LastCall(events, i, t, i - 1);
        assert t in states[i].pushers ==> PusherRemembers(states[i], events, i, t, i - 1);
        assert t in states[i].poppers ==> PopperRemembers(states[i], events, i, t, i - 1);
      } else {
        forall k | LastCall(events, i - 1, t, k) ensures LastCall(events, i, t, k) {
        }
        StillRemembers(states[i - 1], states[i], events, i, t);
      }
    }
  }

  /** What each turn of push adds: nothing to a full queue, and otherwise the element of the thread's call. */
  lemma PushesItsElement<T>(states: seq<State<T>>, events: seq<Event<T>>, i: nat) returns (k: nat)
    requires IsRun(states, events) && i < |events| && (events[i].Push? || events[i].PushResume?)
    ensures LastCall(events, i + 1, events[i].t, k) && events[k].Push?
    ensures states[i + 1].pushed == states[i].pushed + if Full(states[i]) then [] else [events[k].x]
  {
    var t := events[i].t;
    if events[i].Push? {
      k := i;
    } else {
      SleepersRemember(states, events, i, t);
      k :| PusherRemembers(states[i], events, i, t, k);
    }
  }

  // ----- progress -----

  /** A step that needs no new call and no spurious wakeup. */
  ghost predicate Internal<T>(s: State<T>, e: Event<T>) {
    Enabled(s, e) &&
    match e
    case PushResume(t, expired) => s.pushers[t].awake || expired
    case PopResume(t, expired) => s.poppers[t].awake || expired
    case NotifyRd(_) => true
    case NotifyWr(_) => true
    case _ => false
  }

  ghost predicate Quiescent<T(!new)>(s: State<T>) {
    forall e :: !Internal(s, e)
  }

  ghost function Measure<T>(s: State<T>): nat {
    3 * |s.pushers| + |AwakeSet(s.pushers)| + 3 * |s.poppers| + |AwakeSet(s.poppers)| +
    2 * s.pendingRd + 2 * s.pendingWr
  }

  lemma PushTurnWeighs<T>(s: State<T>, t: Tid, x: T, timed: bool, expired: bool)
    requires t in s.pushers && (s.pushers[t].awake || expired)
    ensures Measure(PushTurn(s, t, x, timed, expired)) < Measure(s)
  {
    AfterRemoval(s.pushers, t);
    AfterUpdate(s.pushers, t, Sleeper(x, false, timed));
  }

  lemma PopTurnWeighs<T>(s: State<T>, t: Tid, timed: bool, expired: bool)
    requires t in s.poppers && (s.poppers[t].awake || expired)
    ensures Measure(PopTurn(s, t, timed, expired)) < Measure(s)
  {
    AfterRemoval(s.poppers, t);
    AfterUpdate(s.poppers, t, Sleeper((), false, timed));
  }

  /** Every internal step uses up some of the measure, so a queue left alone comes to rest. */
  lemma InternalStepWeighs<T>(s: State<T>, e: Event<T>)
    requires Internal(s, e)
    ensures Measure(Apply(s, e)) < Measure(s)
  {
    match e
    case PushResume(t, expired) => PushTurnWeighs(s, t, s.pushers[t].op, s.pushers[t].timed, expired);
    case PopResume(t, expired) => PopTurnWeighs(s, t, s.poppers[t].timed, expired);
    case NotifyRd(t) => AfterNotify(s.poppers, t);
    case NotifyWr(t) => AfterNotify(s.pushers, t);
  }

  /** A queue that is left alone from event number `from` on comes to rest: its runs are no longer than
      the measure. */
  lemma {:induction false} LeftAloneIsFinite<T>(states: seq<State<T>>, events: seq<Event<T>>, from: nat, i: nat)
    requires IsRun(states, events) && from <= i < |states|
    requires forall k :: from <= k < |events| ==> Internal(states[k], events[k])
    ensures Measure(states[i]) + (i - from) <= Measure(states[from])
  {
    if from < i {
      LeftAloneIsFinite(states, events, from, i - 1);
      InternalStepWeighs(states[i - 1], events[i - 1]);
    }
  }

  lemma QuiescentCounts<T(!new)>(s: State<T>)
    requires Quiescent(s)
    ensures s.pendingRd == 0 && s.pendingWr == 0 && AwakeSet(s.pushers) == {} && AwakeSet(s.poppers) == {}
  {
    var r: Tid := if SomeAsleep(s.poppers) then var t: Tid :| IsAsleep(s.poppers, t); t else 0;
    var w: Tid := if SomeAsleep(s.pushers) then var t: Tid :| IsAsleep(s.pushers, t); t else 0;
    assert !Internal(s, NotifyRd(r)) && !Internal(s, NotifyWr(w));
    forall t | t in s.pushers ensures !s.pushers[t].awake {
      assert !Internal(s, PushResume(t, false));
    }
    forall t | t in s.poppers ensures !s.poppers[t].awake {
      assert !Internal(s, PopResume(t, false));
    }
  }

  /** Where nothing moves: waiting consumers mean an empty queue; waiting producers a full one and, with
      room for an element, not both sides wait, provided that every clear was harmless. */
  lemma RestMeansNothingToDo<T(!new)>(states: seq<State<T>>, events: seq<Event<T>>, i: nat)
    requires IsRun(states, events) && i < |states| && Quiescent(states[i])
    ensures states[i].poppers != map[] ==> states[i].items == []
    ensures HarmlessClears(states, events, i) && states[i].pushers != map[] ==> |states[i].items| == states[i].maxSize
    ensures HarmlessClears(states, events, i) && states[i].maxSize > 0 ==>
              states[i].poppers == map[] || states[i].pushers == map[]
  {
    NoLostWakeupForProducers(states, events, i);
    var s := states[i];
    RunKeeps(states, events, i);
    QuiescentCounts(s);
    if s.poppers != map[] {
      var t :| t in s.poppers;
      assert t !in AwakeSet(s.poppers);
      assert IsAsleep(s.poppers, t);
    }
    if s.pushers != map[] {
      var t :| t in s.pushers;
      assert t !in AwakeSet(s.pushers);
      assert IsAsleep(s.pushers, t);
    }
  }

  lemma QuiescentUntimed<T(!new)>(s: State<T>, t: Tid)
    requires Quiescent(s)
    ensures t in s.pushers ==> !s.pushers[t].timed
    ensures t in s.poppers ==> !s.poppers[t].timed
  {
    assert !Internal(s, PushResume(t, true)) && !Internal(s, PopResume(t, true));
  }

  /** Where nothing moves, timed_push and timed_pop have returned. */
  lemma TimedCallsReturn<T(!new)>(states: seq<State<T>>, events: seq<Event<T>>, i: nat, t: Tid, k: nat)
    requires IsRun(states, events) && i < |states| && Quiescent(states[i])
    requires LastCall(events, i, t, k) && events[k].timed
    ensures t !in states[i].pushers && t !in states[i].poppers
  {
    SleepersRemember(states, events, i, t);
    QuiescentUntimed(states[i], t);
    assert forall n :: PusherRemembers(states[i], events, i, t, n) ==> n == k;
    assert forall n :: PopperRemembers(states[i], events, i, t, n) ==> n == k;
  }
}
