/**
 SharedBuffer of inter_process_sync/shared_buffer.h: a byte buffer between processes.  Read and Write
 signal the other side after the unlock, so a signal is a step of its own.
 */
module SharedBufferModel {
  import opened Ints
  import opened Sequences
  import opened Sleepers

  datatype State = State(
    capacity: nat,
    buf: seq<Byte>,                          // the first curPos bytes
    readers: map<Tid, Sleeper<nat>>,         // waiting on readCond, for how many bytes
    writers: map<Tid, Sleeper<seq<Byte>>>,   // waiting on writeCond, with what bytes
    toSignalWr: set<Tid>,                    // readers that have unlocked and not yet signalled writeCond
    toSignalRd: set<Tid>,                    // writers that have unlocked and not yet signalled readCond
    written: seq<Byte>,
    read: seq<Byte>
  )

  datatype Event =
    | Read(t: Tid, n: nat)
    | ReadResume(t: Tid)
    | ReadSignals(t: Tid, u: Tid)
    | Write(t: Tid, src: seq<Byte>)
    | WriteResume(t: Tid)
    | WriteSignals(t: Tid, u: Tid)

  function Empty(capacity: nat): State {
    State(capacity, [], map[], map[], {}, {}, [], [])
  }

  function ReadTurn(s: State, t: Tid, n: nat): State {
    if s.buf == [] then s.(readers := s.readers[t := Sleeper(n, false, false)])
    else
      var m := Min(n, |s.buf|);
      s.(read := s.read + s.buf[..m], buf := s.buf[m..], readers := s.readers - {t},
         toSignalWr := s.toSignalWr + {t})
  }

  function WriteTurn(s: State, t: Tid, src: seq<Byte>): State {
    if |s.buf| == s.capacity then s.(writers := s.writers[t := Sleeper(src, false, false)])
    else
      var m := if s.capacity < |s.buf| then 0 else Min(|src|, s.capacity - |s.buf|);
      s.(buf := s.buf + src[..m], written := s.written + src[..m], writers := s.writers - {t},
         toSignalRd := s.toSignalRd + {t})
  }

  ghost predicate Busy(s: State, t: Tid) {
    t in s.readers || t in s.writers || t in s.toSignalWr || t in s.toSignalRd
  }

  ghost predicate Enabled(s: State, e: Event) {
    match e
    case Read(t, _) => !Busy(s, t)
    case Write(t, _) => !Busy(s, t)
    case ReadResume(t) => t in s.readers
    case WriteResume(t) => t in s.writers
    case ReadSignals(t, u) => t in s.toSignalWr && (SomeAsleep(s.writers) ==> IsAsleep(s.writers, u))
    case WriteSignals(t, u) => t in s.toSignalRd && (SomeAsleep(s.readers) ==> IsAsleep(s.readers, u))
  }

  ghost function Apply(s: State, e: Event): State
    requires Enabled(s, e)
  {
    match e
    case Read(t, n) => ReadTurn(s, t, n)
    case ReadResume(t) => ReadTurn(s, t, s.readers[t].op)
    case ReadSignals(t, u) => s.(toSignalWr := s.toSignalWr - {t}, writers := Notify(s.writers, u))
    case Write(t, src) => WriteTurn(s, t, src)
    case WriteResume(t) => WriteTurn(s, t, s.writers[t].op)
    case WriteSignals(t, u) => s.(toSignalRd := s.toSignalRd - {t}, readers := Notify(s.readers, u))
  }

  ghost predicate IsRun(states: seq<State>, events: seq<Event>) {
    && |states| == |events| + 1
    && (exists capacity: nat :: states[0] == Empty(capacity))
    && forall i :: 0 <= i < |events| ==>
         Enabled(states[i], events[i]) && states[i + 1] == Apply(states[i], events[i])
  }

  // ----- bytes, for any number of readers and writers -----

  /** The bytes read, then the bytes in the buffer, are the bytes written; the buffer keeps its bound. */
  ghost predicate Stream(s: State) {
    s.written == s.read + s.buf && |s.buf| <= s.capacity
  }

  lemma StepKeepsStream(s: State, e: Event)
    requires Stream(s) && Enabled(s, e)
    ensures Stream(Apply(s, e)) && Apply(s, e).capacity == s.capacity
  {
    if (e.Read? || e.ReadResume?) && s.buf != [] {
      var m := Min(if e.Read? then e.n else s.readers[e.t].op, |s.buf|);
      assert s.buf == s.buf[..m] + s.buf[m..];
      assert s.read + s.buf == s.read + s.buf[..m] + s.buf[m..];
    }
  }

  lemma {:induction false} BytesConserved(states: seq<State>, events: seq<Event>, i: nat)
    requires IsRun(states, events) && i < |states|
    ensures states[i].read + states[i].buf == states[i].written
    ensures |states[i].buf| <= states[i].capacity && states[i].capacity == states[0].capacity
  {
    if i > 0 {
      BytesConserved(states, events, i - 1);
      StepKeepsStream(states[i - 1], events[i - 1]);
    }
  }

  // ----- what each call transfers -----

  ghost predicate StartsCall(e: Event, t: Tid) {
    (e.Read? || e.Write?) && e.t == t
  }

  /** Event k is the call by which thread t came in last, before event i. */
  ghost predicate LastCall(events: seq<Event>, i: nat, t: Tid, k: int) {
    0 <= k < i <= |events| && StartsCall(events[k], t) && forall n :: k < n < i ==> !StartsCall(events[n], t)
  }

  ghost predicate ReaderRemembers(s: State, events: seq<Event>, i: nat, t: Tid, k: int) {
    LastCall(events, i, t, k) && t in s.readers && events[k] == Read(t, s.readers[t].op)
  }

  ghost predicate WriterRemembers(s: State, events: seq<Event>, i: nat, t: Tid, k: int) {
    LastCall(events, i, t, k) && t in s.writers && events[k] == Write(t, s.writers[t].op)
  }

  ghost predicate Remembers(s: State, events: seq<Event>, i: nat, t: Tid) {
    && (t in s.readers ==> exists k :: ReaderRemembers(s, events, i, t, k))
    && (t in s.writers ==> exists k :: WriterRemembers(s, events, i, t, k))
  }

  lemma StepRemembers(s: State, e: Event, t: Tid)
    requires Enabled(s, e)
    ensures t in Apply(s, e).readers ==>
              if StartsCall(e, t) then e == Read(t, Apply(s, e).readers[t].op)
              else t in s.readers && s.readers[t].op == Apply(s, e).readers[t].op
    ensures t in Apply(s, e).writers ==>
              if StartsCall(e, t) then e == Write(t, Apply(s, e).writers[t].op)
              else t in s.writers && s.writers[t].op == Apply(s, e).writers[t].op
  {
  }

  lemma StillRemembers(s: State, s': State, events: seq<Event>, i: nat, t: Tid)
    requires 0 < i && forall k :: LastCall(events, i - 1, t, k) ==> LastCall(events, i, t, k)
    requires t in s'.readers ==> t in s.readers && s.readers[t].op == s'.readers[t].op
    requires t in s'.writers ==> t in s.writers && s.writers[t].op == s'.writers[t].op
    requires Remembers(s, events, i - 1, t)
    ensures Remembers(s', events, i, t)
  {
    if t in s'.readers {
      var k :| ReaderRemembers(s, events, i - 1, t, k);
      assert ReaderRemembers(s', events, i, t, k);
    }
    if t in s'.writers {
      var k :| WriterRemembers(s, events, i - 1, t, k);
      assert WriterRemembers(s', events, i, t, k);
    }
  }

  /** A waiting thread still has what its call came with: how many bytes to read, or which to write. */
  lemma {:induction false} SleepersRemember(states: seq<State>, events: seq<Event>, i: nat, t: Tid)
    requires IsRun(states, events) && i < |states|
    ensures Remembers(states[i], events, i, t)
  {
    if i > 0 {
      var e := events[i - 1];
      SleepersRemember(states, events, i - 1, t);
      StepRemembers(states[i - 1], e, t);
      if StartsCall(e, t) {
        assert LastCall(events, i, t, i - 1);
        assert t in states[i].readers ==> ReaderRemembers(states[i], events, i, t, i - 1);
        assert t in states[i].writers ==> WriterRemembers(states[i], events, i, t, i - 1);
      } else {
        forall k | LastCall(events, i - 1, t, k) ensures LastCall(events, i, t, k) {
        }
        StillRemembers(states[i - 1], states[i], events, i, t);
      }
    }
  }

  /** What each turn of Read takes: the oldest bytes, as many as the thread's call asks for and there are.  It
      waits exactly on an empty buffer, and otherwise signals the other side. */
  lemma ReadsItsBytes(states: seq<State>, events: seq<Event>, i: nat) returns (k: nat)
    requires IsRun(states, events) && i < |events| && (events[i].Read? || events[i].ReadResume?)
    ensures LastCall(events, i + 1, events[i].t, k) && events[k].Read?
    ensures states[i + 1].read == states[i].read + states[i].buf[..Min(events[k].n, |states[i].buf|)]
    ensures states[i].buf != [] <==> events[i].t !in states[i + 1].readers
    ensures states[i].buf != [] ==> events[i].t in states[i + 1].toSignalWr
  {
    var t := events[i].t;
    if events[i].Read? {
      k := i;
    } else {
      SleepersRemember(states, events, i, t);
      k :| ReaderRemembers(states[i], events, i, t, k);
    }
  }

  /** What each turn of Write stores: the first bytes of the thread's call, as many as there is room for.  It
      waits exactly on a full buffer, and otherwise signals the other side. */
  lemma WritesItsBytes(states: seq<State>, events: seq<Event>, i: nat) returns (k: nat)
    requires IsRun(states, events) && i < |events| && (events[i].Write? || events[i].WriteResume?)
    ensures LastCall(events, i + 1, events[i].t, k) && events[k].Write? && |states[i].buf| <= states[i].capacity
    ensures states[i + 1].written ==
            states[i].written + events[k].src[..Min(|events[k].src|, states[i].capacity - |states[i].buf|)]
    ensures |states[i].buf| < states[i].capacity <==> events[i].t !in states[i + 1].writers
    ensures |states[i].buf| < states[i].capacity ==> events[i].t in states[i + 1].toSignalRd
  {
    var t := events[i].t;
    BytesConserved(states, events, i);
    if events[i].Write? {
      k := i;
    } else {
      SleepersRemember(states, events, i, t);
      k :| WriterRemembers(states[i], events, i, t, k);
    }
  }

  // ----- wakeups -----

  predicate ReaderEvent(e: Event) {
    e.Read? || e.ReadResume? || e.ReadSignals?
  }

  /** Only threads in rs read, and only threads in ws write. */
  ghost predicate By(events: seq<Event>, rs: set<Tid>, ws: set<Tid>) {
    forall i :: 0 <= i < |events| ==> if ReaderEvent(events[i]) then events[i].t in rs else events[i].t in ws
  }

  /** A call asks for least bytes or more. */
  predicate Asks(e: Event, least: nat) {
    match e
    case Read(_, n) => n >= least
    case Write(_, src) => |src| >= least
    case _ => true
  }

  ghost predicate AllAsk(events: seq<Event>, least: nat) {
    forall i :: 0 <= i < |events| ==> Asks(events[i], least)
  }

  /** No wakeup is lost: if a thread sleeps though it could go on, then a signal is on its way to its
      side, or another thread of its side has been woken. */
  ghost predicate Covered(s: State) {
    && (SomeAsleep(s.readers) && s.buf != [] ==> s.toSignalRd != {} || AwakeSet(s.readers) != {})
    && (SomeAsleep(s.writers) && |s.buf| < s.capacity ==> s.toSignalWr != {} || AwakeSet(s.writers) != {})
  }

  ghost predicate AlwaysCovered(rs: set<Tid>, ws: set<Tid>, capacity: nat, least: nat) {
    forall states: seq<State>, events, i ::
      IsRun(states, events) && states[0] == Empty(capacity) && By(events, rs, ws) && AllAsk(events, least) &&
      0 <= i < |states| ==>
        Covered(states[i])
  }

  /** The threads that are anywhere in the state are readers or writers, and each is in one place. */
  ghost predicate Placed(s: State, rs: set<Tid>, ws: set<Tid>) {
    && s.readers.Keys <= rs && s.toSignalWr <= rs && s.writers.Keys <= ws && s.toSignalRd <= ws
    && s.readers.Keys !! s.writers.Keys && s.readers.Keys + s.writers.Keys !! s.toSignalWr + s.toSignalRd
    && s.toSignalWr !! s.toSignalRd
  }

  /** A sleeper whose condition holds has a signal coming. */
  ghost predicate SignalComing(s: State) {
    && (SomeAsleep(s.readers) && s.buf != [] ==> s.toSignalRd != {})
    && (SomeAsleep(s.writers) && |s.buf| != s.capacity ==> s.toSignalWr != {})
  }

  lemma StepKeepsPlaced(s: State, e: Event, rs: set<Tid>, ws: set<Tid>)
    requires Placed(s, rs, ws) && Enabled(s, e) && if ReaderEvent(e) then e.t in rs else e.t in ws
    ensures Placed(Apply(s, e), rs, ws)
  {
  }

  lemma ThreeMembers(threads: set<Tid>, t: Tid, u: Tid, v: Tid)
    requires {t, u, v} <= threads && t != u && t != v && u != v
    ensures |threads| >= 3
  {
    assert threads == {t, u, v} + (threads - {t, u, v});
  }

  lemma OnlySleeper<X>(m: map<Tid, Sleeper<X>>, threads: set<Tid>, t: Tid, u: Tid)
    requires |threads| <= 2 && m.Keys <= threads && t in threads && t !in m && (SomeAsleep(m) ==> IsAsleep(m, u))
    ensures !SomeAsleep(Notify(m, u))
  {
    if SomeAsleep(Notify(m, u)) {
      var v :| IsAsleep(Notify(m, u), v);
      assert u in m.Keys && v in m.Keys && v != u;
      ThreeMembers(threads, t, u, v);
    }
  }

  /** Between two threads a signal cannot wake the wrong one. */
  lemma StepKeepsSignals(s: State, e: Event, rs: set<Tid>, ws: set<Tid>)
    requires |rs + ws| <= 2 && Placed(s, rs, ws) && SignalComing(s) && Enabled(s, e)
    requires if ReaderEvent(e) then e.t in rs else e.t in ws
    ensures SignalComing(Apply(s, e))
  {
    match e
    case Read(t, n) => AfterRemoval(s.readers, t);
    case ReadResume(t) => AfterRemoval(s.readers, t);
    case Write(t, src) => AfterRemoval(s.writers, t);
    case WriteResume(t) => AfterRemoval(s.writers, t);
    case ReadSignals(t, u) => OnlySleeper(s.writers, rs + ws, t, u);
    case WriteSignals(t, u) => OnlySleeper(s.readers, rs + ws, t, u);
  }

  lemma {:induction false} TwoThreadsKeep(states: seq<State>, events: seq<Event>, rs: set<Tid>, ws: set<Tid>, i: nat)
    requires IsRun(states, events) && By(events, rs, ws) && |rs + ws| <= 2 && i < |states|
    ensures Placed(states[i], rs, ws) && SignalComing(states[i])
  {
    if i > 0 {
      TwoThreadsKeep(states, events, rs, ws, i - 1);
      StepKeepsPlaced(states[i - 1], events[i - 1], rs, ws);
      StepKeepsSignals(states[i - 1], events[i - 1], rs, ws);
    }
  }

  /** With nobody to take bytes out, or nobody to put any in, a sleeper's condition never comes to hold. */
  ghost predicate OneSided(s: State, rs: set<Tid>, ws: set<Tid>) {
    && s.readers.Keys <= rs && s.writers.Keys <= ws
    && (rs == {} ==> (SomeAsleep(s.writers) ==> |s.buf| == s.capacity))
    && (ws == {} ==> s.buf == [])
  }

  lemma StepKeepsOneSided(s: State, e: Event, rs: set<Tid>, ws: set<Tid>)
    requires OneSided(s, rs, ws) && (rs == {} || ws == {}) && Enabled(s, e)
    requires if ReaderEvent(e) then e.t in rs else e.t in ws
    ensures OneSided(Apply(s, e), rs, ws)
  {
    AfterRemoval(s.writers, e.t);
    if e.WriteSignals? {
      assert e.t in ws;
    }
  }

  lemma {:induction false} OneSidedKeeps(states: seq<State>, events: seq<Event>, rs: set<Tid>, ws: set<Tid>, i: nat)
    requires IsRun(states, events) && By(events, rs, ws) && (rs == {} || ws == {}) && i < |states|
    ensures OneSided(states[i], rs, ws)
  {
    if i > 0 {
      OneSidedKeeps(states, events, rs, ws, i - 1);
      StepKeepsOneSided(states[i - 1], events[i - 1], rs, ws);
    }
  }

  /** If every call asks for the whole capacity, then the buffer is empty or full, and one thread woken is
      as good as another. */
  ghost predicate AllOrNothing(s: State, least: nat) {
    && s.capacity <= least && (s.buf == [] || |s.buf| == s.capacity) && Covered(s)
    && (forall t :: t in s.readers ==> s.readers[t].op >= least)
    && (forall t :: t in s.writers ==> |s.writers[t].op| >= least)
  }

  lemma ReadKeepsAll(s: State, t: Tid, n: nat, least: nat)
    requires AllOrNothing(s, least) && n >= least
    ensures AllOrNothing(ReadTurn(s, t, n), least)
  {
    AfterRemoval(s.readers, t);
  }

  lemma WriteKeepsAll(s: State, t: Tid, src: seq<Byte>, least: nat)
    requires AllOrNothing(s, least) && |src| >= least
    ensures AllOrNothing(WriteTurn(s, t, src), least)
  {
    AfterRemoval(s.writers, t);
    if |s.buf| < s.capacity {
      assert s.buf == [] && |src[..s.capacity]| == s.capacity;
    }
  }

  /** A signal wakes somebody if anybody sleeps. */
  lemma SignalCovers<X>(m: map<Tid, Sleeper<X>>, u: Tid)
    requires SomeAsleep(m) ==> IsAsleep(m, u)
    ensures SomeAsleep(Notify(m, u)) ==> AwakeSet(Notify(m, u)) != {}
  {
    AfterNotify(m, u);
    if SomeAsleep(m) {
      assert u in AwakeSet(Notify(m, u));
    }
  }

  lemma StepKeepsAll(s: State, e: Event, least: nat)
    requires AllOrNothing(s, least) && Enabled(s, e) && Asks(e, least)
    ensures AllOrNothing(Apply(s, e), least)
  {
    match e
    case Read(t, n) => ReadKeepsAll(s, t, n, least);
    case ReadResume(t) => ReadKeepsAll(s, t, s.readers[t].op, least);
    case Write(t, src) => WriteKeepsAll(s, t, src, least);
    case WriteResume(t) => WriteKeepsAll(s, t, s.writers[t].op, least);
    case ReadSignals(t, u) => SignalCovers(s.writers, u);
    case WriteSignals(t, u) => SignalCovers(s.readers, u);
  }

  lemma {:induction false} AllOrNothingKeeps(states: seq<State>, events: seq<Event>, least: nat, i: nat)
    requires IsRun(states, events) && AllAsk(events, least) && states[0].capacity <= least && i < |states|
    ensures AllOrNothing(states[i], least)
  {
    if i > 0 {
      AllOrNothingKeeps(states, events, least, i - 1);
      StepKeepsAll(states[i - 1], events[i - 1], least);
    }
  }

  // ----- runs in which a wakeup is lost -----

  function Asleep<X>(op: X): Sleeper<X> {
    Sleeper(op, false, false)
  }

  function Woken<X>(op: X): Sleeper<X> {
    Sleeper(op, true, false)
  }

  /** Bytes to write. */
  function Bytes(n: nat): (bytes: seq<Byte>)
    ensures |bytes| == n
  {
    seq(n, _ => 7)
  }

  /** Two readers and another thread that fills the buffer: its one signal wakes a reader that leaves bytes
      behind, and the other reader sleeps on in front of them. */
  function ReaderEvents(r1: Tid, r2: Tid, w: Tid, capacity: nat, least: nat): seq<Event> {
    [Read(r1, least), Read(r2, least), Write(w, Bytes(capacity)), WriteSignals(w, r1), ReadResume(r1)]
  }

  function ReaderStates(r1: Tid, r2: Tid, w: Tid, capacity: nat, least: nat): seq<State>
    requires least < capacity
  {
    var full := Bytes(capacity);
    var s0 := Empty(capacity);
    var s1 := s0.(readers := map[r1 := Asleep(least)]);
    var s2 := s1.(readers := map[r1 := Asleep(least), r2 := Asleep(least)]);
    var s3 := s2.(buf := full, written := full, toSignalRd := {w});
    var s4 := s3.(readers := map[r1 := Woken(least), r2 := Asleep(least)], toSignalRd := {});
    var s5 := s4.(readers := map[r2 := Asleep(least)], buf := full[least..], read := full[..least], toSignalWr := {r1});
    [s0, s1, s2, s3, s4, s5]
  }

  lemma ReaderSteps(r1: Tid, r2: Tid, w: Tid, capacity: nat, least: nat, k: nat)
    requires r1 != r2 && w != r1 && w != r2 && least < capacity && k < 5
    ensures var states := ReaderStates(r1, r2, w, capacity, least);
            var e := ReaderEvents(r1, r2, w, capacity, least)[k];
            Enabled(states[k], e) && Apply(states[k], e) == states[k + 1]
  {
    var s := ReaderStates(r1, r2, w, capacity, least)[k];
    if k == 2 {
      assert Bytes(capacity)[..capacity] == Bytes(capacity);
    } else if k == 3 {
      assert IsAsleep(s.readers, r1);
    } else if k == 4 {
      assert s.readers - {r1} == map[r2 := Asleep(least)];
    }
  }

  lemma ReaderStranded(r1: Tid, r2: Tid, w: Tid, capacity: nat, least: nat)
    returns (states: seq<State>, events: seq<Event>)
    requires r1 != r2 && w != r1 && w != r2 && least < capacity
    ensures IsRun(states, events) && states[0] == Empty(capacity) && By(events, {r1, r2}, {w}) && AllAsk(events, least)
    ensures |events| == 5 && !Covered(states[5])
  {
    states, events := ReaderStates(r1, r2, w, capacity, least), ReaderEvents(r1, r2, w, capacity, least);
    forall k | 0 <= k < 5 ensures Enabled(states[k], events[k]) && states[k + 1] == Apply(states[k], events[k]) {
      ReaderSteps(r1, r2, w, capacity, least, k);
    }
    assert IsAsleep(states[5].readers, r2);
  }

  /** Two writers and another thread that empties the buffer: its one signal wakes a writer that leaves room
      behind, and the other writer sleeps on in front of it. */
  function WriterEvents(w1: Tid, w2: Tid, r: Tid, capacity: nat, least: nat): seq<Event> {
    [Write(w1, Bytes(capacity)), WriteSignals(w1, w1), Write(w1, Bytes(least)), Write(w2, Bytes(least)),
     Read(r, capacity), ReadSignals(r, w1), WriteResume(w1)]
  }

  function WriterStates(w1: Tid, w2: Tid, r: Tid, capacity: nat, least: nat): seq<State> {
    var full, part := Bytes(capacity), Bytes(least);
    var s0 := Empty(capacity);
    var s1 := s0.(buf := full, written := full, toSignalRd := {w1});
    var s2 := s1.(toSignalRd := {});
    var s3 := s2.(writers := map[w1 := Asleep(part)]);
    var s4 := s3.(writers := map[w1 := Asleep(part), w2 := Asleep(part)]);
    var s5 := s4.(buf := [], read := full, toSignalWr := {r});
    var s6 := s5.(writers := map[w1 := Woken(part), w2 := Asleep(part)], toSignalWr := {});
    var s7 := s6.(writers := map[w2 := Asleep(part)], buf := part, written := full + part, toSignalRd := {w1});
    [s0, s1, s2, s3, s4, s5, s6, s7]
  }

  lemma WriterSteps(w1: Tid, w2: Tid, r: Tid, capacity: nat, least: nat, k: nat)
    requires w1 != w2 && r != w1 && r != w2 && least < capacity && k < 7
    ensures var states := WriterStates(w1, w2, r, capacity, least);
            var e := WriterEvents(w1, w2, r, capacity, least)[k];
            Enabled(states[k], e) && Apply(states[k], e) == states[k + 1]
  {
    var s := WriterStates(w1, w2, r, capacity, least)[k];
    var full, part := Bytes(capacity), Bytes(least);
    if k == 0 || k == 4 {
      assert full[..capacity] == full && full[capacity..] == [];
    } else if k == 5 {
      assert IsAsleep(s.writers, w1);
    } else if k == 6 {
      assert part[..least] == part && s.writers - {w1} == map[w2 := Asleep(part)];
    }
  }

  lemma WriterStranded(w1: Tid, w2: Tid, r: Tid, capacity: nat, least: nat)
    returns (states: seq<State>, events: seq<Event>)
    requires w1 != w2 && r != w1 && r != w2 && least < capacity
    ensures IsRun(states, events) && states[0] == Empty(capacity) && By(events, {r}, {w1, w2}) && AllAsk(events, least)
    ensures |events| == 7 && !Covered(states[7])
  {
    states, events := WriterStates(w1, w2, r, capacity, least), WriterEvents(w1, w2, r, capacity, least);
    forall k | 0 <= k < 7 ensures Enabled(states[k], events[k]) && states[k + 1] == Apply(states[k], events[k]) {
      WriterSteps(w1, w2, r, capacity, least, k);
    }
    assert IsAsleep(states[7].writers, w2);
  }

  lemma Third(s: set<Tid>, a: Tid, b: Tid) returns (x: Tid)
    requires |s| >= 3
    ensures x in s && x != a && x != b
  {
    if s - {a, b} == {} {
      SubsetCount(s, {a, b});
    }
    x :| x in s - {a, b};
  }

  lemma TwoOthers(s: set<Tid>, c: Tid) returns (a: Tid, b: Tid)
    requires |s| >= 3
    ensures a in s && b in s && a != b && a != c && b != c
  {
    a := Third(s, c, c);
    b := Third(s, a, c);
  }

  /** Three threads with both sides present contain two of one side and a third of the other. */
  lemma ThreeThreads(rs: set<Tid>, ws: set<Tid>) returns (a: Tid, b: Tid, c: Tid)
    requires rs != {} && ws != {} && |rs + ws| >= 3
    ensures a != b && a != c && b != c && ((a in rs && b in rs && c in ws) || (a in ws && b in ws && c in rs))
  {
    if ws <= rs {
      assert rs + ws == rs;
      c :| c in ws;
      a, b := TwoOthers(rs, c);
    } else if rs <= ws {
      assert rs + ws == ws;
      c :| c in rs;
      a, b := TwoOthers(ws, c);
    } else {
      var r :| r in rs && r !in ws;
      var w :| w in ws && w !in rs;
      var x := Third(rs + ws, r, w);
      if x in rs {
        a, b, c := r, x, w;
      } else {
        a, b, c := w, x, r;
      }
    }
  }

  lemma SafeSharing(states: seq<State>, events: seq<Event>, rs: set<Tid>, ws: set<Tid>, least: nat, i: nat)
    requires IsRun(states, events) && By(events, rs, ws) && AllAsk(events, least) && i < |states|
    requires states[0].capacity <= least || rs == {} || ws == {} || |rs + ws| <= 2
    ensures Covered(states[i])
  {
    BytesConserved(states, events, i);
    if states[0].capacity <= least {
      AllOrNothingKeeps(states, events, least, i);
    } else if rs == {} || ws == {} {
      OneSidedKeeps(states, events, rs, ws, i);
    } else {
      TwoThreadsKeep(states, events, rs, ws, i);
    }
  }

  lemma LostWakeup(rs: set<Tid>, ws: set<Tid>, capacity: nat, least: nat)
    requires least < capacity && rs != {} && ws != {} && |rs + ws| >= 3
    ensures !AlwaysCovered(rs, ws, capacity, least)
  {
    var a, b, c := ThreeThreads(rs, ws);
    if a in rs && b in rs && c in ws {
      var states, events := ReaderStranded(a, b, c, capacity, least);
      assert By(events, rs, ws);
      assert !Covered(states[5]);
    } else {
      var states, events := WriterStranded(a, b, c, capacity, least);
      assert By(events, rs, ws);
      assert !Covered(states[7]);
    }
  }

  /** Which threads may share a buffer, if every call asks for least bytes or more.  In every run by readers
      rs and writers ws no wakeup is lost, exactly if each call asks for the whole capacity, or one side is
      absent, or there are at most two threads in all.  One reader and one writer are safe; with a third
      thread there are runs that strand a sleeper.  With calls that may ask for no bytes only a capacity of 0
      is safe for any threads, with calls for one byte or more also a capacity of 1. */
  lemma CoveredIff(rs: set<Tid>, ws: set<Tid>, capacity: nat, least: nat)
    ensures AlwaysCovered(rs, ws, capacity, least) <==> capacity <= least || rs == {} || ws == {} || |rs + ws| <= 2
  {
    if capacity <= least || rs == {} || ws == {} || |rs + ws| <= 2 {
      forall states: seq<State>, events, i |
        IsRun(states, events) && states[0] == Empty(capacity) && By(events, rs, ws) && AllAsk(events, least) &&
        0 <= i < |states|
        ensures Covered(states[i])
      {
        SafeSharing(states, events, rs, ws, least, i);
      }
    } else {
      LostWakeup(rs, ws, capacity, least);
    }
  }

  /** With one reader and one writer a sleeper whose condition holds has its signal coming from the other
      thread, and with room for a byte the two are never both asleep. */
  lemma NeverBothAsleep(states: seq<State>, events: seq<Event>, r: Tid, w: Tid, i: nat)
    requires IsRun(states, events) && By(events, {r}, {w}) && i < |states|
    ensures IsAsleep(states[i].readers, r) && states[i].buf != [] ==> w in states[i].toSignalRd
    ensures IsAsleep(states[i].writers, w) && |states[i].buf| < states[i].capacity ==> r in states[i].toSignalWr
    ensures IsAsleep(states[i].readers, r) && IsAsleep(states[i].writers, w) ==>
              states[i].capacity == 0
  {
    assert {r} + {w} == {r, w};
    TwoThreadsKeep(states, events, {r}, {w}, i);
    BytesConserved(states, events, i);
  }
}

/**
 The class SharedBuffer, with its bytes in place: memcpy and memmove on an array.
 */
module SharedBufferCode {
  import opened Ints
  import opened Sleepers
  import opened SharedBufferModel

  /** memmove to the front: bytes move down in order, so an overlap does no harm. */
  method MoveDown(mem: array<Byte>, from: nat, n: nat)
    requires from + n <= mem.Length
    modifies mem
    ensures mem[..n] == old(mem[from..from + n])
  {
    var i := 0;
    while i < n
      invariant 0 <= i <= n
      invariant forall k :: 0 <= k < i ==> mem[k] == old(mem[from + k])
      invariant forall k :: i <= k < mem.Length ==> mem[k] == old(mem[k])
    {
      mem[i] := mem[from + i];
      i := i + 1;
    }
  }

  /** memcpy into the buffer behind the bytes that are there. */
  method CopyIn(mem: array<Byte>, at: nat, src: seq<Byte>)
    requires at + |src| <= mem.Length
    modifies mem
    ensures mem[..at + |src|] == old(mem[..at]) + src
  {
    var i := 0;
    while i < |src|
      invariant 0 <= i <= |src|
      invariant mem[..at + i] == old(mem[..at]) + src[..i]
    {
      mem[at + i] := src[i];
      i := i + 1;
    }
  }

  class SharedBuffer {
    const capacity: nat
    const mem: array<Byte>
    var curPos: nat

    ghost var readers: map<Tid, Sleeper<nat>>
    ghost var writers: map<Tid, Sleeper<seq<Byte>>>
    ghost var toSignalWr: set<Tid>
    ghost var toSignalRd: set<Tid>
    ghost var written: seq<Byte>
    ghost var taken: seq<Byte>

    ghost predicate Valid()
      reads this
    {
      curPos <= capacity == mem.Length
    }

    ghost function Abs(): State
      requires Valid()
      reads this, mem
    {
      State(capacity, mem[..curPos], readers, writers, toSignalWr, toSignalRd, written, taken)
    }

    constructor (capacity: nat)
      ensures Valid() && Abs() == Empty(capacity)
    {
      this.capacity := capacity;
      mem := new Byte[capacity];
      curPos := 0;
      readers, writers, toSignalWr, toSignalRd, written, taken := map[], map[], {}, {}, [], [];
    }

    /** One turn of Read by t: it goes to sleep on an empty buffer, or takes up to n bytes. */
    method ReadStep(t: Tid, n: nat) returns (waits: bool, out: seq<Byte>)
      requires Valid()
      modifies this, mem
      ensures Valid() && Abs() == ReadTurn(old(Abs()), t, n)
      ensures waits <==> old(curPos) == 0
      ensures waits ==> out == [] && toSignalWr == old(toSignalWr)
      ensures !waits ==> out + mem[..curPos] == old(mem[..curPos]) && |out| == Min(n, old(curPos))
      ensures !waits ==> toSignalWr == old(toSignalWr) + {t}
    {
      out := [];
      waits := curPos == 0;
      if waits {
        readers := readers[t := Sleeper(n, false, false)];
        return;
      }
      var m := Min(n, curPos);
      var nRemain := curPos - m;
      out := mem[..m];
      ghost var before := mem[..curPos];
      assert before == out + mem[m..m + nRemain];
      MoveDown(mem, m, nRemain);
      curPos := nRemain;
      taken := taken + out;
      readers := readers - {t};
      toSignalWr := toSignalWr + {t};
    }

    /** One turn of Write by t: it goes to sleep on a full buffer, or stores what fits. */
    method WriteStep(t: Tid, src: seq<Byte>) returns (waits: bool, n: nat)
      requires Valid()
      modifies this, mem
      ensures Valid() && Abs() == WriteTurn(old(Abs()), t, src)
      ensures waits <==> old(curPos) == capacity
      ensures waits ==> n == 0 && toSignalRd == old(toSignalRd)
      ensures !waits ==> n == Min(|src|, capacity - old(curPos)) && mem[..curPos] == old(mem[..curPos]) + src[..n]
      ensures !waits ==> toSignalRd == old(toSignalRd) + {t}
    {
      n := 0;
      waits := curPos == capacity;
      if waits {
        writers := writers[t := Sleeper(src, false, false)];
        return;
      }
      n := Min(|src|, capacity - curPos);
      CopyIn(mem, curPos, src[..n]);
      curPos := curPos + n;
      written := written + src[..n];
      writers := writers - {t};
      toSignalRd := toSignalRd + {t};
    }
  }
}
