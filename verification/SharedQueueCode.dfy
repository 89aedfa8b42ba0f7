/**
 The class SharedQueue, whose deque is changed in place.  A call of push or pop is cut where it gives
 up the lock: each method runs one turn, from holding the lock at the test of the wait loop to
 the next wait, to the give-up of a timed call, or to the unlock before the notification.
 */
module SharedQueueCode {
  import opened Sleepers
  import opened SharedQueueModel

  datatype Turn = Waits | GivesUp | Done

  class SharedQueue<T> {
    const maxSize: nat
    var items: seq<T>

    ghost var pushers: map<Tid, Sleeper<T>>
    ghost var poppers: map<Tid, Sleeper<()>>
    ghost var pendingRd: nat
    ghost var pendingWr: nat
    ghost var pushed: seq<T>
    ghost var gone: seq<Fate<T>>

    ghost function Abs(): State<T>
      reads this
    {
      State(maxSize, items, pushers, poppers, pendingRd, pendingWr, pushed, gone)
    }

    constructor (maxSize: nat)
      ensures Abs() == Empty(maxSize) && Inv(Abs())
    {
      this.maxSize := maxSize;
      items := [];
      pushers, poppers, pendingRd, pendingWr, pushed, gone := map[], map[], 0, 0, [], [];
    }

    /** push or timed_push of x by t: the turn from a call (expired false), or from a return of its wait. */
    method PushStep(t: Tid, x: T, timed: bool, expired: bool) returns (turn: Turn)
      requires Inv(Abs())
      requires || (Enabled(Abs(), Push(t, x, timed)) && !expired)
               || (Enabled(Abs(), PushResume(t, expired)) && pushers[t].op == x && pushers[t].timed == timed)
      modifies this
      ensures Inv(Abs()) && (old(WritersCovered(Abs())) ==> WritersCovered(Abs()))
      ensures old(t in pushers) ==> Abs() == Apply(old(Abs()), PushResume(t, expired))
      ensures old(t !in pushers) ==> Abs() == Apply(old(Abs()), Push(t, x, timed))
      ensures turn == (if |old(items)| < maxSize then Done else if expired then GivesUp else Waits)
      ensures items == if turn.Done? then old(items) + [x] else old(items)
      ensures turn.Waits? <==> t in pushers
    {
      PushTurnKeeps(Abs(), t, x, timed, expired);
      if |items| >= maxSize {
        turn := if expired then GivesUp else Waits;
        pushers := if expired then pushers - {t} else pushers[t := Sleeper(x, false, timed)];
        return;
      }
      items := items + [x];
      pushed := pushed + [x];
      pushers := pushers - {t};
      pendingRd := pendingRd + 1;
      turn := Done;
    }

    /** pop or timed_pop by t, in the same way; x is the element that a finished call returns. */
    method PopStep(t: Tid, timed: bool, expired: bool, before: T) returns (turn: Turn, x: T)
      requires Inv(Abs())
      requires || (Enabled(Abs(), Pop(t, timed)) && !expired)
               || (Enabled(Abs(), PopResume(t, expired)) && poppers[t].timed == timed)
      modifies this
      ensures Inv(Abs()) && (old(WritersCovered(Abs())) ==> WritersCovered(Abs()))
      ensures old(t in poppers) ==> Abs() == Apply(old(Abs()), PopResume(t, expired))
      ensures old(t !in poppers) ==> Abs() == Apply(old(Abs()), Pop(t, timed))
      ensures turn == (if old(items) != [] then Done else if expired then GivesUp else Waits)
      ensures if turn.Done? then [x] + items == old(items) && x == pushed[|old(gone)|]
              else x == before && items == old(items)
      ensures turn.Waits? <==> t in poppers
    {
      PopTurnKeeps(Abs(), t, timed, expired);
      x := before;
      if items == [] {
        turn := if expired then GivesUp else Waits;
        poppers := if expired then poppers - {t} else poppers[t := Sleeper((), false, timed)];
        return;
      }
      x := items[0];
      items := items[1..];
      gone := gone + [Popped(x)];
      poppers := poppers - {t};
      pendingWr := pendingWr + 1;
      turn := Done;
    }

    method ClearAll()
      requires Inv(Abs())
      modifies this
      ensures Abs() == Apply(old(Abs()), Clear) && Inv(Abs())
    {
      ClearKeeps(Abs());
      gone := gone + AllCleared(items);
      items := [];
    }
  }
}
