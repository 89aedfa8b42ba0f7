/**
 The stream buffer of the fopen-like reader of URLs.  What the transfer library does while a call waits
 for data is a schedule given to the call: each round fails in select(), or delivers pieces of data and
 says whether the transfer is still running; where the schedule ends, curl_multi_fdset() fails.
 */
module UrlStream {
  import opened Ints
  import opened Wrappers

  const NEWLINE: Byte := 10

  /** A piece of data, and whether memory for it can be had if the buffer is too small. */
  datatype Delivery = Delivery(data: seq<Byte>, memory: bool)

  datatype Round = SelectError | Perform(deliveries: seq<Delivery>, running: bool)

  /** No newline, except possibly as the last byte. */
  ghost predicate OneLine(s: seq<Byte>) {
    forall i :: 0 <= i < |s| - 1 ==> s[i] != NEWLINE
  }

  // ----- what the transfer hands over -----

  /** The room that so many bytes leave: they use it up first, whether or not memory can be had for the rest. */
  function LessRoom(room: nat, bytes: nat): nat {
    if bytes <= room then room - bytes else 0
  }

  /** What is taken of a piece: all of it if memory can be had, otherwise what there is room for. */
  function Piece(d: Delivery, room: nat): seq<Byte> {
    if d.memory then d.data else d.data[..Min(|d.data|, room)]
  }

  /** The length of the first k pieces. */
  function Total(ds: seq<Delivery>, k: nat): nat
    requires k <= |ds|
  {
    if k == 0 then 0 else Total(ds, k - 1) + |ds[k - 1].data|
  }

  /** What is taken of the first k pieces, one after the other. */
  function Delivered(ds: seq<Delivery>, k: nat, room: nat): seq<Byte>
    requires k <= |ds|
  {
    if k == 0 then [] else Delivered(ds, k - 1, room) + Piece(ds[k - 1], LessRoom(room, Total(ds, k - 1)))
  }

  /** The length of the pieces that come in the first k rounds. */
  function RoundsTotal(rounds: seq<Round>, k: nat): nat
    requires k <= |rounds|
  {
    if k == 0 then 0
    else
      match rounds[k - 1]
      case SelectError => RoundsTotal(rounds, k - 1)
      case Perform(ds, _) => RoundsTotal(rounds, k - 1) + Total(ds, |ds|)
  }

  /** What is taken in the first k rounds. */
  function Brought(rounds: seq<Round>, k: nat, room: nat): seq<Byte>
    requires k <= |rounds|
  {
    if k == 0 then []
    else
      match rounds[k - 1]
      case SelectError => Brought(rounds, k - 1, room)
      case Perform(ds, _) =>
        Brought(rounds, k - 1, room) + Delivered(ds, |ds|, LessRoom(room, RoundsTotal(rounds, k - 1)))
  }

  /** Whether a transfer that was running is still running after k rounds: what the last one says that did
      not fail. */
  function Running(rounds: seq<Round>, k: nat): bool
    requires k <= |rounds|
  {
    k == 0 || match rounds[k - 1]
              case SelectError => Running(rounds, k - 1)
              case Perform(_, running) => running
  }

  /** After k rounds fill_buffer need not go on: the transfer is over, or want bytes are there. */
  ghost predicate Satisfied(rounds: seq<Round>, k: nat, pos: nat, room: nat, want: nat)
    requires k <= |rounds|
  {
    !Running(rounds, k) || pos + |Brought(rounds, k, room)| >= want
  }

  ghost predicate NotSatisfied(rounds: seq<Round>, k: nat, pos: nat, room: nat, want: nat)
    requires k <= |rounds|
  {
    forall j :: 0 < j <= k ==> !Satisfied(rounds, j, pos, room, want)
  }

  /** fill_buffer makes rounds until it is satisfied, at least one; it fails if there are not so many. */
  ghost predicate Stops(rounds: seq<Round>, used: nat, failed: bool, pos: nat, room: nat, want: nat) {
    if failed then used == |rounds| && NotSatisfied(rounds, used, pos, room, want)
    else 0 < used <= |rounds| && NotSatisfied(rounds, used - 1, pos, room, want) && Satisfied(rounds, used, pos, room, want)
  }

  /** A file between two calls, with all that was accepted and copied so far. */
  datatype Snapshot = Snapshot(contents: seq<Byte>, running: bool, room: nat, accepted: seq<Byte>, copied: seq<Byte>)

  /** What fill_buffer does: nothing if the transfer is over or more than want bytes are there; otherwise it takes
      what its rounds bring. */
  ghost predicate Filled(rounds: seq<Round>, want: nat, s: Snapshot, used: nat, failed: bool, taken: seq<Byte>,
                         running: bool) {
    if s.running && |s.contents| <= want then
      && Stops(rounds, used, failed, |s.contents|, s.room, want)
      && taken == Brought(rounds, used, s.room) && running == Running(rounds, used)
    else used == 0 && !failed && taken == [] && running == s.running
  }

  class UrlFile {
    var buffer: array?<Byte>
    var bufferLen: nat
    var bufferPos: nat
    var stillRunning: bool
    ghost var accepted: seq<Byte>    // all that write_callback has taken
    ghost var delivered: seq<Byte>   // all that has been copied to callers

    /** The bytes held for the next reader. */
    ghost function Contents(): seq<Byte>
      reads this, buffer
    {
      if buffer == null || bufferPos > buffer.Length then [] else buffer[..bufferPos]
    }

    /** Nothing is lost, repeated or reordered between the transfer and the readers. */
    ghost predicate Valid()
      reads this, buffer
    {
      && bufferPos <= bufferLen
      && bufferLen == (if buffer == null then 0 else buffer.Length)
      && accepted == delivered + Contents()
    }

    ghost function Room(): int
      reads this
    {
      bufferLen - bufferPos
    }

    ghost function Now(): Snapshot
      requires Valid()
      reads this, buffer
    {
      Snapshot(Contents(), stillRunning, Room(), accepted, delivered)
    }

    /** The buffer has gained these bytes since it held `contents`. */
    ghost predicate Gained(contents: seq<Byte>, acceptedThen: seq<Byte>, taken: seq<Byte>)
      reads this, buffer
    {
      Valid() && Contents() == contents + taken && accepted == acceptedThen + taken
    }

    constructor ()
      ensures Valid() && buffer == null && Room() == 0 && !stillRunning && accepted == [] && delivered == []
    {
      buffer, bufferLen, bufferPos, stillRunning := null, 0, 0, false;
      accepted, delivered := [], [];
    }

    lemma GainedMore(c: seq<Byte>, a: seq<Byte>, taken: seq<Byte>, more: seq<Byte>)
      requires Gained(c + taken, a + taken, more)
      ensures Gained(c, a, taken + more)
    {
      assert c + taken + more == c + (taken + more);
      assert a + taken + more == a + (taken + more);
    }

    /** realloc, when it succeeds. */
    method Grow(len: nat)
      requires Valid() && len >= bufferLen
      modifies this`buffer, this`bufferLen
      ensures Valid() && bufferLen == len && Contents() == old(Contents()) && buffer != null && fresh(buffer)
    {
      var newbuff := new Byte[len](_ => 0);
      if buffer != null {
        forall i | 0 <= i < bufferLen {
          newbuff[i] := buffer[i];
        }
      }
      buffer, bufferLen := newbuff, len;
    }

    /** memcpy of a piece behind the data. */
    method CopyIn(data: seq<Byte>)
      requires Valid() && bufferPos + |data| <= bufferLen
      modifies this`bufferPos, this`accepted, buffer
      ensures Gained(old(Contents()), old(accepted), data)
    {
      ghost var before := Contents();
      if buffer != null {
        forall i | 0 <= i < |data| {
          buffer[bufferPos + i] := data[i];
        }
      }
      bufferPos := bufferPos + |data|;
      accepted := accepted + data;
      assert Contents() == before + data;
    }

    /** write_callback: takes the piece, or as much of it as there is room for if the buffer cannot grow. */
    method WriteCallback(d: Delivery) returns (size: nat)
      requires Valid()
      modifies this`buffer, this`bufferLen, this`bufferPos, this`accepted, buffer
      ensures Valid() && size == (if d.memory then |d.data| else Min(|d.data|, old(bufferLen - bufferPos)))
      ensures d.data[..size] == Piece(d, old(Room())) && Gained(old(Contents()), old(accepted), d.data[..size])
      ensures Room() == LessRoom(old(Room()), |d.data|)
      ensures buffer == old(buffer) || fresh(buffer)
    {
      size := |d.data|;
      var rembuff := bufferLen - bufferPos;
      if size > rembuff {
        if !d.memory {
          size := rembuff;
        } else {
          Grow(bufferLen + (size - rembuff));
        }
      }
      CopyIn(d.data[..size]);
    }

    /** The first i deliveries have been received. */
    ghost predicate Received(deliveries: seq<Delivery>, i: nat, room: nat, taken: seq<Byte>)
      reads this
    {
      i <= |deliveries| && taken == Delivered(deliveries, i, room) && Room() == LessRoom(room, Total(deliveries, i))
    }

    /** Delivery number i. */
    method ReceiveOne(deliveries: seq<Delivery>, i: nat, ghost room: nat, ghost taken: seq<Byte>)
      returns (ghost piece: seq<Byte>)
      requires Valid() && i < |deliveries| && Received(deliveries, i, room, taken)
      modifies this`buffer, this`bufferLen, this`bufferPos, this`accepted, buffer
      ensures Gained(old(Contents()), old(accepted), piece) && Received(deliveries, i + 1, room, taken + piece)
      ensures buffer == old(buffer) || fresh(buffer)
    {
      var n := WriteCallback(deliveries[i]);
      piece := deliveries[i].data[..n];
    }

    /** Deliveries to this file.  They come from any curl_multi_perform, also one on behalf of another file. */
    method Receive(deliveries: seq<Delivery>) returns (ghost taken: seq<Byte>)
      requires Valid()
      modifies this`buffer, this`bufferLen, this`bufferPos, this`accepted, buffer
      ensures Gained(old(Contents()), old(accepted), taken)
      ensures Received(deliveries, |deliveries|, old(Room()), taken)
      ensures buffer == old(buffer) || fresh(buffer)
    {
      taken := [];
      ghost var c, a, room := Contents(), accepted, Room();
      for i := 0 to |deliveries|
        invariant Gained(c, a, taken) && Received(deliveries, i, room, taken)
        invariant buffer == old(buffer) || fresh(buffer)
      {
        ghost var piece := ReceiveOne(deliveries, i, room, taken);
        GainedMore(c, a, taken, piece);
        taken := taken + piece;
      }
    }

    /** curl_multi_perform for this file: some deliveries, then the news whether the transfer goes on. */
    method Transfer(deliveries: seq<Delivery>, running: bool) returns (ghost taken: seq<Byte>)
      requires Valid()
      modifies this`buffer, this`bufferLen, this`bufferPos, this`accepted, this`stillRunning, buffer
      ensures Valid() && stillRunning == running
      ensures Gained(old(Contents()), old(accepted), taken)
      ensures Received(deliveries, |deliveries|, old(Room()), taken)
      ensures buffer == old(buffer) || fresh(buffer)
    {
      taken := Receive(deliveries);
      stillRunning := running;
    }

    /** These rounds have been made, and what they brought has been taken. */
    ghost predicate RoundsMade(rounds: seq<Round>, used: nat, room: nat, taken: seq<Byte>)
      reads this
    {
      && used <= |rounds| && stillRunning == Running(rounds, used) && taken == Brought(rounds, used, room)
      && Room() == LessRoom(room, RoundsTotal(rounds, used))
    }

    /** One round: select fails, or the transfer goes on. */
    method MakeRound(rounds: seq<Round>, used: nat, ghost room: nat, ghost taken: seq<Byte>)
      returns (ghost more: seq<Byte>)
      requires Valid() && used < |rounds| && RoundsMade(rounds, used, room, taken)
      modifies this`buffer, this`bufferLen, this`bufferPos, this`accepted, this`stillRunning, buffer
      ensures Gained(old(Contents()), old(accepted), more) && RoundsMade(rounds, used + 1, room, taken + more)
      ensures buffer == old(buffer) || fresh(buffer)
    {
      more := [];
      match rounds[used] {
        case SelectError =>
        case Perform(deliveries, running) => more := Transfer(deliveries, running);
      }
    }

    /** What holds between two rounds. */
    ghost predicate InRounds(rounds: seq<Round>, used: nat, pos: nat, room: nat, want: nat, taken: seq<Byte>)
      reads this
    {
      && RoundsMade(rounds, used, room, taken) && bufferPos == pos + |taken|
      && NotSatisfied(rounds, used, pos, room, want)
    }

    /** What holds behind the test of the loop, which goes on or does not. */
    ghost predicate Tested(again: bool, rounds: seq<Round>, used: nat, pos: nat, room: nat, want: nat, taken: seq<Byte>)
      reads this
    {
      if again then InRounds(rounds, used, pos, room, want, taken)
      else RoundsMade(rounds, used, room, taken) && Stops(rounds, used, false, pos, room, want)
    }

    /** One round, and the test behind it. */
    method RoundAndTest(rounds: seq<Round>, used: nat, want: nat, ghost pos: nat, ghost room: nat, ghost taken: seq<Byte>)
      returns (again: bool, ghost more: seq<Byte>)
      requires Valid() && used < |rounds| && InRounds(rounds, used, pos, room, want, taken)
      modifies this`buffer, this`bufferLen, this`bufferPos, this`accepted, this`stillRunning, buffer
      ensures Gained(old(Contents()), old(accepted), more)
      ensures Tested(again, rounds, used + 1, pos, room, want, taken + more)
      ensures buffer == old(buffer) || fresh(buffer)
    {
      ghost var before := Contents();
      more := MakeRound(rounds, used, room, taken);
      assert bufferPos == |Contents()| == |before| + |more| == pos + |taken + more|;
      again := stillRunning && bufferPos < want;
    }

    /** What has happened since fill_buffer found c in the buffer, with pos bytes and so much room. */
    ghost predicate Since(c: seq<Byte>, a: seq<Byte>, again: bool, rounds: seq<Round>, used: nat, pos: nat, room: nat,
                          want: nat, taken: seq<Byte>)
      reads this, buffer
    {
      Gained(c, a, taken) && Tested(again, rounds, used, pos, room, want, taken)
    }

    /** One turn of the loop. */
    method NextRound(rounds: seq<Round>, used: nat, want: nat, ghost c: seq<Byte>, ghost a: seq<Byte>, ghost pos: nat,
                     ghost room: nat, ghost taken: seq<Byte>)
      returns (again: bool, ghost taken': seq<Byte>)
      requires used < |rounds| && Since(c, a, true, rounds, used, pos, room, want, taken)
      modifies this`buffer, this`bufferLen, this`bufferPos, this`accepted, this`stillRunning, buffer
      ensures Since(c, a, again, rounds, used + 1, pos, room, want, taken')
      ensures buffer == old(buffer) || fresh(buffer)
    {
      ghost var more;
      again, more := RoundAndTest(rounds, used, want, pos, room, taken);
      GainedMore(c, a, taken, more);
      taken' := taken + more;
    }

    /** The loop of fill_buffer; used counts its rounds. */
    method FillRounds(want: nat, rounds: seq<Round>) returns (used: nat, ghost taken: seq<Byte>, ghost failed: bool)
      requires Valid() && stillRunning
      modifies this`buffer, this`bufferLen, this`bufferPos, this`accepted, this`stillRunning, buffer
      ensures Gained(old(Contents()), old(accepted), taken) && RoundsMade(rounds, used, old(Room()), taken)
      ensures Stops(rounds, used, failed, old(bufferPos), old(Room()), want)
      ensures buffer == old(buffer) || fresh(buffer)
    {
      taken, failed, used := [], false, 0;
      ghost var c, a, pos, room := Contents(), accepted, bufferPos, Room();
      var again := true;
      while again
        invariant used <= |rounds| && !failed && Since(c, a, again, rounds, used, pos, room, want, taken)
        invariant buffer == old(buffer) || fresh(buffer)
        decreases |rounds| - used
      {
        if used == |rounds| {
          failed := true;
          break;
        }
        again, taken := NextRound(rounds, used, want, c, a, pos, room, taken);
        used := used + 1;
      }
    }

    /** fill_buffer: waits until `want` bytes are there, or the transfer ends, or fails. */
    method FillBuffer(want: nat, rounds: seq<Round>)
      returns (tried: bool, used: nat, ghost taken: seq<Byte>, ghost failed: bool)
      requires Valid()
      modifies this`buffer, this`bufferLen, this`bufferPos, this`accepted, this`stillRunning, buffer
      ensures Gained(old(Contents()), old(accepted), taken)
      ensures buffer == old(buffer) || fresh(buffer)
      ensures tried <==> old(stillRunning) && old(bufferPos) <= want
      ensures Filled(rounds, want, old(Now()), used, failed, taken, stillRunning)
      ensures stillRunning && !failed ==> bufferPos >= want
    {
      taken, failed, used := [], false, 0;
      tried := stillRunning && bufferPos <= want;
      if tried {
        used, taken, failed := FillRounds(want, rounds);
        assert bufferPos == |Contents()| == old(bufferPos) + |taken|;
      }
    }

    /** memmove of the rest of the data to the front. */
    method MoveDown(want: nat)
      requires buffer != null && want <= bufferPos <= buffer.Length
      modifies this`bufferPos, buffer
      ensures bufferPos == old(bufferPos) - want && buffer[..bufferPos] == old(buffer[want..bufferPos])
    {
      forall i | 0 <= i < bufferPos - want {
        buffer[i] := buffer[want + i];
      }
      bufferPos := bufferPos - want;
    }

    /** use_buffer: the first `want` bytes have been copied to a reader. */
    method UseBuffer(want: nat)
      requires Valid() && want <= bufferPos
      modifies this`buffer, this`bufferLen, this`bufferPos, this`delivered, buffer
      ensures Valid() && Contents() == old(Contents())[want..] && bufferPos == old(bufferPos) - want
      ensures delivered == old(delivered) + old(Contents())[..want]
      ensures buffer == if old(bufferPos) == want then null else old(buffer)
    {
      ghost var before := Contents();
      assert delivered + before == (delivered + before[..want]) + before[want..] by {
        assert before == before[..want] + before[want..];
      }
      delivered := delivered + before[..want];
      if bufferPos - want <= 0 {
        buffer := null;
        bufferPos := 0;
        bufferLen := 0;
      } else {
        MoveDown(want);
      }
      assert Contents() == before[want..];
    }

    /** url_feof: at the end, everything accepted has been delivered. */
    method Feof() returns (r: bool)
      requires Valid()
      ensures r <==> Contents() == [] && !stillRunning
      ensures r ==> delivered == accepted
    {
      r := bufferPos == 0 && !stillRunning;
    }

    /** memcpy of the first bytes of the buffer. */
    method CopyOut(ptr: array<Byte>, want: nat)
      requires Valid() && ptr != buffer && want <= bufferPos && want <= ptr.Length
      modifies ptr
      ensures Valid() && Contents() == old(Contents()) && want <= |Contents()|
      ensures ptr[..] == Contents()[..want] + old(ptr[..])[want..]
    {
      if buffer != null {
        forall i | 0 <= i < want {
          ptr[i] := buffer[i];
        }
      }
    }

    /** The first bytes of the buffer go to the caller. */
    method Deliver(ptr: array<Byte>, want: nat) returns (ghost got: seq<Byte>)
      requires Valid() && ptr != buffer && want <= bufferPos && want <= ptr.Length
      modifies this`buffer, this`bufferLen, this`bufferPos, this`delivered, buffer, ptr
      ensures Valid() && (buffer == null || buffer == old(buffer)) && bufferPos == old(bufferPos) - want
      ensures |got| == want && old(Contents()) == got + Contents() && delivered == old(delivered) + got
      ensures ptr[..] == got + old(ptr[..])[want..]
    {
      got := Contents()[..want];
      assert Contents() == got + Contents()[want..];
      CopyOut(ptr, want);
      UseBuffer(want);
    }

    /** The part of url_fread that counts bytes; false if there is no data at all. */
    method ReadBytes(ptr: array<Byte>, limit: nat, rounds: seq<Round>)
      returns (any: bool, want: nat, used: nat, ghost got: seq<Byte>, ghost taken: seq<Byte>, ghost failed: bool)
      requires Valid() && ptr != buffer && limit <= ptr.Length
      modifies this, buffer, ptr
      ensures Valid() && ptr != buffer && (buffer == null || buffer == old(buffer) || fresh(buffer))
      ensures accepted == old(accepted) + taken && delivered == old(delivered) + got
      ensures old(Contents()) + taken == got + Contents()
      ensures |got| == want == Min(limit, |old(Contents()) + taken|) && (any <==> old(Contents()) + taken != [])
      ensures ptr[..] == got + old(ptr[..])[want..]
      ensures Filled(rounds, limit, old(Now()), used, failed, taken, stillRunning)
      ensures want < limit ==> Contents() == [] && (failed || !stillRunning)
    {
      want := limit;
      var tried;
      tried, used, taken, failed := FillBuffer(want, rounds);
      if bufferPos == 0 {
        return false, 0, used, [], taken, failed;
      }
      if bufferPos < want {
        want := bufferPos;
      }
      any := true;
      got := Deliver(ptr, want);
    }

    /** How many whole items the bytes make up.  The program divides by the size of an item. */
    function Items(bytes: nat, size: nat): Option<nat> {
      if size == 0 then None else Some(bytes / size)
    }

    /** url_fread of nmemb items of the given size.  The result is None where the program divides by zero. */
    method Fread(ptr: array<Byte>, size: nat, nmemb: nat, rounds: seq<Round>)
      returns (r: Option<nat>, used: nat, ghost got: seq<Byte>, ghost taken: seq<Byte>, ghost failed: bool)
      requires Valid() && ptr != buffer && nmemb * size <= ptr.Length
      modifies this, buffer, ptr
      ensures Valid() && ptr != buffer && (buffer == null || buffer == old(buffer) || fresh(buffer))
      ensures accepted == old(accepted) + taken && delivered == old(delivered) + got
      ensures old(Contents()) + taken == got + Contents() && |got| == Min(nmemb * size, |old(Contents()) + taken|)
      ensures ptr[..] == got + old(ptr[..])[|got|..]
      ensures r == if |old(Contents()) + taken| == 0 then Some(0) else Items(|got|, size)
      ensures Filled(rounds, nmemb * size, old(Now()), used, failed, taken, stillRunning)
      ensures |got| < nmemb * size ==> Contents() == [] && (failed || !stillRunning)
    {
      var any, want;
      any, want, used, got, taken, failed := ReadBytes(ptr, nmemb * size, rounds);
      r := if !any then Some(0) else Items(want, size);
    }

    /** The newline search of url_fgets: how many of the first `limit` bytes make up the line. */
    method LineLength(limit: nat) returns (want: nat)
      requires Valid() && limit <= bufferPos
      ensures want <= limit <= |Contents()| && OneLine(Contents()[..want])
      ensures want == limit || (want > 0 && Contents()[want - 1] == NEWLINE)
    {
      want := limit;
      var loop := 0;
      while loop < want
        invariant loop <= want == limit
        invariant forall i :: 0 <= i < loop ==> Contents()[i] != NEWLINE
      {
        if buffer[loop] == NEWLINE {
          want := loop + 1;
          break;
        }
        loop := loop + 1;
      }
    }

    lemma ZeroBehind(line: seq<Byte>, was: seq<Byte>)
      requires |line| < |was|
      ensures (line + was[|line|..])[|line| := 0] == line + [0] + was[|line| + 1..]
    {
    }

    /** The search for the end of the line, and the transfer of the line with a zero behind it. */
    method GetLine(ptr: array<Byte>, limit: nat) returns (ghost line: seq<Byte>)
      requires Valid() && ptr != buffer && limit <= bufferPos && limit < ptr.Length
      modifies this`buffer, this`bufferLen, this`bufferPos, this`delivered, buffer, ptr
      ensures Valid() && (buffer == null || buffer == old(buffer))
      ensures old(Contents()) == line + Contents() && delivered == old(delivered) + line
      ensures |line| <= limit && OneLine(line)
      ensures |line| == limit || (line != [] && line[|line| - 1] == NEWLINE)
      ensures ptr[..] == line + [0] + old(ptr[..])[|line| + 1..]
    {
      var want := LineLength(limit);
      assert Contents()[..want] + Contents()[want..] == Contents();
      line := Deliver(ptr, want);
      ZeroBehind(line, old(ptr[..]));
      ptr[want] := 0;
    }

    /** The part of url_fgets behind fill_buffer; false if there is no data. */
    method TakeLine(ptr: array<Byte>, want: nat) returns (r: bool, ghost line: seq<Byte>)
      requires Valid() && ptr != buffer && want < ptr.Length
      modifies this`buffer, this`bufferLen, this`bufferPos, this`delivered, buffer, ptr
      ensures Valid() && (buffer == null || buffer == old(buffer))
      ensures old(Contents()) == line + Contents() && delivered == old(delivered) + line
      ensures (r <==> old(Contents()) != []) && |line| <= want && OneLine(line)
      ensures ptr[..] == if r then line + [0] + old(ptr[..])[|line| + 1..] else old(ptr[..])
      ensures |line| == want || (line != [] && line[|line| - 1] == NEWLINE) || Contents() == []
    {
      assert bufferPos == |Contents()|;
      if bufferPos == 0 {
        return false, [];
      }
      line := GetLine(ptr, Min(want, bufferPos));
      r := true;
    }

    /** url_fgets: false stands for NULL. */
    method Fgets(ptr: array<Byte>, size: nat, rounds: seq<Round>)
      returns (r: bool, used: nat, ghost line: seq<Byte>, ghost taken: seq<Byte>, ghost failed: bool)
      requires Valid() && ptr != buffer && 1 <= size <= ptr.Length
      modifies this, buffer, ptr
      ensures Valid() && ptr != buffer && (buffer == null || buffer == old(buffer) || fresh(buffer))
      ensures accepted == old(accepted) + taken && delivered == old(delivered) + line
      ensures old(Contents()) + taken == line + Contents()
      ensures r <==> old(Contents()) + taken != []
      ensures |line| < size && OneLine(line)
      ensures ptr[..] == if r then line + [0] + old(ptr[..])[|line| + 1..] else old(ptr[..])
      ensures Filled(rounds, size - 1, old(Now()), used, failed, taken, stillRunning)
      ensures |line| == size - 1 || (line != [] && line[|line| - 1] == NEWLINE) ||
              (Contents() == [] && (failed || !stillRunning))
    {
      var want := size - 1;
      var tried;
      tried, used, taken, failed := FillBuffer(want, rounds);
      ghost var there := Contents();
      assert there == old(Contents()) + taken && |there| == bufferPos;
      r, line := TakeLine(ptr, want);
      assert |there| == |line| + |Contents()|;
    }
  }

  /** url_fopen of a URL: one transfer at once; null if that gave no data and ended. */
  method Open(deliveries: seq<Delivery>, running: bool) returns (file: UrlFile?, ghost taken: seq<Byte>)
    ensures taken == Delivered(deliveries, |deliveries|, 0) && (file == null <==> taken == [] && !running)
    ensures file != null ==>
              fresh(file) && (file.buffer == null || fresh(file.buffer)) && file.Valid() &&
              file.delivered == [] && file.accepted == taken && file.stillRunning == running
  {
    var url := new UrlFile();
    taken := url.Transfer(deliveries, running);
    assert url.Contents() == [] + taken == taken && url.accepted == [] + taken == taken;
    file := if url.bufferPos == 0 && !url.stillRunning then null else url;
  }

  /** What can happen to an open file: a call of its reader, or data that another file's call brings. */
  datatype Call =
    | Read(size: nat, nmemb: nat, rounds: seq<Round>)
    | Gets(size: nat, rounds: seq<Round>)
    | Eof
    | Arrival(deliveries: seq<Delivery>)

  /** fill_buffer for want bytes, between two snapshots: what it took, and then bytes went to the reader. */
  ghost predicate FilledThen(rounds: seq<Round>, want: nat, s: Snapshot, taken: seq<Byte>, bytes: seq<Byte>, s': Snapshot) {
    && (exists used: nat, failed :: Filled(rounds, want, s, used, failed, taken, s'.running))
    && s.contents + taken == bytes + s'.contents && s'.accepted == s.accepted + taken
  }

  /** What url_fread copies: the first bytes that are there then, as many as were asked for. */
  ghost predicate ReadMade(want: nat, rounds: seq<Round>, s: Snapshot, taken: seq<Byte>, bytes: seq<Byte>, s': Snapshot) {
    FilledThen(rounds, want, s, taken, bytes, s') && |bytes| == Min(want, |s.contents + taken|)
  }

  /** What url_fgets copies: the bytes up to the first newline, to the size, or to the end of what is there. */
  ghost predicate GetMade(size: nat, rounds: seq<Round>, s: Snapshot, taken: seq<Byte>, bytes: seq<Byte>, s': Snapshot)
    requires size >= 1
  {
    && FilledThen(rounds, size - 1, s, taken, bytes, s') && |bytes| < size && OneLine(bytes)
    && (|bytes| == size - 1 || (bytes != [] && bytes[|bytes| - 1] == NEWLINE) || s'.contents == [])
  }

  /** A call has been made: bytes were copied, and url_feof gave its answer. */
  ghost predicate Made(call: Call, s: Snapshot, bytes: seq<Byte>, answer: bool, s': Snapshot) {
    && s'.copied == s.copied + bytes
    && match call
       case Read(size, nmemb, rounds) => exists taken :: ReadMade(nmemb * size, rounds, s, taken, bytes, s')
       case Gets(size, rounds) => size >= 1 && exists taken :: GetMade(size, rounds, s, taken, bytes, s')
       case Eof => s' == s && bytes == [] && (answer <==> s.contents == [] && !s.running)
       case Arrival(ds) =>
         var taken := Delivered(ds, |ds|, s.room);
         && bytes == [] && s'.running == s.running
         && s'.contents == s.contents + taken && s'.accepted == s.accepted + taken
  }

  /** Nothing is lost, repeated or reordered on the way to the reader. */
  ghost predicate Faithful(s: Snapshot) {
    s.accepted == s.copied + s.contents
  }

  /** When url_feof says so, everything that was accepted has been copied. */
  lemma EofMeansAll(s: Snapshot, bytes: seq<Byte>, s': Snapshot)
    requires Faithful(s) && Made(Eof, s, bytes, true, s')
    ensures s.copied == s.accepted
  {
    assert s.copied + [] == s.copied;
  }

  lemma ReadIsMade(size: nat, nmemb: nat, rounds: seq<Round>, s: Snapshot, used: nat, failed: bool, taken: seq<Byte>,
                   bytes: seq<Byte>, s': Snapshot)
    requires Filled(rounds, nmemb * size, s, used, failed, taken, s'.running)
    requires s.contents + taken == bytes + s'.contents && s'.accepted == s.accepted + taken
    requires |bytes| == Min(nmemb * size, |s.contents + taken|) && s'.copied == s.copied + bytes
    ensures Made(Read(size, nmemb, rounds), s, bytes, false, s')
  {
    assert FilledThen(rounds, nmemb * size, s, taken, bytes, s');
    assert ReadMade(nmemb * size, rounds, s, taken, bytes, s');
  }

  lemma GetIsMade(size: nat, rounds: seq<Round>, s: Snapshot, used: nat, failed: bool, taken: seq<Byte>,
                  bytes: seq<Byte>, s': Snapshot)
    requires size >= 1 && Filled(rounds, size - 1, s, used, failed, taken, s'.running)
    requires s.contents + taken == bytes + s'.contents && s'.accepted == s.accepted + taken
    requires |bytes| < size && OneLine(bytes) && s'.copied == s.copied + bytes
    requires |bytes| == size - 1 || (bytes != [] && bytes[|bytes| - 1] == NEWLINE) || s'.contents == []
    ensures Made(Gets(size, rounds), s, bytes, false, s')
  {
    assert FilledThen(rounds, size - 1, s, taken, bytes, s');
    assert GetMade(size, rounds, s, taken, bytes, s');
  }

  /** url_fread into new memory; the bytes that are there then. */
  method ReadNew(file: UrlFile, size: nat, nmemb: nat, rounds: seq<Round>) returns (ghost bytes: seq<Byte>)
    requires file.Valid()
    modifies file, file.buffer
    ensures file.Valid() && (file.buffer == null || file.buffer == old(file.buffer) || fresh(file.buffer))
    ensures Made(Read(size, nmemb, rounds), old(file.Now()), bytes, false, file.Now())
  {
    var ptr := new Byte[nmemb * size];
    ghost var s := file.Now();
    var r, used, got, taken, failed := file.Fread(ptr, size, nmemb, rounds);
    bytes := ptr[..|got|];
    assert bytes == got;
    ReadIsMade(size, nmemb, rounds, s, used, failed, taken, bytes, file.Now());
  }

  /** url_fgets into new memory; the line that is there then, or nothing. */
  method GetNew(file: UrlFile, size: nat, rounds: seq<Round>) returns (ghost bytes: seq<Byte>)
    requires file.Valid() && size >= 1
    modifies file, file.buffer
    ensures file.Valid() && (file.buffer == null || file.buffer == old(file.buffer) || fresh(file.buffer))
    ensures Made(Gets(size, rounds), old(file.Now()), bytes, false, file.Now())
  {
    var ptr := new Byte[size];
    ghost var s := file.Now();
    var r, used, line, taken, failed := file.Fgets(ptr, size, rounds);
    bytes := if r then ptr[..|line|] else [];
    assert bytes == line;
    GetIsMade(size, rounds, s, used, failed, taken, bytes, file.Now());
  }

  /** One call. */
  method Make(file: UrlFile, call: Call) returns (ghost bytes: seq<Byte>, answer: bool)
    requires file.Valid() && (call.Gets? ==> call.size >= 1)
    modifies file, file.buffer
    ensures file.Valid() && (file.buffer == null || file.buffer == old(file.buffer) || fresh(file.buffer))
    ensures Made(call, old(file.Now()), bytes, answer, file.Now())
  {
    bytes, answer := [], false;
    match call {
      case Read(size, nmemb, rounds) => bytes := ReadNew(file, size, nmemb, rounds);
      case Gets(size, rounds) => bytes := GetNew(file, size, rounds);
      case Eof => answer := file.Feof();
      case Arrival(deliveries) => ghost var taken := file.Receive(deliveries);
    }
    assert file.delivered == old(file.delivered) + bytes;
  }

  /** The calls have been made one after the other, from the first snapshot to the last. */
  ghost predicate AllMade(calls: seq<Call>, snaps: seq<Snapshot>, parts: seq<seq<Byte>>, answers: seq<bool>) {
    && |snaps| == |calls| + 1 == |parts| + 1 == |answers| + 1
    && (forall i :: 0 <= i < |calls| ==> Made(calls[i], snaps[i], parts[i], answers[i], snaps[i + 1]))
    && (forall i :: 0 <= i < |snaps| ==> Faithful(snaps[i]))
  }

  lemma MadeNext(calls: seq<Call>, snaps: seq<Snapshot>, parts: seq<seq<Byte>>, answers: seq<bool>, i: nat,
                 bytes: seq<Byte>, answer: bool, s: Snapshot)
    requires i < |calls| && AllMade(calls[..i], snaps, parts, answers)
    requires Made(calls[i], snaps[i], bytes, answer, s) && Faithful(s)
    ensures AllMade(calls[..i + 1], snaps + [s], parts + [bytes], answers + [answer])
  {
  }

  /** A reader that opens a URL and makes any calls, while data may also come in between.  Every call does its
      work on what the one before left, and at every time what has been copied to the reader is, in order, what
      the transfer handed over, but for what the buffer still holds. */
  method Session(deliveries: seq<Delivery>, running: bool, calls: seq<Call>)
    returns (file: UrlFile?, ghost snaps: seq<Snapshot>, ghost parts: seq<seq<Byte>>, answers: seq<bool>)
    requires forall c :: c in calls && c.Gets? ==> c.size >= 1
    ensures file == null <==> Delivered(deliveries, |deliveries|, 0) == [] && !running
    ensures file != null ==>
              file.Valid() && AllMade(calls, snaps, parts, answers) && snaps[|calls|] == file.Now() &&
              snaps[0].copied == [] && snaps[0].accepted == Delivered(deliveries, |deliveries|, 0) &&
              snaps[0].running == running
  {
    snaps, parts, answers := [], [], [];
    ghost var taken;
    file, taken := Open(deliveries, running);
    if file == null {
      return;
    }
    snaps := [file.Now()];
    for i := 0 to |calls|
      invariant fresh(file) && (file.buffer == null || fresh(file.buffer)) && file.Valid()
      invariant AllMade(calls[..i], snaps, parts, answers) && snaps[i] == file.Now()
      invariant snaps[0].copied == [] && snaps[0].accepted == taken && snaps[0].running == running
    {
      assert calls[i] in calls;
      ghost var bytes;
      var answer;
      bytes, answer := Make(file, calls[i]);
      MadeNext(calls, snaps, parts, answers, i, bytes, answer, file.Now());
      snaps, parts, answers := snaps + [file.Now()], parts + [bytes], answers + [answer];
    }
    assert calls[..|calls|] == calls;
  }
}
