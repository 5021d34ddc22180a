/** The pipe as one object whose methods update its fields and its buffer in place, one call at a
    time. The interleaving of two threads inside these calls is the subject of `PipeProtocol`. */
module Pipe {
  import opened Bytes
  import opened PipeLayout
  import opened PipeWords
  import opened PipeWalk
  import opened PipeObservers
  import opened PipeValidation
  import opened PipeProgress

  /** The unread records are in the buffer. */
  ghost predicate AllHeld(c: Config, buf: seq<byte>, log: seq<seq<byte>>, taken: nat, upto: nat)
    requires |buf| == c.size && upto <= |log|
  {
    forall k: nat {:trigger StartOf(c, log, k)} | taken <= k < upto :: Holds(c, buf, StartOf(c, log, k), log[k])
  }

  /** Is this one of the bytes that the header and the payload of a record placed here occupy? */
  predicate RecordTouches(c: Config, at: Position, length: nat, x: nat) {
    var h, p := HeaderStart(c, at).pointer, PayloadStart(c, at, length).pointer;
    h <= x < h + 4 || p <= x < p + length
  }

  lemma TouchedIsCell(c: Config, at: Position, length: nat, x: nat)
    requires RecordTouches(c, at, length, x)
    ensures exists l: nat :: l < 4 + length && CellAt(c, at, length, l).pointer == x
  {
    var h, p := HeaderStart(c, at).pointer, PayloadStart(c, at, length).pointer;
    if h <= x < h + 4 {
      assert CellAt(c, at, length, x - h).pointer == x;
    } else {
      assert CellAt(c, at, length, 4 + (x - p)).pointer == x;
    }
  }

  /** Writing a record where the next one goes leaves all unread records intact. */
  lemma WriteKeepsUnread(c: Config, before: seq<byte>, after: seq<byte>, log: seq<seq<byte>>, taken: nat, length: nat)
    requires Sound(c) && Admissible(c, log) && |before| == |after| == c.size && taken <= |log| && length <= c.cap
    requires Before(Finish(c, StartOf(c, log, |log|), length), Lap(StartOf(c, log, taken)))
    requires AllHeld(c, before, log, taken, |log|)
    requires forall x: nat | x < c.size ::
        RecordTouches(c, StartOf(c, log, |log|), length, x) || after[x] == before[x]
    ensures AllHeld(c, after, log, taken, |log|)
  {
    hide StartOf, Finish, Before, Holds, RecordTouches;
    forall i: nat | taken <= i < |log|
      ensures Holds(c, after, StartOf(c, log, i), log[i])
    {
      WriteKeepsOne(c, before, after, log, taken, i, length);
    }
  }

  lemma WriteKeepsOne(c: Config, before: seq<byte>, after: seq<byte>, log: seq<seq<byte>>, taken: nat, i: nat,
      length: nat)
    requires Sound(c) && Admissible(c, log) && |before| == |after| == c.size && taken <= i < |log| && length <= c.cap
    requires Before(Finish(c, StartOf(c, log, |log|), length), Lap(StartOf(c, log, taken)))
    requires Holds(c, before, StartOf(c, log, i), log[i])
    requires forall x: nat | x < c.size ::
        RecordTouches(c, StartOf(c, log, |log|), length, x) || after[x] == before[x]
    ensures Holds(c, after, StartOf(c, log, i), log[i])
  {
    hide StartOf, CellAt, RecordTouches, Finish;
    var a, b := StartOf(c, log, i), StartOf(c, log, |log|);
    StartInRing(c, log, i);
    StartInRing(c, log, |log|);
    StartsIncrease(c, log, taken, i);
    StartsIncrease(c, log, i + 1, |log|);
    NextStart(c, log, i);
    forall k: nat | k < 4 + |log[i]|
      ensures after[CellAt(c, a, |log[i]|, k).pointer] == before[CellAt(c, a, |log[i]|, k).pointer]
    {
      var x := CellAt(c, a, |log[i]|, k).pointer;
      if RecordTouches(c, b, length, x) {
        TouchedIsCell(c, b, length, x);
        var l: nat :| l < 4 + length && CellAt(c, b, length, l).pointer == x;
        RecordsAreDisjoint(c, a, |log[i]|, k, b, length, l);
      }
    }
  }

  lemma PointersFit(c: Config, at: Position, length: nat)
    requires Sound(c) && InRing(c, at) && length <= c.cap
    ensures HeaderStart(c, at).pointer + 4 <= c.size && PayloadStart(c, at, length).pointer + length <= c.size
  {
  }

  /** The header and payload that were stored make up the record. */
  lemma StoredRecord(c: Config, buf: seq<byte>, at: Position, msg: seq<byte>)
    requires Sound(c) && InRing(c, at) && |msg| <= c.cap && |buf| == c.size
    requires var plan := Place(c, Word(at), |msg|);
             && plan.lengthPtr + 4 <= |buf| && buf[plan.lengthPtr..plan.lengthPtr + 4] == Encode32(|msg|)
             && plan.payloadPtr + |msg| <= |buf| && buf[plan.payloadPtr..plan.payloadPtr + |msg|] == msg
    ensures Holds(c, buf, at, msg)
  {
    hide Place, Word, Encode32;
    PlaceRefines(c, at, |msg|);
    PointersFit(c, at, |msg|);
    var h, p := HeaderStart(c, at).pointer, PayloadStart(c, at, |msg|).pointer;
    forall k: nat | k < 4 + |msg|
      ensures CellAt(c, at, |msg|, k).pointer < |buf| && buf[CellAt(c, at, |msg|, k).pointer] == Frame(msg)[k]
    {
      if k < 4 {
        assert buf[h + k] == buf[h..h + 4][k];
      } else {
        assert buf[p + (k - 4)] == buf[p..p + |msg|][k - 4];
      }
    }
  }

  /** The header and the payload of an admitted record do not overlap. */
  lemma PartsDoNotOverlap(c: Config, at: Position, length: nat)
    requires InRing(c, at) && length + 4 <= c.size && AtOrBefore(Finish(c, at, length), Lap(at))
    ensures var h, p := HeaderStart(c, at).pointer, PayloadStart(c, at, length).pointer;
            h + 4 <= p || p + length <= h
  {
  }

  /** Comparing the words tells whether anything is unread. */
  lemma QueueIsEmpty(c: Config, log: seq<seq<byte>>, taken: nat)
    requires Sound(c) && Admissible(c, log) && taken <= |log|
    requires Before(StartOf(c, log, |log|), Lap(StartOf(c, log, taken)))
    ensures WordAt(c, log, taken) == WordAt(c, log, |log|) <==> log[taken..] == []
  {
    hide StartOf, Word;
    StartInRing(c, log, taken);
    StartInRing(c, log, |log|);
    StartsIncrease(c, log, taken, |log|);
    EmptyRefines(c, StartOf(c, log, taken), StartOf(c, log, |log|));
  }

  /** A full pipe has something to read. */
  lemma EmptyHasRoom(c: Config, log: seq<seq<byte>>, taken: nat, length: uint32)
    requires Releasing(c) && Admissible(c, log) && taken <= |log| && length <= c.cap
    requires IsFull32(c, WordAt(c, log, taken), WordAt(c, log, |log|), length)
    ensures taken < |log|
  {
    hide StartOf, Word, IsFull32;
    StartInRing(c, log, taken);
    StartInRing(c, log, |log|);
    FullRefines(c, StartOf(c, log, taken), StartOf(c, log, |log|), length);
  }

  /** A pipe that is not full has room for the record within a lap of the reader. */
  lemma RoomAhead(c: Config, log: seq<seq<byte>>, taken: nat, length: uint32)
    requires Sound(c) && Admissible(c, log) && taken <= |log| && length <= c.cap
    requires Before(StartOf(c, log, |log|), Lap(StartOf(c, log, taken)))
    requires !IsFull32(c, WordAt(c, log, taken), WordAt(c, log, |log|), length)
    ensures Before(Finish(c, StartOf(c, log, |log|), length), Lap(StartOf(c, log, taken)))
    ensures InRing(c, StartOf(c, log, |log|))
    ensures Place(c, WordAt(c, log, |log|), length)
            == Placement(HeaderStart(c, StartOf(c, log, |log|)).pointer,
                         PayloadStart(c, StartOf(c, log, |log|), length).pointer,
                         Word(Finish(c, StartOf(c, log, |log|), length)))
  {
    hide StartOf, Word, IsFull32, IsFull, Place, HeaderStart, PayloadStart, Finish;
    StartInRing(c, log, taken);
    StartInRing(c, log, |log|);
    StartsIncrease(c, log, taken, |log|);
    FullRefines(c, StartOf(c, log, taken), StartOf(c, log, |log|), length);
    FullIffPastLap(c, StartOf(c, log, taken), StartOf(c, log, |log|), length);
    PlaceRefines(c, StartOf(c, log, |log|), length);
  }

  /** Was the pipe full for this length when the reader stood at record `k`? */
  ghost predicate FullAt(c: Config, log: seq<seq<byte>>, k: nat, writeWord: uint64, length: uint32) {
    k <= |log| && IsFull32(c, WordAt(c, log, k), writeWord, length)
  }

  /** The length is in its place. */
  ghost predicate HeaderStored(c: Config, buf: seq<byte>, at: Position, length: nat) {
    var h := HeaderStart(c, at).pointer;
    h + 4 <= |buf| && buf[h..h + 4] == Encode32(length)
  }

  /** The header stays as it was stored while the payload is copied. */
  lemma HeaderSurvives(c: Config, before: seq<byte>, after: seq<byte>, at: Position, msg: seq<byte>)
    requires Sound(c) && InRing(c, at) && |msg| <= c.cap && |before| == |after| == c.size
    requires AtOrBefore(Finish(c, at, |msg|), Lap(at)) && HeaderStored(c, before, at, |msg|)
    requires var p := PayloadStart(c, at, |msg|).pointer;
             && p + |msg| <= c.size && after[p..p + |msg|] == msg
             && forall x: nat | x < c.size && !(p <= x < p + |msg|) :: after[x] == before[x]
    ensures HeaderStored(c, after, at, |msg|) && Holds(c, after, at, msg)
  {
    PartsDoNotOverlap(c, at, |msg|);
    hide HeaderStart, PayloadStart, Finish, Encode32, Place, Word, Holds;
    var h := HeaderStart(c, at).pointer;
    PlaceRefines(c, at, |msg|);
    assert after[h..h + 4] == before[h..h + 4];
    StoredRecord(c, after, at, msg);
  }

  lemma RoomForBoth(c: Config, log: seq<seq<byte>>, taken: nat, length: nat)
    requires Sound(c) && Admissible(c, log) && taken <= |log|
    requires Before(Finish(c, StartOf(c, log, |log|), length), Lap(StartOf(c, log, taken)))
    ensures AtOrBefore(Finish(c, StartOf(c, log, |log|), length), Lap(StartOf(c, log, |log|)))
  {
    hide StartOf, Finish;
    StartsIncrease(c, log, taken, |log|);
  }

  /** The log with the new record at its end. */
  lemma OneMoreRecord(c: Config, buf: seq<byte>, log: seq<seq<byte>>, taken: nat, msg: seq<byte>)
    requires |buf| == c.size && taken <= |log| && AllHeld(c, buf, log, taken, |log|)
    requires Holds(c, buf, StartOf(c, log, |log|), msg)
    ensures StartOf(c, log + [msg], |log| + 1) == Finish(c, StartOf(c, log, |log|), |msg|)
    ensures StartOf(c, log + [msg], taken) == StartOf(c, log, taken)
    ensures AllHeld(c, buf, log + [msg], taken, |log| + 1)
  {
    hide Holds, Finish;
    var more := log + [msg];
    StartOfPrefix(c, log, [msg], taken);
    StartOfPrefix(c, log, [msg], |log|);
    NextStart(c, more, |log|);
    forall k: nat | taken <= k < |more|
      ensures Holds(c, buf, StartOf(c, more, k), more[k])
    {
      StartOfPrefix(c, log, [msg], if k < |log| then k else |log|);
    }
  }

  lemma CountsInOrder(read: nat, written: nat)
    requires read <= written < TWO_64
    ensures Count64(read) <= Count64(written)
  {
  }

  /** Byte conservation for the records between the reader and the writer. */
  lemma UsedBytesAreUnread(c: Config, log: seq<seq<byte>>, taken: nat)
    requires Sound(c) && Admissible(c, log) && taken <= |log|
    requires Before(StartOf(c, log, |log|), Lap(StartOf(c, log, taken)))
    ensures var used := UsedBytes(c, PointerOf(WordAt(c, log, taken)), PointerOf(WordAt(c, log, |log|)));
            used == Occupied(c, log, taken, |log|) && 0 <= used <= c.size && (used == 0 <==> taken == |log|)
    ensures |log| - taken <= c.size / 4
  {
    hide StartOf, Word, Occupied, UsedBytes;
    StartsIncrease(c, log, taken, |log|);
    UsedBytesAreOccupied(c, log, taken, |log|);
  }

  /** What `startWrite` answers. */
  datatype Grant = Granted(payloadPtr: nat) | TooLong | NoRoom | Interrupted

  /** What `pop` answers: a record of length zero is an internal error of the reader. */
  datatype Popped = Record(data: seq<byte>) | InternalReadError | NothingYet

  class LocklessPipe {
    const c: Config
    const buf: array<byte>
    var readVPtr: uint64
    var writeVPtr: uint64
    var nextWriteVPtr: uint64
    var numRead: uint64
    var numWritten: uint64
    var isWriterRunning: bool
    /** Every record pushed since the pipe was cleared, and how many of them were read. */
    ghost var log: seq<seq<byte>>
    ghost var taken: nat

    /** All but the announced position, which runs ahead during a write. */
    ghost predicate Consistent()
      reads this, buf
    {
      && buf.Length == c.size && Releasing(c) && Admissible(c, log) && taken <= |log|
      && readVPtr == WordAt(c, log, taken) && writeVPtr == WordAt(c, log, |log|)
      && numRead == Count64(taken) && numWritten == Count64(|log|)
      && Before(StartOf(c, log, |log|), Lap(StartOf(c, log, taken)))
      && AllHeld(c, buf[..], log, taken, |log|)
    }

    ghost predicate Valid()
      reads this, buf
    {
      Consistent() && nextWriteVPtr == writeVPtr
    }

    /** The records that a reader will still get. */
    ghost function Unread(): seq<seq<byte>>
      requires taken <= |log|
      reads this
    {
      log[taken..]
    }

    constructor (size: nat)
      requires 10 <= size && size + size / 2 - 2 < TWO_32
      ensures Valid() && c == Standard(size) && fresh(buf)
      ensures Unread() == [] && isWriterRunning && numRead == 0 && numWritten == 0
    {
      StandardReleases(size);
      c := Standard(size);
      buf := new byte[size];
      isWriterRunning := true;
      new;
      Clear();
    }

    method Clear()
      requires buf.Length == c.size && Releasing(c)
      modifies this
      ensures Valid() && Unread() == [] && isWriterRunning == old(isWriterRunning)
      ensures readVPtr == writeVPtr == 0 && numRead == 0 && numWritten == 0
    {
      readVPtr := 0;
      writeVPtr := 0;
      nextWriteVPtr := 0;
      numRead := 0;
      numWritten := 0;
      log := [];
      taken := 0;
    }

    predicate IsFull(length: uint32)
      reads this
    {
      IsFull32(c, readVPtr, writeVPtr, length)
    }

    /** The assumed reader: the mirror of `startWrite` on a pipe that is not empty. */
    method Read() returns (data: seq<byte>)
      requires Valid() && Unread() != []
      modifies this`readVPtr, this`numRead, this`taken
      ensures Valid() && data == old(Unread())[0] && Unread() == old(Unread())[1..]
      ensures taken == old(taken) + 1
    {
      hide HeaderPlace, PayloadPlace, Word, VersionedPointer, Add32, Decode32, Holds, StartOf, Finish, Increment64,
          Count64;
      NextStart(c, log, taken);
      StartInRing(c, log, taken);
      RecordDecodes(c, buf[..], StartOf(c, log, taken), log[taken]);
      StartsIncrease(c, log, taken, taken + 1);
      IncrementCounts(taken);
      var header := HeaderPlace(c, readVPtr);
      var length := Decode32(buf[header.1..header.1 + 4]);
      var payload := PayloadPlace(c, header, length);
      data := buf[payload.1..payload.1 + length];
      readVPtr := VersionedPointer(payload.0, Add32(payload.1, length));
      numRead := Increment64(numRead);
      taken := taken + 1;
    }

    /** Take the oldest record. A caller that finds the pipe empty waits; here it is told so. */
    method Pop() returns (r: Popped)
      requires Valid()
      modifies this`readVPtr, this`numRead, this`taken
      ensures Valid()
      ensures old(Unread()) == [] ==> r == NothingYet && Unread() == []
      ensures old(Unread()) != [] ==>
                && Unread() == old(Unread())[1..]
                && r == (if old(Unread())[0] == [] then InternalReadError else Record(old(Unread())[0]))
    {
      if IsEmpty() {
        return NothingYet;
      }
      var data := Read();
      return if |data| == 0 then InternalReadError else Record(data);
    }

    predicate IsEmpty()
      requires Valid()
      reads this, buf
      ensures IsEmpty() <==> Unread() == []
    {
      QueueIsEmpty(c, log, taken);
      readVPtr == writeVPtr
    }

    /** Copy bytes into the buffer, as `memcpy` does. */
    method Copy(at: nat, bytes: seq<byte>)
      requires at + |bytes| <= buf.Length
      modifies buf
      ensures buf[at..at + |bytes|] == bytes
      ensures forall x: nat | x < buf.Length && !(at <= x < at + |bytes|) :: buf[x] == old(buf[x])
    {
      for k := 0 to |bytes|
        invariant forall i | 0 <= i < k :: buf[at + i] == bytes[i]
        invariant forall x: nat | x < buf.Length && !(at <= x < at + k) :: buf[x] == old(buf[x])
      {
        buf[at + k] := bytes[k];
      }
    }

    /** The wait loop of `startWrite`. While the writer sleeps the reader may run; here it takes
        one record, which is handed back in `delivered`. The loop ends because an empty pipe is
        never full, and it goes on exactly as long as the pipe is full. */
    method WaitForRoom(length: uint32, block: bool) returns (full: bool, ghost delivered: seq<seq<byte>>)
      requires Valid() && length <= c.cap
      modifies this`readVPtr, this`numRead, this`taken
      ensures Valid() && full == IsFull(length)
      ensures taken == old(taken) + |delivered| && delivered == old(Unread())[..|delivered|]
      ensures isWriterRunning && block ==> !full
      ensures !isWriterRunning || !block ==> delivered == []
      ensures forall k | old(taken) <= k < taken :: FullAt(c, log, k, writeVPtr, length)
    {
      hide StartOf, Word, Holds, IsFull32, Before, Lap;
      delivered := [];
      full := IsFull(length);
      while full && isWriterRunning && block
        invariant Valid() && full == IsFull(length)
        invariant taken == old(taken) + |delivered| && delivered == old(Unread())[..|delivered|]
        invariant !isWriterRunning || !block ==> delivered == []
        invariant forall k | old(taken) <= k < taken :: FullAt(c, log, k, writeVPtr, length)
        decreases |log| - taken
      {
        EmptyHasRoom(c, log, taken, length);
        var popped := Read();
        delivered := delivered + [popped];
        full := IsFull(length);
      }
    }

    /** What `startWrite` does once there is room: announce the next position, store the length. */
    method Announce(length: uint32) returns (payloadPtr: nat)
      requires Valid() && length <= c.cap && !IsFull(length)
      modifies this`nextWriteVPtr, buf
      ensures Consistent() && Announced(length)
      ensures payloadPtr == PayloadStart(c, StartOf(c, log, |log|), length).pointer
    {
      hide StartOf, Finish, Holds, Word, Place, HeaderStart, PayloadStart, IsFull32, Lap, Before;
      ghost var before := buf[..];
      var plan := Place(c, writeVPtr, length);
      RoomAhead(c, log, taken, length);
      PointersFit(c, StartOf(c, log, |log|), length);
      nextWriteVPtr := plan.end;
      Copy(plan.lengthPtr, Encode32(length));
      WriteKeepsUnread(c, before, buf[..], log, taken, length);
      return plan.payloadPtr;
    }

    /** Between `startWrite` and `finishWrite`: the next position is announced, with room for the
        record within a lap of the reader, and its length is stored. */
    ghost predicate Announced(length: nat)
      requires taken <= |log|
      reads this, buf
    {
      && Before(Finish(c, StartOf(c, log, |log|), length), Lap(StartOf(c, log, taken)))
      && nextWriteVPtr == Word(Finish(c, StartOf(c, log, |log|), length))
      && HeaderStored(c, buf[..], StartOf(c, log, |log|), length)
    }

    /** `startWrite`. A record that is too long, a stopped writer, or a full pipe for a caller that
        does not block leave everything as it was. */
    method StartWrite(length: uint32, block: bool) returns (r: Grant, ghost delivered: seq<seq<byte>>)
      requires Valid()
      modifies this`readVPtr, this`numRead, this`taken, this`nextWriteVPtr, buf
      ensures r == (if length > c.cap then TooLong
                    else if !isWriterRunning then Interrupted
                    else if !block && old(IsFull(length)) then NoRoom
                    else Granted(PayloadStart(c, StartOf(c, log, |log|), length).pointer))
      ensures Consistent() && taken == old(taken) + |delivered| && delivered == old(Unread())[..|delivered|]
      ensures !r.Granted? ==> Valid() && delivered == [] && buf[..] == old(buf[..])
      ensures r.Granted? ==> Announced(length)
      ensures forall k | old(taken) <= k < taken :: FullAt(c, log, k, writeVPtr, length)
    {
      hide StartOf, Finish, Holds, Word, HeaderStored, PayloadStart, IsFull32, Lap, Before;
      if length > c.cap {
        return TooLong, [];
      }
      var full;
      full, delivered := WaitForRoom(length, block);
      if !isWriterRunning {
        return Interrupted, delivered;
      }
      if !block && full {
        return NoRoom, delivered;
      }
      var payloadPtr := Announce(length);
      return Granted(payloadPtr), delivered;
    }

    /** `finishWrite`: count the record and publish it. The caller has stored `msg` at the place
        that `startWrite` gave it. */
    method FinishWrite(ghost msg: seq<byte>)
      requires Consistent() && |msg| <= c.cap && Announced(|msg|)
      requires Holds(c, buf[..], StartOf(c, log, |log|), msg)
      modifies this`numWritten, this`writeVPtr, this`log
      ensures Valid() && Unread() == old(Unread()) + [msg]
    {
      hide StartOf, Finish, Holds, Word, Count64, Increment64, HeaderStored, Before, Lap;
      IncrementCounts(|log|);
      OneMoreRecord(c, buf[..], log, taken, msg);
      numWritten := Increment64(numWritten);
      writeVPtr := nextWriteVPtr;
      log := log + [msg];
    }

    /** `push`: blocks until there is room, then appends the record to the unread ones. A record
        that is too long, or a stopped writer, leaves the pipe as it was. */
    method Push(value: seq<byte>) returns (r: Grant, ghost delivered: seq<seq<byte>>)
      requires Valid() && |value| < TWO_32
      modifies this`readVPtr, this`numRead, this`taken, this`nextWriteVPtr, this`numWritten, this`writeVPtr,
          this`log, buf
      ensures Valid()
      ensures |value| > c.cap ==> r == TooLong
      ensures |value| <= c.cap && !isWriterRunning ==> r == Interrupted
      ensures |value| > c.cap || !isWriterRunning ==> Unread() == old(Unread()) && buf[..] == old(buf[..])
      ensures |value| <= c.cap && isWriterRunning ==>
                && r.Granted? && |delivered| <= |old(Unread())|
                && delivered == old(Unread())[..|delivered|]
                && Unread() == old(Unread())[|delivered|..] + [value]
                && (!old(IsFull(|value|)) ==> delivered == [])
    {
      hide StartOf, Finish, Word, PayloadStart, IsFull32, HeaderStored, Before, Lap;
      r, delivered := StartWrite(|value|, true);
      assert delivered != [] ==> FullAt(c, log, old(taken), writeVPtr, |value|);
      if r.Granted? {
        StorePayload(r.payloadPtr, value);
        FinishWrite(value);
      }
    }

    /** The copy that `push` makes between `startWrite` and `finishWrite`. */
    method StorePayload(payloadPtr: nat, value: seq<byte>)
      requires Consistent() && |value| <= c.cap && Announced(|value|)
      requires payloadPtr == PayloadStart(c, StartOf(c, log, |log|), |value|).pointer
      modifies buf
      ensures Consistent() && Announced(|value|) && Holds(c, buf[..], StartOf(c, log, |log|), value)
    {
      hide StartOf, Finish, Holds, Word, HeaderStart, PayloadStart, Lap, Before;
      ghost var before := buf[..];
      StartInRing(c, log, |log|);
      RoomForBoth(c, log, taken, |value|);
      PointersFit(c, StartOf(c, log, |log|), |value|);
      Copy(payloadPtr, value);
      WriteKeepsUnread(c, before, buf[..], log, taken, |value|);
      HeaderSurvives(c, before, buf[..], StartOf(c, log, |log|), value);
    }

    /** `count` is the number of unread records. */
    function Count(): (n: uint32)
      requires Valid()
      reads this, buf
      ensures n == |Unread()|
    {
      UsedBytesAreUnread(c, log, taken);
      DifferenceSurvives(|log|, taken);
      Count32(numWritten, numRead)
    }

    /** The numerator of `percentFull` is what the unread records occupy. */
    function BytesUsed(): (n: int)
      requires Valid()
      reads this, buf
      ensures n == Occupied(c, log, taken, |log|)
      ensures 0 <= n <= c.size && (n == 0 <==> Unread() == [])
    {
      UsedBytesAreUnread(c, log, taken);
      UsedBytes(c, PointerOf(readVPtr), PointerOf(writeVPtr))
    }

    /** `validate` finds nothing wrong exactly when the fields are plausible, and so for a pipe
        between two calls. */
    method Validate() returns (valid: bool)
      ensures c.size < 0x1_0000_0000 ==> (valid <==> Plausible(c, numRead, numWritten, readVPtr, writeVPtr))
      ensures Valid() && |log| < TWO_64 ==> valid
    {
      hide StartOf, Word, Holds, Lap, Before, PipeValidation.Valid, Plausible, Count64;
      valid := PipeValidation.Valid(c, numRead, numWritten, readVPtr, writeVPtr);
      if c.size < 0x1_0000_0000 {
        ValidIff(c, numRead, numWritten, readVPtr, writeVPtr);
      }
      if Valid() && |log| < TWO_64 {
        StartInRing(c, log, taken);
        StartInRing(c, log, |log|);
        StartsIncrease(c, log, taken, |log|);
        CountsInOrder(taken, |log|);
        PositionsAreValid(c, StartOf(c, log, taken), StartOf(c, log, |log|), numRead, numWritten);
      }
    }

    /** The bytes in the buffer are the unread records: walking them decodes nothing else. */
    lemma WalkIsUnread()
      requires Valid()
      ensures Walk(c, buf[..], readVPtr, writeVPtr, c.size / 4) == Some(Unread())
    {
      hide StartOf, Word, Holds, Walk;
      StartsIncrease(c, log, taken, |log|);
      UsedBytesAreUnread(c, log, taken);
      WalkDecodes(c, buf[..], log, taken, |log|, c.size / 4);
      assert log[taken..|log|] == log[taken..];
    }
  }
}
