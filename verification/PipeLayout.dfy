/** Where records lie in the ring: positions with unbounded lap numbers, the placement rule of
    the writer, the admission test, and the order of the bytes of consecutive records. */
module PipeLayout {
  import opened Bytes

  /** A place in the ring: the lap number and the offset in the buffer. An offset may equal the
      buffer size, when a record ended exactly at the end of the buffer. */
  datatype Position = Position(version: nat, pointer: nat)

  /** The size of the buffer and the greatest length the writer accepts. */
  datatype Config = Config(size: nat, cap: nat)

  /** A record with its header fits the buffer, and no sum that the code computes reaches 2^32. */
  predicate Sound(c: Config) {
    c.cap + 4 <= c.size && c.size + 4 < 0x1_0000_0000 && c.size + c.cap + 3 < 0x1_0000_0000
  }

  /** The cap of the original: half the buffer less the header and one byte. */
  function Standard(size: nat): Config
    requires 10 <= size
  {
    Config(size, size / 2 - (4 + 1))
  }

  predicate Before(a: Position, b: Position) {
    a.version < b.version || (a.version == b.version && a.pointer < b.pointer)
  }

  predicate AtOrBefore(a: Position, b: Position) {
    a == b || Before(a, b)
  }

  /** The same offset one lap later. */
  function Lap(a: Position): Position {
    Position(a.version + 1, a.pointer)
  }

  predicate IsWrap(c: Config, length: nat, pointer: nat) {
    pointer + length > c.size
  }

  function HeaderStart(c: Config, at: Position): Position {
    if IsWrap(c, 4, at.pointer) then Position(at.version + 1, 0) else at
  }

  function PayloadStart(c: Config, at: Position, length: nat): Position {
    var h := HeaderStart(c, at);
    if IsWrap(c, length, h.pointer + 4) then Position(h.version + 1, 0) else Position(h.version, h.pointer + 4)
  }

  /** The position after a record of this length written at `at`. */
  function Finish(c: Config, at: Position, length: nat): Position {
    var p := PayloadStart(c, at, length);
    Position(p.version, p.pointer + length)
  }

  /** Is there no room for a record of this length? Decided from the two offsets alone. */
  predicate IsFull(c: Config, readPtr: nat, writePtr: nat, length: nat) {
    if readPtr > writePtr then
      !(writePtr + (length + 4) < readPtr)
    else if IsWrap(c, 4, writePtr) then
      !(length + 4 < readPtr)
    else if IsWrap(c, length, writePtr + 4) then
      !(length < readPtr)
    else
      false
  }

  /** The writer is at or ahead of the reader, by less than one lap. */
  predicate WithinLap(r: Position, w: Position) {
    AtOrBefore(r, w) && Before(w, Lap(r))
  }

  predicate InRing(c: Config, p: Position) {
    p.pointer <= c.size
  }

  /** Where byte `k` of a record (four header bytes, then the payload) is stored. */
  function CellAt(c: Config, at: Position, length: nat, k: nat): Position {
    if k < 4 then
      var h := HeaderStart(c, at);
      Position(h.version, h.pointer + k)
    else
      var p := PayloadStart(c, at, length);
      Position(p.version, p.pointer + (k - 4))
  }

  // ---------------------------------------------------------------------------------------
  // One record

  /** A write never bumps the lap number twice, moves strictly forward, and ends in the ring. */
  lemma FinishAdvances(c: Config, at: Position, length: nat)
    requires length + 4 <= c.size && InRing(c, at)
    ensures InRing(c, Finish(c, at, length))
    ensures at.version <= Finish(c, at, length).version <= at.version + 1
    ensures Before(at, Finish(c, at, length))
  {
  }

  /** Every byte of a record lies inside the buffer, between its start and its end. */
  lemma CellInside(c: Config, at: Position, length: nat, k: nat)
    requires length + 4 <= c.size && InRing(c, at) && k < 4 + length
    ensures CellAt(c, at, length, k).pointer < c.size
    ensures AtOrBefore(at, CellAt(c, at, length, k))
    ensures Before(CellAt(c, at, length, k), Finish(c, at, length))
  {
  }

  /** Two different bytes of one record have different offsets, if it ends within a lap. */
  lemma CellsOfOneRecordDiffer(c: Config, at: Position, length: nat, k: nat, l: nat)
    requires length + 4 <= c.size && InRing(c, at) && k < l < 4 + length
    requires AtOrBefore(Finish(c, at, length), Lap(at))
    ensures CellAt(c, at, length, k).pointer != CellAt(c, at, length, l).pointer
  {
  }

  /** The pointer-only admission test is the simple versioned one: full exactly when the write
      would end at or past the reader's offset one lap later. */
  lemma FullIffPastLap(c: Config, r: Position, w: Position, length: nat)
    requires length + 4 <= c.size && InRing(c, r) && InRing(c, w) && WithinLap(r, w)
    ensures IsFull(c, r.pointer, w.pointer, length) <==> AtOrBefore(Lap(r), Finish(c, w, length))
  {
  }

  /** Reading more never makes a pipe full that was not. */
  lemma StaysNotFull(c: Config, r: Position, r': Position, w: Position, length: nat)
    requires length + 4 <= c.size && InRing(c, r) && InRing(c, r') && InRing(c, w)
    requires WithinLap(r, w) && AtOrBefore(r, r') && AtOrBefore(r', w)
    requires !IsFull(c, r.pointer, w.pointer, length)
    ensures !IsFull(c, r'.pointer, w.pointer, length)
  {
    FullIffPastLap(c, r, w, length);
    FullIffPastLap(c, r', w, length);
  }

  /** An empty pipe takes every length up to the standard cap, wherever its pointers stand. */
  lemma EmptyIsNeverFull(size: nat, p: nat, length: nat)
    requires 10 <= size && p <= size && length <= Standard(size).cap
    ensures !IsFull(Standard(size), p, p, length)
  {
  }

  /** Do a header and twice the length fit the buffer, and the length with two headers? */
  predicate FitsEmpty(c: Config, length: nat) {
    2 * length + 4 <= c.size && length + 8 <= c.size
  }

  /** The exact bound: an empty pipe takes a length at every offset if and only if it fits this way.
      Otherwise it is full right behind a record that is as long, or four bytes shorter. */
  lemma EmptyIsNeverFullIff(c: Config, length: nat)
    requires length + 4 <= c.size
    ensures (forall p: nat | p <= c.size :: !IsFull(c, p, p, length)) <==> FitsEmpty(c, length)
    ensures !FitsEmpty(c, length) ==>
              IsFull(c, length + 4, length + 4, length) || (length >= 4 && IsFull(c, length, length, length))
  {
    if length + 8 > c.size {
      assert IsFull(c, length + 4, length + 4, length);
    } else if 2 * length + 4 > c.size {
      assert IsFull(c, length, length, length);
    }
  }

  /** Two records less than a lap apart, the first from `a` and the second from `b`, share no
      byte of the buffer. */
  lemma RecordsAreDisjoint(c: Config, a: Position, la: nat, k: nat, b: Position, lb: nat, l: nat)
    requires la + 4 <= c.size && lb + 4 <= c.size && InRing(c, a) && InRing(c, b)
    requires AtOrBefore(Finish(c, a, la), b) && AtOrBefore(Finish(c, b, lb), Lap(a))
    requires k < 4 + la && l < 4 + lb
    ensures CellAt(c, a, la, k).pointer != CellAt(c, b, lb, l).pointer
  {
    CellInside(c, a, la, k);
    CellInside(c, b, lb, l);
    var x, y := CellAt(c, a, la, k), CellAt(c, b, lb, l);
    assert AtOrBefore(a, x) && Before(x, y) && Before(y, Lap(a));
  }

  // ---------------------------------------------------------------------------------------
  // A sequence of records

  /** Every record is short enough for the writer to have accepted it. */
  predicate Admissible(c: Config, log: seq<seq<byte>>) {
    forall i | 0 <= i < |log| :: |log[i]| <= c.cap
  }

  /** Where record `i` starts when the records of `log` are written one after the other into a
      pipe that was cleared. */
  function StartOf(c: Config, log: seq<seq<byte>>, i: nat): Position
    requires i <= |log|
  {
    if i == 0 then Position(0, 0) else Finish(c, StartOf(c, log, i - 1), |log[i - 1]|)
  }

  lemma NextStart(c: Config, log: seq<seq<byte>>, i: nat)
    requires i < |log|
    ensures StartOf(c, log, i + 1) == Finish(c, StartOf(c, log, i), |log[i]|)
  {
  }

  lemma {:induction false} StartInRing(c: Config, log: seq<seq<byte>>, i: nat)
    requires Sound(c) && Admissible(c, log) && i <= |log|
    ensures InRing(c, StartOf(c, log, i))
  {
    if i > 0 {
      StartInRing(c, log, i - 1);
      FinishAdvances(c, StartOf(c, log, i - 1), |log[i - 1]|);
    }
  }

  lemma {:induction false} StartsIncrease(c: Config, log: seq<seq<byte>>, i: nat, j: nat)
    requires Sound(c) && Admissible(c, log) && i <= j <= |log|
    ensures i == j || Before(StartOf(c, log, i), StartOf(c, log, j))
    decreases j - i
  {
    if i < j {
      StartsIncrease(c, log, i, j - 1);
      StartInRing(c, log, j - 1);
      FinishAdvances(c, StartOf(c, log, j - 1), |log[j - 1]|);
    }
  }

  /** Later records do not move earlier ones. */
  lemma {:induction false} StartOfPrefix(c: Config, log: seq<seq<byte>>, more: seq<seq<byte>>, i: nat)
    requires i <= |log|
    ensures StartOf(c, log + more, i) == StartOf(c, log, i)
  {
    if i > 0 {
      StartOfPrefix(c, log, more, i - 1);
    }
  }

  /** The bytes a record occupies: its length, then its payload. */
  function Frame(msg: seq<byte>): (f: seq<byte>)
    ensures |f| == 4 + |msg|
  {
    Encode32(|msg|) + msg
  }

  /** The buffer holds this record, header and payload, at the place the writer chose. */
  predicate Holds(c: Config, buf: seq<byte>, at: Position, msg: seq<byte>)
    requires |buf| == c.size
  {
    forall k: nat | k < 4 + |msg| ::
      CellAt(c, at, |msg|, k).pointer < |buf| && buf[CellAt(c, at, |msg|, k).pointer] == Frame(msg)[k]
  }

  /** Storing a byte of record `j` spoils no earlier record that starts less than a lap before
      the end of record `j`. */
  lemma StoreKeepsRecord(c: Config, buf: seq<byte>, log: seq<seq<byte>>, i: nat, j: nat, l: nat, value: byte)
    requires Sound(c) && Admissible(c, log) && |buf| == c.size
    requires i < j < |log| && l < 4 + |log[j]|
    requires AtOrBefore(StartOf(c, log, j + 1), Lap(StartOf(c, log, i)))
    requires Holds(c, buf, StartOf(c, log, i), log[i])
    ensures CellAt(c, StartOf(c, log, j), |log[j]|, l).pointer < |buf|
    ensures Holds(c, buf[CellAt(c, StartOf(c, log, j), |log[j]|, l).pointer := value], StartOf(c, log, i), log[i])
  {
    var a, b := StartOf(c, log, i), StartOf(c, log, j);
    StartInRing(c, log, i);
    StartInRing(c, log, j);
    StartsIncrease(c, log, i + 1, j);
    CellInside(c, b, |log[j]|, l);
    var x := CellAt(c, b, |log[j]|, l).pointer;
    forall k: nat | k < 4 + |log[i]|
      ensures CellAt(c, a, |log[i]|, k).pointer != x
    {
      RecordsAreDisjoint(c, a, |log[i]|, k, b, |log[j]|, l);
    }
  }
}
