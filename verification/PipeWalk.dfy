/** Reading the unread records straight out of the buffer, and accounting for its bytes. */
module PipeWalk {
  import opened Bytes
  import opened PipeLayout
  import opened PipeWords

  /** Decode the buffer from one position word to another with the writer's two wrap tests. There
      is no answer if a record would leave the buffer or if `fuel` records do not lead there. */
  function Walk(c: Config, buf: seq<byte>, from: uint64, to: uint64, fuel: nat): Option<seq<seq<byte>>>
    requires |buf| == c.size
    decreases fuel
  {
    if from == to then
      Some([])
    else if fuel == 0 then
      None
    else
      var header := HeaderPlace(c, from);
      if header.1 + 4 > |buf| then
        None
      else
        var length := Decode32(buf[header.1..header.1 + 4]);
        var payload := PayloadPlace(c, header, length);
        if payload.1 + length > |buf| then
          None
        else
          match Walk(c, buf, VersionedPointer(payload.0, Add32(payload.1, length)), to, fuel - 1)
          case None => None
          case Some(rest) => Some([buf[payload.1..payload.1 + length]] + rest)
  }

  /** The bytes of a record that the buffer holds, as two slices. */
  lemma HeldSlices(c: Config, buf: seq<byte>, at: Position, msg: seq<byte>)
    requires |msg| + 4 <= c.size && InRing(c, at) && |buf| == c.size && Holds(c, buf, at, msg)
    ensures var h, p := HeaderStart(c, at).pointer, PayloadStart(c, at, |msg|).pointer;
            && h + 4 <= |buf| && buf[h..h + 4] == Encode32(|msg|)
            && p + |msg| <= |buf| && buf[p..p + |msg|] == msg
  {
    hide Encode32;
    var h, p := HeaderStart(c, at).pointer, PayloadStart(c, at, |msg|).pointer;
    var frame := Frame(msg);
    forall k: nat | k < 4
      ensures buf[h + k] == Encode32(|msg|)[k]
    {
      assert CellAt(c, at, |msg|, k).pointer == h + k && frame[k] == Encode32(|msg|)[k];
    }
    forall k: nat | k < |msg|
      ensures buf[p + k] == msg[k]
    {
      assert CellAt(c, at, |msg|, 4 + k).pointer == p + k && frame[4 + k] == msg[k];
    }
  }

  /** One record that the buffer holds decodes to itself. */
  lemma RecordDecodes(c: Config, buf: seq<byte>, at: Position, msg: seq<byte>)
    requires Sound(c) && InRing(c, at) && |msg| <= c.cap && |buf| == c.size && Holds(c, buf, at, msg)
    ensures var header := HeaderPlace(c, Word(at));
            var payload := PayloadPlace(c, header, |msg|);
            && header.1 + 4 <= |buf| && Decode32(buf[header.1..header.1 + 4]) == |msg|
            && payload.1 + |msg| <= |buf| && buf[payload.1..payload.1 + |msg|] == msg
            && VersionedPointer(payload.0, Add32(payload.1, |msg|)) == Word(Finish(c, at, |msg|))
  {
    hide HeaderPlace, PayloadPlace, Word, VersionedPointer, Add32, Holds, Encode32, Decode32, HeaderStart,
        PayloadStart;
    HeldSlices(c, buf, at, msg);
    HeaderPlaceRefines(c, at);
    PlaceRefines(c, at, |msg|);
    HeaderRoundTrip(|msg|);
  }

  lemma WalkTakesRecord(c: Config, buf: seq<byte>, at: Position, msg: seq<byte>, to: uint64, fuel: nat,
                        rest: seq<seq<byte>>)
    requires Sound(c) && InRing(c, at) && |msg| <= c.cap && |buf| == c.size && Holds(c, buf, at, msg)
    requires Word(at) != to && fuel > 0
    requires Walk(c, buf, Word(Finish(c, at, |msg|)), to, fuel - 1) == Some(rest)
    ensures Walk(c, buf, Word(at), to, fuel) == Some([msg] + rest)
  {
    hide HeaderPlace, PayloadPlace, Word, VersionedPointer, Holds, Decode32, Finish, Add32;
    RecordDecodes(c, buf, at, msg);
  }

  lemma WalkOfNothing(c: Config, buf: seq<byte>, word: uint64, fuel: nat)
    requires |buf| == c.size
    ensures Walk(c, buf, word, word, fuel) == Some([])
  {
  }

  lemma StillWithinLap(c: Config, log: seq<seq<byte>>, i: nat, j: nat)
    requires Sound(c) && Admissible(c, log) && i < j <= |log|
    requires WithinLap(StartOf(c, log, i), StartOf(c, log, j))
    ensures WithinLap(StartOf(c, log, i + 1), StartOf(c, log, j))
    ensures WordAt(c, log, i) != WordAt(c, log, j)
  {
    hide StartOf, Word;
    StartsIncrease(c, log, i, i + 1);
    StartsIncrease(c, log, i, j);
    StartsIncrease(c, log, i + 1, j);
    StartInRing(c, log, i);
    StartInRing(c, log, j);
    EmptyRefines(c, StartOf(c, log, i), StartOf(c, log, j));
  }

  /** Layout round trip: walking from record `i` to record `j` decodes exactly the records
      between them, in order, if the buffer holds them and they fit in one lap. */
  lemma {:induction false} WalkDecodes(c: Config, buf: seq<byte>, log: seq<seq<byte>>, i: nat, j: nat, fuel: nat)
    requires Sound(c) && Admissible(c, log) && |buf| == c.size && i <= j <= |log| && j - i <= fuel
    requires WithinLap(StartOf(c, log, i), StartOf(c, log, j))
    requires forall k: nat {:trigger StartOf(c, log, k)} | i <= k < j :: Holds(c, buf, StartOf(c, log, k), log[k])
    ensures Walk(c, buf, WordAt(c, log, i), WordAt(c, log, j), fuel) == Some(log[i..j])
    decreases j - i
  {
    hide Word, Finish, Holds, StartOf, Walk, Before, Lap;
    if i == j {
      assert log[i..j] == [];
      assert Walk(c, buf, WordAt(c, log, i), WordAt(c, log, i), fuel)
          == Some([]) by { WalkOfNothing(c, buf, WordAt(c, log, i), fuel); }
    } else {
      StartInRing(c, log, i);
      StillWithinLap(c, log, i, j);
      assert StartOf(c, log, i + 1) == Finish(c, StartOf(c, log, i), |log[i]|) by { NextStart(c, log, i); }
      WalkDecodes(c, buf, log, i + 1, j, fuel - 1);
      WalkTakesRecord(c, buf, StartOf(c, log, i), log[i], WordAt(c, log, j), fuel, log[i + 1..j]);
      assert log[i..j] == [log[i]] + log[i + 1..j];
    }
  }

  // ---------------------------------------------------------------------------------------
  // Conservation of bytes

  /** The bytes skipped at the end of the buffer by a write of this length. */
  function Slack(c: Config, at: Position, length: nat): nat {
    if at.pointer > c.size then 0
    else if IsWrap(c, 4, at.pointer) then c.size - at.pointer
    else if IsWrap(c, length, at.pointer + 4) then c.size - (at.pointer + 4)
    else 0
  }

  /** Headers, payloads and skipped bytes of the records from `i` up to `j`. */
  function Occupied(c: Config, log: seq<seq<byte>>, i: nat, j: nat): nat
    requires i <= j <= |log|
    decreases j - i
  {
    if i == j then 0
    else Occupied(c, log, i, j - 1) + 4 + |log[j - 1]| + Slack(c, StartOf(c, log, j - 1), |log[j - 1]|)
  }

  /** The numerator of `percentFull`. */
  function UsedBytes(c: Config, readPtr: nat, writePtr: nat): int {
    if readPtr > writePtr then c.size - (readPtr - writePtr) else writePtr - readPtr
  }

  /** One record takes its header, its payload, and the bytes it skips. */
  lemma RecordDistance(c: Config, at: Position, length: nat)
    requires length + 4 <= c.size && InRing(c, at)
    ensures var end := Finish(c, at, length);
            && at.version <= end.version <= at.version + 1
            && 4 + length + Slack(c, at, length)
               == (if end.version == at.version then end.pointer - at.pointer else end.pointer + c.size - at.pointer)
  {
  }

  lemma {:induction false} OccupiedIsDistance(c: Config, log: seq<seq<byte>>, i: nat, j: nat)
    requires Sound(c) && Admissible(c, log) && i <= j <= |log|
    requires WithinLap(StartOf(c, log, i), StartOf(c, log, j))
    ensures var r, w := StartOf(c, log, i), StartOf(c, log, j);
            Occupied(c, log, i, j)
                == (if w.version == r.version then w.pointer - r.pointer else w.pointer + c.size - r.pointer)
    ensures Occupied(c, log, i, j) >= 4 * (j - i)
    decreases j - i
  {
    hide Finish, Slack, StartOf;
    if i < j {
      StartsIncrease(c, log, i, j - 1);
      StartsIncrease(c, log, j - 1, j);
      StartInRing(c, log, j - 1);
      OccupiedIsDistance(c, log, i, j - 1);
      RecordDistance(c, StartOf(c, log, j - 1), |log[j - 1]|);
      NextStart(c, log, j - 1);
    }
  }

  /** Byte conservation: the numerator counts exactly the headers, payloads and skipped bytes of
      the unread records. It never exceeds the buffer, and is zero exactly when nothing is unread. */
  lemma UsedBytesAreOccupied(c: Config, log: seq<seq<byte>>, i: nat, j: nat)
    requires Sound(c) && Admissible(c, log) && i <= j <= |log|
    requires WithinLap(StartOf(c, log, i), StartOf(c, log, j))
    ensures var used := UsedBytes(c, PointerOf(WordAt(c, log, i)), PointerOf(WordAt(c, log, j)));
            && used == Occupied(c, log, i, j)
            && 0 <= used <= c.size
            && (used == 0 <==> i == j)
            && j - i <= c.size / 4
  {
    OccupiedIsDistance(c, log, i, j);
    StartInRing(c, log, i);
    StartInRing(c, log, j);
    StartsIncrease(c, log, i, j);
    WordParts(c, StartOf(c, log, i));
    WordParts(c, StartOf(c, log, j));
  }

  /** Skipping bytes takes the writer to the next lap. */
  lemma SlackBumps(c: Config, log: seq<seq<byte>>, k: nat)
    requires k < |log| && Slack(c, StartOf(c, log, k), |log[k]|) > 0
    ensures StartOf(c, log, k + 1).version > StartOf(c, log, k).version
  {
  }

  lemma VersionsIncrease(c: Config, log: seq<seq<byte>>, i: nat, j: nat)
    requires Sound(c) && Admissible(c, log) && i <= j <= |log|
    ensures StartOf(c, log, i).version <= StartOf(c, log, j).version
  {
    hide StartOf;
    StartsIncrease(c, log, i, j);
  }

  lemma TwoWrapsTakeTwoLaps(c: Config, log: seq<seq<byte>>, k: nat, l: nat)
    requires Sound(c) && Admissible(c, log) && k < l < |log|
    requires Slack(c, StartOf(c, log, k), |log[k]|) > 0 && Slack(c, StartOf(c, log, l), |log[l]|) > 0
    ensures StartOf(c, log, l + 1).version >= StartOf(c, log, k).version + 2
  {
    hide StartOf, Slack;
    SlackBumps(c, log, k);
    VersionsIncrease(c, log, k + 1, l);
    SlackBumps(c, log, l);
  }

  /** Bytes are skipped for at most one of the records within a lap. */
  lemma OneWrapAtMost(c: Config, log: seq<seq<byte>>, i: nat, k: nat, l: nat, j: nat)
    requires Sound(c) && Admissible(c, log) && i <= k < l < j <= |log|
    requires WithinLap(StartOf(c, log, i), StartOf(c, log, j))
    ensures Slack(c, StartOf(c, log, k), |log[k]|) == 0 || Slack(c, StartOf(c, log, l), |log[l]|) == 0
  {
    hide StartOf, Slack;
    VersionsIncrease(c, log, i, k);
    VersionsIncrease(c, log, l + 1, j);
    if Slack(c, StartOf(c, log, k), |log[k]|) > 0 && Slack(c, StartOf(c, log, l), |log[l]|) > 0 {
      TwoWrapsTakeTwoLaps(c, log, k, l);
    }
  }
}
