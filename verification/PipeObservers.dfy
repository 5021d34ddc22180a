/** What the queries of the pipe tell their callers, at any moment of any run. */
module PipeObservers {
  import opened PipeLayout
  import opened PipeWords
  import opened PipeWalk
  import opened PipeProtocol
  import opened PipeInvariant
  import opened PipeMemorySteps
  import opened PipeTheorems

  /** Everything that is counted only grows. */
  predicate NoEarlier(s: State, t: State) {
    && s.log <= t.log && s.popped <= t.popped
    && s.retired <= t.retired && s.announced <= t.announced && s.counted <= t.counted && s.published <= t.published
  }

  lemma StepMovesOn(c: Config, s: State, step: Step)
    requires Enabled(c, s, step)
    ensures NoEarlier(s, Apply(c, s, step))
  {
    hide IsFull32, Place, HeaderPlace, PayloadPlace, Increment64, HeaderStores, PayloadStores, Issue, Fence;
  }

  lemma {:induction false} RunMovesOn(c: Config, s: State, steps: seq<Step>)
    requires Allowed(c, s, steps)
    ensures NoEarlier(s, Run(c, s, steps))
    decreases |steps|
  {
    hide Enabled, Apply;
    if steps != [] {
      StepMovesOn(c, s, steps[0]);
      RunMovesOn(c, Apply(c, s, steps[0]), steps[1..]);
    }
  }

  lemma LeadsKeeps(c: Config, s: State, t: State)
    requires Inv(c, s) && Leads(c, s, t)
    ensures Inv(c, t) && NoEarlier(s, t)
  {
    hide Inv, NoEarlier, Allowed, Run;
    var steps :| Allowed(c, s, steps) && Run(c, s, steps) == t;
    RunKeepsInv(c, s, steps);
    RunMovesOn(c, s, steps);
  }

  // ---------------------------------------------------------------------------------------
  // A peeker on a thread of its own

  /** No byte of a record reaches memory before `nextWriteVPtr_` has moved past the record. */
  lemma AnnouncedBeforeStored(c: Config, s: State, st: Store)
    requires Reachable(c, s) && |s.pending| > 0 && st in s.pending[0] && st.ToByte?
    ensures var j := s.retired / 2;
            && j < |s.log| && st in ByteStores(c, s.log, j, 4 + |s.log[j]|)
            && s.mem.nextWord == WordAt(c, s.log, j + 1)
  {
    hide Reachable, InvLog, InvWriter, InvBuffer, InvBytes, InvReader, WordAt, ByteStores, OpenEpoch, OpenIndex;
    ReachableInv(c, s);
    WhatIsPending(c, s, st);
    WhileBytesDrain(c, s);
  }

  /** A byte that a peeker copied from record `i` in state `s`, once the record was published, is
      the record's own if `nextWriteVPtr_`, read in any later state, has not passed the place
      where the record starts one lap later. The record may have been popped in the meantime,
      and the writer may be in the middle of a write. */
  lemma PeekedByteIsIntact(c: Config, s: State, steps: seq<Step>, i: nat, k: nat)
    requires Reachable(c, s) && Allowed(c, s, steps) && i < s.published && i < |s.log| && k < 4 + |s.log[i]|
    requires var t := Run(c, s, steps);
             t.announced <= |t.log| && i < |t.log|
             && AtOrBefore(StartOf(c, t.log, t.announced), Lap(StartOf(c, t.log, i)))
    ensures var t := Run(c, s, steps);
            t.announced <= |t.log| && t.mem.nextWord == WordAt(c, t.log, t.announced)
    ensures var cell := CellAt(c, StartOf(c, s.log, i), |s.log[i]|, k).pointer;
            cell < |s.mem.buf| && s.mem.buf[cell] == Frame(s.log[i])[k]
  {
    hide Reachable, Inv, StartOf, CellAt, Word, Run, Allowed, Frame;
    ReachableInv(c, s);
    var t := Run(c, s, steps);
    RunKeepsInv(c, s, steps);
    RunMovesOn(c, s, steps);
    NextWordIsAnnounced(c, t);
    Shape(c, s);
    Shape(c, t);
    var more := t.log[|s.log|..];
    assert t.log == s.log + more;
    StartOfPrefix(c, s.log, more, i);
    StartOfPrefix(c, s.log, more, s.announced);
    StartsIncrease(c, t.log, s.announced, t.announced);
    CompleteRecordIsIntact(c, s, i);
    assert Intact(c, s.log, s.mem.buf, i);
  }

  /** The peeker's test on words: has the announced position, modulo 2^32 laps, not passed the start of
      its record one lap later? */
  predicate NotPassed(startWord: uint64, nextWord: uint64) {
    var laps := Subtract32(VersionOf(nextWord), VersionOf(startWord));
    laps == 0 || (laps == 1 && PointerOf(nextWord) <= PointerOf(startWord))
  }

  /** The test is exact as long as the announced position is less than 2^32 laps ahead. */
  lemma NotPassedIsExact(c: Config, start: Position, next: Position)
    requires Sound(c) && InRing(c, start) && InRing(c, next)
    requires AtOrBefore(start, next) && next.version < start.version + TWO_32
    ensures NotPassed(Word(start), Word(next)) <==> AtOrBefore(next, Lap(start))
  {
    hide Word, VersionOf, PointerOf, Subtract32;
    WordParts(c, start);
    WordParts(c, next);
    VersionGap(start.version, next.version);
  }

  lemma VersionGap(a: nat, b: nat)
    requires a <= b < a + TWO_32
    ensures Subtract32(b % TWO_32, a % TWO_32) == b - a
  {
  }

  /** A peeker copies record `i`, published in `s`, byte by byte, byte `k` in the state `during[k]`, and
      loads `nextWriteVPtr_` in a state `t` after all of them. If the loaded word passes the test, the
      copy is the record, header and payload, whatever was popped and written in the meantime. */
  lemma PeekedRecordIsIntact(c: Config, s: State, during: seq<State>, t: State, i: nat)
    requires Reachable(c, s) && i < s.published && i < |s.log| && |during| == 4 + |s.log[i]|
    requires forall k | 0 <= k < |during| :: Leads(c, s, during[k]) && Leads(c, during[k], t)
    requires t.announced <= |t.log| ==>
               StartOf(c, t.log, t.announced).version < StartOf(c, s.log, i).version + TWO_32
    requires NotPassed(WordAt(c, s.log, i), t.mem.nextWord)
    ensures forall k: nat {:trigger during[k]} | k < 4 + |s.log[i]| ::
              var cell := CellAt(c, StartOf(c, s.log, i), |s.log[i]|, k).pointer;
              cell < |during[k].mem.buf| && during[k].mem.buf[cell] == Frame(s.log[i])[k]
  {
    hide Reachable, Inv, Leads, StartOf, CellAt, Word, NotPassed, Frame;
    ReachableInv(c, s);
    LeadsOn(c, s, during[0], t);
    LapIsNotPassed(c, s, t, i);
    forall k: nat | k < 4 + |s.log[i]|
      ensures var cell := CellAt(c, StartOf(c, s.log, i), |s.log[i]|, k).pointer;
              cell < |during[k].mem.buf| && during[k].mem.buf[cell] == Frame(s.log[i])[k]
    {
      var u := during[k];
      LeadsKeeps(c, s, u);
      Shape(c, s);
      Shape(c, u);
      assert u.log == s.log + u.log[|s.log|..];
      StartOfPrefix(c, s.log, u.log[|s.log|..], i);
      ReachableOn(c, s, u);
      ByteIsIntact(c, u, t, i, k);
    }
  }

  /** The test on the loaded word, in terms of positions. */
  lemma LapIsNotPassed(c: Config, s: State, t: State, i: nat)
    requires Inv(c, s) && Leads(c, s, t) && i < s.published && i < |s.log|
    requires t.announced <= |t.log| ==>
               StartOf(c, t.log, t.announced).version < StartOf(c, s.log, i).version + TWO_32
    requires NotPassed(WordAt(c, s.log, i), t.mem.nextWord)
    ensures t.announced <= |t.log| && i < |t.log|
    ensures AtOrBefore(StartOf(c, t.log, t.announced), Lap(StartOf(c, t.log, i)))
  {
    hide Inv, Leads, StartOf, Word, NotPassed;
    LeadsKeeps(c, s, t);
    NextWordIsAnnounced(c, t);
    PublishedIsAnnounced(c, s);
    Shape(c, t);
    assert t.log == s.log + t.log[|s.log|..];
    StartOfPrefix(c, s.log, t.log[|s.log|..], i);
    StartsIncrease(c, t.log, i, t.announced);
    StartInRing(c, t.log, i);
    StartInRing(c, t.log, t.announced);
    NotPassedIsExact(c, StartOf(c, t.log, i), StartOf(c, t.log, t.announced));
  }

  lemma ByteIsIntact(c: Config, u: State, t: State, i: nat, k: nat)
    requires Reachable(c, u) && Leads(c, u, t) && i < u.published && i < |u.log| && k < 4 + |u.log[i]|
    requires t.announced <= |t.log| && i < |t.log|
             && AtOrBefore(StartOf(c, t.log, t.announced), Lap(StartOf(c, t.log, i)))
    ensures var cell := CellAt(c, StartOf(c, u.log, i), |u.log[i]|, k).pointer;
            cell < |u.mem.buf| && u.mem.buf[cell] == Frame(u.log[i])[k]
  {
    hide Reachable, StartOf, CellAt, Run, Allowed, Frame;
    var steps :| Allowed(c, u, steps) && Run(c, u, steps) == t;
    PeekedByteIsIntact(c, u, steps, i, k);
  }

  lemma PublishedIsAnnounced(c: Config, s: State)
    requires Inv(c, s)
    ensures s.published <= s.announced
  {
    hide InvLog, InvWriter, InvBytes, InvReader, WordAt, Count64, OpenEpoch, OpenIndex;
  }

  lemma NextWordIsAnnounced(c: Config, s: State)
    requires Inv(c, s)
    ensures s.announced <= |s.log| && s.mem.nextWord == WordAt(c, s.log, s.announced)
  {
    hide InvWriter, InvBytes, InvReader, WordAt, OpenEpoch, OpenIndex;
  }

  lemma CompleteRecordIsIntact(c: Config, s: State, i: nat)
    requires Inv(c, s) && i < s.published && i < |s.log| && s.announced <= |s.log| && |s.mem.buf| == c.size
    requires AtOrBefore(StartOf(c, s.log, s.announced), Lap(StartOf(c, s.log, i)))
    ensures Intact(c, s.log, s.mem.buf, i)
  {
    hide StartOf, Intact, InvWriter, InvReader, WordAt, OpenEpoch, OpenIndex;
    assert s.published <= s.retired / 2;
  }

  // ---------------------------------------------------------------------------------------
  // isEmpty, percentFull and count

  /** `isEmpty` is exact, and the numerator of `percentFull` is what the unread records occupy:
      their headers, their payloads, and the bytes skipped at the one wrap there can be. */
  lemma UsedBytesOfQueue(c: Config, s: State)
    requires Inv(c, s)
    ensures |s.popped| <= s.published <= |s.log|
    ensures s.mem.readWord == s.mem.writeWord <==> Queue(s) == []
    ensures var used := UsedBytes(c, PointerOf(s.mem.readWord), PointerOf(s.mem.writeWord));
            && used == Occupied(c, s.log, |s.popped|, s.published)
            && 0 <= used <= c.size && (used == 0 <==> Queue(s) == [])
    ensures |Queue(s)| <= c.size / 4
  {
    hide Inv, StartOf, Word, Occupied;
    Shape(c, s);
    MemoryPositions(c, s);
    UsedBytesAreOccupied(c, s.log, |s.popped|, s.published);
    StartInRing(c, s.log, |s.popped|);
    StartInRing(c, s.log, s.published);
    StartsIncrease(c, s.log, |s.popped|, s.published);
    EmptyRefines(c, StartOf(c, s.log, |s.popped|), StartOf(c, s.log, s.published));
  }

  /** `count`: the difference of two 64-bit counters, cut to 32 bits. */
  function Count32(numWritten: uint64, numRead: uint64): uint32 {
    (numWritten - numRead) % TWO_64 % TWO_32
  }

  /** Nothing is lost in the cut, even when the counters have wrapped: `count` is the number of
      unread records, plus one while a counted record is not yet published, plus one while the
      reader has not yet counted the record it has just released. */
  lemma CountIsUnread(c: Config, s: State)
    requires Reachable(c, s)
    ensures |s.popped| <= s.published <= s.counted <= s.published + 1 && s.published <= |s.log|
    ensures Count32(s.mem.numWritten, s.mem.numRead)
            == |Queue(s)| + (s.counted - s.published) + (if s.reader.Advanced? then 1 else 0)
    ensures s.writer.Idle? && s.pending == [{}] && s.reader.Looking?
            ==> Count32(s.mem.numWritten, s.mem.numRead) == |Queue(s)| == |s.log| - |s.popped|
  {
    hide Reachable, Inv, Queue;
    ReachableInv(c, s);
    Counters(c, s);
    UsedBytesOfQueue(c, s);
    Shape(c, s);
    var taken := if s.reader.Advanced? then |s.popped| - 1 else |s.popped|;
    assert |Queue(s)| == s.published - |s.popped| by { QueueLength(s); }
    DifferenceSurvives(s.counted, taken);
  }

  lemma QueueLength(s: State)
    requires |s.popped| <= s.published <= |s.log|
    ensures |Queue(s)| == s.published - |s.popped|
  {
  }

  lemma Counters(c: Config, s: State)
    requires Inv(c, s)
    ensures |s.popped| <= s.published <= s.counted <= s.published + 1
    ensures s.reader.Advanced? ==> |s.popped| > 0
    ensures s.mem.numWritten == Count64(s.counted)
    ensures s.mem.numRead == Count64(if s.reader.Advanced? then |s.popped| - 1 else |s.popped|)
    ensures s.writer.Idle? && s.pending == [{}] ==> s.counted == s.published == |s.log|
  {
    hide InvBytes, WordAt, Count64, WholeEpoch, HeaderPlace, PayloadPlace;
    if s.writer.Idle? && s.pending == [{}] {
      assert s.retired == 2 * |s.log|;
    }
  }

  lemma DifferenceSurvives(written: nat, read: nat)
    requires read <= written < read + TWO_32
    ensures Count32(Count64(written), Count64(read)) == written - read
  {
    var a, b := written / TWO_64, read / TWO_64;
    assert written == TWO_64 * a + Count64(written) && read == TWO_64 * b + Count64(read);
    assert a == b || a == b + 1;
  }

  // ---------------------------------------------------------------------------------------
  // What the reader and memory leave alone

  lemma {:induction false} OthersLeaveWriterAlone(c: Config, s: State, steps: seq<Step>)
    requires Allowed(c, s, steps) && forall step | step in steps :: IsReaderOrDrain(step)
    ensures var t := Run(c, s, steps);
            t.log == s.log && t.writer == s.writer && t.ownWrite == s.ownWrite && t.ownCount == s.ownCount
    decreases |steps|
  {
    hide IsFull32, Place, HeaderPlace, PayloadPlace, Increment64, HeaderStores, PayloadStores, Issue, Fence;
    if steps != [] {
      assert steps[0] in steps;
      OthersLeaveWriterAlone(c, Apply(c, s, steps[0]), steps[1..]);
    }
  }

  /** What the writer sees of itself: its own position and count, at or ahead of memory. */
  lemma OwnRegisters(c: Config, s: State)
    requires Inv(c, s)
    ensures var n := |s.log|;
            var done := if InFlight(s.writer) then n - 1 else n;
            && 0 <= s.published <= done <= n
            && s.ownWrite == WordAt(c, s.log, done)
            && s.ownCount == Count64(if s.writer.Counted? then n else done)
  {
    hide InvBytes, WordAt, Count64, WholeEpoch, InvReader, Place, OpenEpoch;
  }
}
