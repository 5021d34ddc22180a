/** Safety of the pipe over every run: the invariant holds in every reachable state, and the two
    threads together are a first-in first-out queue of byte strings. */
module PipeTheorems {
  import opened Bytes
  import opened PipeLayout
  import opened PipeWords
  import opened PipeWalk
  import opened PipeProtocol
  import opened PipeInvariant
  import opened PipeWriterSteps
  import opened PipeMemorySteps

  // ---------------------------------------------------------------------------------------
  // Every step and every run

  lemma WriterStepKeepsInv(c: Config, s: State, step: Step)
    requires Inv(c, s) && Enabled(c, s, step)
    requires step.Announce? || step.StoreHeader? || step.StorePayload? || step.Count? || step.Publish?
    ensures Inv(c, Apply(c, s, step))
  {
    hide Inv, HeaderStores, PayloadStores, Issue, Fence, Increment64;
    match step
    case Announce => KeepsAnnounce(c, s);
    case StoreHeader => KeepsStoreHeader(c, s);
    case StorePayload => KeepsStorePayload(c, s);
    case Count => KeepsCount(c, s);
    case Publish => KeepsPublish(c, s);
  }

  lemma ReaderStepKeepsInv(c: Config, s: State, step: Step)
    requires Inv(c, s) && Enabled(c, s, step)
    requires step.Look? || step.LoadHeader? || step.Decode? || step.LoadPayload? || step.Advance? || step.CountRead?
    ensures Inv(c, Apply(c, s, step))
  {
    hide Inv, HeaderPlace, PayloadPlace, Increment64, Decode32, VersionedPointer, Add32;
    match step
    case Look => KeepsLook(c, s);
    case LoadHeader => KeepsLoadHeader(c, s);
    case Decode => KeepsDecode(c, s);
    case LoadPayload => KeepsLoadPayload(c, s);
    case Advance => KeepsAdvance(c, s);
    case CountRead => KeepsCountRead(c, s);
  }

  /** Every step of either thread or of the store buffer keeps the invariant. */
  lemma StepKeepsInv(c: Config, s: State, step: Step)
    requires Inv(c, s) && Enabled(c, s, step)
    ensures Inv(c, Apply(c, s, step))
  {
    hide Inv, HeaderStores, PayloadStores, Issue, Fence, Increment64, IsFull32, Place, HeaderPlace, PayloadPlace;
    if step.Begin? || step.Reject? || step.Spin? || step.GiveUp? {
      KeepsWaiting(c, s, step);
    } else if step.Admit? {
      KeepsAdmit(c, s);
    } else if step.Drain? {
      KeepsDrain(c, s, step.store);
    } else if step.Retire? {
      KeepsRetire(c, s);
    } else if step.Announce? || step.StoreHeader? || step.StorePayload? || step.Count? || step.Publish? {
      WriterStepKeepsInv(c, s, step);
    } else {
      ReaderStepKeepsInv(c, s, step);
    }
  }

  lemma {:induction false} RunKeepsInv(c: Config, s: State, steps: seq<Step>)
    requires Inv(c, s) && Allowed(c, s, steps)
    ensures Inv(c, Run(c, s, steps))
    decreases |steps|
  {
    hide Inv, Enabled, Apply;
    if steps != [] {
      StepKeepsInv(c, s, steps[0]);
      RunKeepsInv(c, Apply(c, s, steps[0]), steps[1..]);
    }
  }

  /** Every state that a cleared pipe can reach is good. */
  lemma ReachableIsGood(c: Config, buf: seq<byte>, steps: seq<Step>)
    requires Sound(c) && |buf| == c.size && Allowed(c, Cleared(c, buf), steps)
    ensures Inv(c, Run(c, Cleared(c, buf), steps))
  {
    hide Inv, Allowed, Run;
    ClearedIsGood(c, buf);
    RunKeepsInv(c, Cleared(c, buf), steps);
  }

  /** Can some run of a cleared pipe lead to this state? */
  ghost predicate Reachable(c: Config, s: State) {
    exists buf :: Sound(c) && |buf| == c.size && Leads(c, Cleared(c, buf), s)
  }

  lemma ReachableInv(c: Config, s: State)
    requires Reachable(c, s)
    ensures Inv(c, s)
  {
    hide Inv, Allowed, Run;
    var buf :| Sound(c) && |buf| == c.size && Leads(c, Cleared(c, buf), s);
    var steps :| Allowed(c, Cleared(c, buf), steps) && Run(c, Cleared(c, buf), steps) == s;
    ReachableIsGood(c, buf, steps);
  }

  lemma ReachableOn(c: Config, s: State, t: State)
    requires Reachable(c, s) && Leads(c, s, t)
    ensures Reachable(c, t)
  {
    hide Leads;
    var buf :| Sound(c) && |buf| == c.size && Leads(c, Cleared(c, buf), s);
    LeadsOn(c, Cleared(c, buf), s, t);
  }

  // ---------------------------------------------------------------------------------------
  // The queue

  /** The pipe as a queue: the records that memory shows as written and that are not yet read. */
  function Queue(s: State): seq<seq<byte>>
    requires |s.popped| <= s.published <= |s.log|
  {
    s.log[|s.popped|..s.published]
  }

  /** What each step does to the queue: the store that publishes a record enqueues it, the
      reader's advance dequeues the head, whose bytes it has copied one by one out of the buffer,
      and nothing else changes it. */
  lemma StepRefinesQueue(c: Config, s: State, step: Step)
    requires Reachable(c, s) && Enabled(c, s, step)
    ensures |s.popped| <= s.published <= |s.log|
    ensures var s' := Apply(c, s, step);
            && |s'.popped| <= s'.published <= |s'.log|
            && (if step.Drain? && step.store.ToWrite? then
                  s.published < |s.log| && Queue(s') == Queue(s) + [s.log[s.published]] && s'.popped == s.popped
                else if step.Advance? then
                  Queue(s) != [] && s'.popped == s.popped + [Queue(s)[0]] && Queue(s') == Queue(s)[1..]
                else
                  Queue(s') == Queue(s) && s'.popped == s.popped)
  {
    hide Reachable, Inv, HeaderStores, PayloadStores, Issue, Fence;
    hide Increment64, IsFull32, Place, HeaderPlace, PayloadPlace;
    ReachableInv(c, s);
    Shape(c, s);
    StepKeepsInv(c, s, step);
    Shape(c, Apply(c, s, step));
    if step.Advance? {
      AdvanceDelivers(c, s);
    }
  }

  /** The reader's copy of a record is complete and exact when it advances. */
  lemma AdvanceDelivers(c: Config, s: State)
    requires Inv(c, s) && s.reader.CopyingPayload? && |s.reader.got| == s.reader.length
    ensures |s.popped| < s.published <= |s.log| && s.reader.got == s.log[|s.popped|]
  {
    hide InvWriter, InvBuffer, InvDrained, InvBytes, HeaderPlace, PayloadPlace, WordAt;
  }

  /** The records of the pushes that were admitted, read off the steps alone: the last record
      offered before each admission. */
  function PushedBy(steps: seq<Step>, offered: seq<byte>): seq<seq<byte>>
    decreases |steps|
  {
    if steps == [] then []
    else if steps[0].Begin? then PushedBy(steps[1..], steps[0].msg)
    else if steps[0].Admit? then [offered] + PushedBy(steps[1..], offered)
    else PushedBy(steps[1..], offered)
  }

  lemma {:induction false} LogIsWhatWasPushed(c: Config, s: State, steps: seq<Step>, offered: seq<byte>)
    requires Allowed(c, s, steps) && (s.writer.Waiting? ==> s.writer.msg == offered)
    ensures Run(c, s, steps).log == s.log + PushedBy(steps, offered)
    decreases |steps|
  {
    hide IsFull32, Place, HeaderPlace, PayloadPlace, Increment64, HeaderStores, PayloadStores, Issue, Fence;
    if steps != [] {
      var s1 := Apply(c, s, steps[0]);
      LogIsWhatWasPushed(c, s1, steps[1..], if steps[0].Begin? then steps[0].msg else offered);
    }
  }

  /** First in, first out, over every interleaving and every order in which memory may see the
      stores: what was popped is, byte for byte, a prefix of what was pushed. */
  lemma Fifo(c: Config, buf: seq<byte>, steps: seq<Step>)
    requires Sound(c) && |buf| == c.size && Allowed(c, Cleared(c, buf), steps)
    ensures var s := Run(c, Cleared(c, buf), steps);
            && s.log == PushedBy(steps, [])
            && s.popped <= PushedBy(steps, [])
            && |s.popped| <= s.published <= |s.log|
            && s.popped + Queue(s) == PushedBy(steps, [])[..s.published]
  {
    hide Inv, Allowed, Run;
    var s := Run(c, Cleared(c, buf), steps);
    ReachableIsGood(c, buf, steps);
    LogIsWhatWasPushed(c, Cleared(c, buf), steps, []);
    assert Cleared(c, buf).log + PushedBy(steps, []) == PushedBy(steps, []);
    PoppedIsPrefix(c, s);
    assert s.log[..s.published] == s.log[..|s.popped|] + s.log[|s.popped|..s.published];
  }

  lemma PoppedIsPrefix(c: Config, s: State)
    requires Inv(c, s)
    ensures |s.popped| <= s.published <= |s.log| && s.popped == s.log[..|s.popped|]
  {
    hide InvWriter, InvBuffer, InvDrained, InvBytes, InvReader;
  }

  /** Layout round trip: in every reachable state, walking the bytes in memory from the read position
      with the writer's own wrap tests decodes exactly the queue and lands on the write position. */
  lemma WalkIsQueue(c: Config, s: State)
    requires Reachable(c, s)
    ensures |s.popped| <= s.published <= |s.log| && |s.mem.buf| == c.size
    ensures Walk(c, s.mem.buf, s.mem.readWord, s.mem.writeWord, c.size / 4) == Some(Queue(s))
  {
    hide Reachable, Inv, Walk, Holds, WordAt, StartOf;
    ReachableInv(c, s);
    Shape(c, s);
    MemoryPositions(c, s);
    UsedBytesAreOccupied(c, s.log, |s.popped|, s.published);
    forall k: nat | |s.popped| <= k < s.published
      ensures Holds(c, s.mem.buf, StartOf(c, s.log, k), s.log[k])
    {
      PublishedRecordsAreComplete(c, s, k);
      assert Intact(c, s.log, s.mem.buf, k);
    }
    WalkDecodes(c, s.mem.buf, s.log, |s.popped|, s.published, c.size / 4);
  }

  /** The positions in memory are those of the records read and published, less than a lap apart. */
  lemma MemoryPositions(c: Config, s: State)
    requires Inv(c, s)
    ensures |s.popped| <= s.published <= |s.log|
    ensures s.mem.readWord == WordAt(c, s.log, |s.popped|) && s.mem.writeWord == WordAt(c, s.log, s.published)
    ensures WithinLap(StartOf(c, s.log, |s.popped|), StartOf(c, s.log, s.published))
    ensures WithinLap(StartOf(c, s.log, |s.popped|), StartOf(c, s.log, |s.log|))
  {
    hide StartOf, Word, InvWriter, InvBytes;
    StartsIncrease(c, s.log, |s.popped|, s.published);
    StartsIncrease(c, s.log, s.published, |s.log|);
  }

  // ---------------------------------------------------------------------------------------
  // Nothing is stored or loaded out of bounds, and nothing unread is overwritten

  /** Every store that is about to drain, and every byte the reader is about to load, lies inside
      the buffer: no step is ever held up by a bounds test. */
  lemma NeverOutOfBounds(c: Config, s: State)
    requires Inv(c, s)
    ensures |s.pending| > 0 && forall st | st in s.pending[0] && st.ToByte? :: st.index < |s.mem.buf|
    ensures s.reader.CopyingHeader? && |s.reader.got| < 4 ==> s.reader.at.1 + |s.reader.got| < |s.mem.buf|
    ensures s.reader.CopyingPayload? && |s.reader.got| < s.reader.length
        ==> s.reader.at.1 + |s.reader.got| < |s.mem.buf|
  {
    hide Inv, HeaderPlace, PayloadPlace, WordAt;
    Shape(c, s);
    forall st | st in s.pending[0] && st.ToByte?
      ensures st.index < |s.mem.buf|
    {
      DrainKeepsBytes(c, s, st);
    }
    if s.reader.CopyingHeader? && |s.reader.got| < 4 {
      ReaderAt(c, s);
      LoadedByte(c, s, |s.reader.got|);
    }
    if s.reader.CopyingPayload? && |s.reader.got| < s.reader.length {
      ReaderAt(c, s);
      LoadedByte(c, s, 4 + |s.reader.got|);
    }
  }

  lemma ReaderAt(c: Config, s: State)
    requires Inv(c, s) && (s.reader.CopyingHeader? || s.reader.CopyingPayload?)
    ensures |s.popped| < s.published <= |s.log|
    ensures s.reader.CopyingHeader? ==> s.reader.at == HeaderPlace(c, WordAt(c, s.log, |s.popped|))
    ensures s.reader.CopyingPayload? ==>
              && s.reader.length == |s.log[|s.popped|]|
              && s.reader.at == PayloadPlace(c, HeaderPlace(c, WordAt(c, s.log, |s.popped|)), |s.log[|s.popped|]|)
  {
    hide InvWriter, InvBuffer, InvDrained, InvBytes, HeaderPlace, PayloadPlace, WordAt;
  }

  /** The bytes of any admitted record miss every byte of every earlier record that is unread. */
  lemma NoOverwrite(c: Config, s: State, i: nat, k: nat, j: nat, l: nat)
    requires Reachable(c, s) && |s.popped| <= i < j < |s.log| && k < 4 + |s.log[i]| && l < 4 + |s.log[j]|
    ensures CellAt(c, StartOf(c, s.log, i), |s.log[i]|, k).pointer < c.size
    ensures CellAt(c, StartOf(c, s.log, j), |s.log[j]|, l).pointer < c.size
    ensures CellAt(c, StartOf(c, s.log, i), |s.log[i]|, k).pointer
            != CellAt(c, StartOf(c, s.log, j), |s.log[j]|, l).pointer
  {
    hide Reachable, StartOf, CellAt, InvWriter, InvBuffer, InvDrained, InvBytes, InvReader;
    ReachableInv(c, s);
    Shape(c, s);
    StartInRing(c, s.log, i);
    StartInRing(c, s.log, j);
    CellInside(c, StartOf(c, s.log, i), |s.log[i]|, k);
    CellInside(c, StartOf(c, s.log, j), |s.log[j]|, l);
    StartsIncrease(c, s.log, i + 1, j);
    StartsIncrease(c, s.log, j + 1, |s.log|);
    StartsIncrease(c, s.log, |s.popped|, i);
    NextStart(c, s.log, i);
    NextStart(c, s.log, j);
    RecordsAreDisjoint(c, StartOf(c, s.log, i), |s.log[i]|, k, StartOf(c, s.log, j), |s.log[j]|, l);
  }

  /** Once the admission test has passed, no step of the reader or of memory makes it fail. */
  lemma {:induction false} AdmissionStands(c: Config, s: State, steps: seq<Step>)
    requires Inv(c, s) && s.writer.Waiting? && |s.writer.msg| < TWO_32
    requires !IsFull32(c, s.mem.readWord, s.ownWrite, |s.writer.msg|)
    requires Allowed(c, s, steps) && forall step | step in steps :: IsReaderOrDrain(step)
    ensures var s' := Run(c, s, steps);
            s'.writer == s.writer && s'.ownWrite == s.ownWrite
                && !IsFull32(c, s'.mem.readWord, s'.ownWrite, |s'.writer.msg|)
    decreases |steps|
  {
    hide Inv, IsFull32, HeaderPlace, PayloadPlace, Increment64, Place;
    if steps != [] {
      var s1 := Apply(c, s, steps[0]);
      StepKeepsInv(c, s, steps[0]);
      AdmissionStandsOneStep(c, s, steps[0]);
      AdmissionStands(c, s1, steps[1..]);
    }
  }

  /** The admission test in terms of positions. */
  lemma WaitingTest(c: Config, s: State)
    requires Inv(c, s) && s.writer.Waiting?
    ensures Sound(c) && |s.writer.msg| <= c.cap && |s.popped| <= |s.log|
    ensures InRing(c, StartOf(c, s.log, |s.popped|)) && InRing(c, StartOf(c, s.log, |s.log|))
    ensures WithinLap(StartOf(c, s.log, |s.popped|), StartOf(c, s.log, |s.log|))
    ensures IsFull32(c, s.mem.readWord, s.ownWrite, |s.writer.msg|)
            == IsFull(c, StartOf(c, s.log, |s.popped|).pointer, StartOf(c, s.log, |s.log|).pointer, |s.writer.msg|)
  {
    hide StartOf, IsFull32, IsFull, InvBytes, InvBuffer, InvDrained, Word;
    Shape(c, s);
    MemoryPositions(c, s);
    StartInRing(c, s.log, |s.popped|);
    StartInRing(c, s.log, |s.log|);
    FullRefines(c, StartOf(c, s.log, |s.popped|), StartOf(c, s.log, |s.log|), |s.writer.msg|);
  }

  /** A waiting writer is admitted exactly when its record would end before the read offset one lap
      later, and spins exactly when it would not. */
  lemma AdmittedOrSpins(c: Config, s: State)
    requires Reachable(c, s) && s.writer.Waiting?
    ensures |s.popped| <= |s.log|
    ensures var r, w := StartOf(c, s.log, |s.popped|), StartOf(c, s.log, |s.log|);
            && (Enabled(c, s, Admit) <==> Before(Finish(c, w, |s.writer.msg|), Lap(r)))
            && (Enabled(c, s, Spin) <==> !Enabled(c, s, Admit))
  {
    hide Reachable, Inv, StartOf, IsFull, IsFull32, Finish;
    ReachableInv(c, s);
    WaitingTest(c, s);
    FullIffPastLap(c, StartOf(c, s.log, |s.popped|), StartOf(c, s.log, |s.log|), |s.writer.msg|);
  }

  /** Every push is answered. An idle writer begins with a record or refuses it, as its length says,
      and a waiting one can be stopped. A push that is refused or stopped leaves the memory, the store
      buffer, the reader and the queue as they were, and the writer ready for the next one. */
  lemma EveryPushIsAnswered(c: Config, s: State, msg: seq<byte>)
    ensures s.writer.Idle? ==> if |msg| <= c.cap then Enabled(c, s, Begin(msg)) else Enabled(c, s, Reject(msg))
    ensures Enabled(c, s, Reject(msg)) ==> |msg| > c.cap && Apply(c, s, Reject(msg)) == s
    ensures s.writer.Waiting? ==> Enabled(c, s, GiveUp) && Apply(c, s, GiveUp) == s.(writer := Idle)
  {
  }

  lemma AdmissionStandsOneStep(c: Config, s: State, step: Step)
    requires Inv(c, s) && s.writer.Waiting? && |s.writer.msg| < TWO_32
    requires !IsFull32(c, s.mem.readWord, s.ownWrite, |s.writer.msg|)
    requires Enabled(c, s, step) && IsReaderOrDrain(step)
    ensures var s' := Apply(c, s, step);
            s'.writer == s.writer && s'.ownWrite == s.ownWrite
                && !IsFull32(c, s'.mem.readWord, s'.ownWrite, |s'.writer.msg|)
  {
    hide Inv, IsFull32, IsFull, StartOf, HeaderPlace, PayloadPlace, Increment64, Place;
    var s' := Apply(c, s, step);
    StepKeepsInv(c, s, step);
    WaitingTest(c, s);
    WaitingTest(c, s');
    Shape(c, s');
    var i, i', n := |s.popped|, |s'.popped|, |s.log|;
    assert s'.log == s.log && i <= i' <= n;
    StartsIncrease(c, s.log, i, i');
    StartsIncrease(c, s.log, i', n);
    StaysNotFull(c, StartOf(c, s.log, i), StartOf(c, s.log, i'), StartOf(c, s.log, n), |s.writer.msg|);
  }
}
