/** Progress: a blocked push is released as the reader reads, and exactly which lengths can
    block a push for ever. */
module PipeProgress {
  import opened Bytes
  import opened PipeLayout
  import opened PipeWords
  import opened PipeProtocol
  import opened PipeInvariant
  import opened PipeWriterSteps
  import opened PipeTheorems
  import opened PipeObservers

  /** Every store has drained and the reader has read everything that it can see. */
  predicate Dry(s: State) {
    s.pending == [{}] && s.reader.Looking? && s.mem.readWord == s.mem.writeWord
  }

  // ---------------------------------------------------------------------------------------
  // The reader and the memory never stop before the pipe is dry

  lemma ReaderBounds(c: Config, s: State)
    requires Inv(c, s)
    ensures !s.reader.Looking? && !s.reader.Advanced? ==> |s.popped| < |s.log|
    ensures s.reader.CopyingHeader? ==> |s.reader.got| <= 4
    ensures s.reader.CopyingHeader? && |s.reader.got| == 4 ==> Decode32(s.reader.got) == |s.log[|s.popped|]|
    ensures s.reader.CopyingPayload? ==> |s.reader.got| <= s.reader.length == |s.log[|s.popped|]|
  {
    hide InvWriter, InvBuffer, InvDrained, InvBytes, HeaderPlace, PayloadPlace, WordAt, Decode32, Encode32;
    if s.reader.CopyingHeader? && |s.reader.got| == 4 {
      var length := |s.log[|s.popped|]|;
      assert Encode32(length)[..4] == Encode32(length);
      HeaderRoundTrip(length);
    }
  }

  /** In any good state that is not dry, memory or the reader has a step to take. */
  lemma SomethingCanMove(c: Config, s: State) returns (step: Step)
    requires Inv(c, s) && !Dry(s)
    ensures Enabled(c, s, step) && IsReaderOrDrain(step)
  {
    hide Inv, HeaderPlace, PayloadPlace, IsFull32;
    Shape(c, s);
    NeverOutOfBounds(c, s);
    ReaderBounds(c, s);
    if s.pending[0] != {} {
      var st :| st in s.pending[0];
      return Drain(st);
    }
    if |s.pending| > 1 {
      return Retire;
    }
    assert s.pending == [{}];
    match s.reader
    case Looking => return Look;
    case CopyingHeader(_, got) => return if |got| < 4 then LoadHeader else Decode;
    case CopyingPayload(_, length, got) => return if |got| < length then LoadPayload else Advance;
    case Advanced => return CountRead;
  }

  /** No thread waits for another: in every reachable state the writer has a step to take (a waiting
      one is admitted or tests again), the reader has one unless it sees an empty pipe, any store of
      the oldest epoch can drain, and an epoch that has drained can be retired. */
  lemma NobodyIsHeldUp(c: Config, s: State, msg: seq<byte>)
    requires Reachable(c, s)
    ensures |s.pending| > 0
    ensures match s.writer
            case Idle => Enabled(c, s, Begin(msg)) || Enabled(c, s, Reject(msg))
            case Waiting(_) => Enabled(c, s, Admit) || Enabled(c, s, Spin)
            case Admitted(_, _) => Enabled(c, s, Announce)
            case Announced(_, _) => Enabled(c, s, StoreHeader)
            case HeaderStored(_, _) => Enabled(c, s, StorePayload)
            case PayloadStored => Enabled(c, s, Count)
            case Counted => Enabled(c, s, Publish)
    ensures match s.reader
            case Looking => s.mem.readWord == s.mem.writeWord || Enabled(c, s, Look)
            case CopyingHeader(_, _) => Enabled(c, s, LoadHeader) || Enabled(c, s, Decode)
            case CopyingPayload(_, _, _) => Enabled(c, s, LoadPayload) || Enabled(c, s, Advance)
            case Advanced => Enabled(c, s, CountRead)
    ensures forall store | store in s.pending[0] :: Enabled(c, s, Drain(store))
    ensures |s.pending| > 1 && s.pending[0] == {} ==> Enabled(c, s, Retire)
  {
    hide Reachable, Inv, IsFull32;
    ReachableInv(c, s);
    Shape(c, s);
    NeverOutOfBounds(c, s);
    ReaderBounds(c, s);
    if s.writer.Waiting? {
      WaitingFits(c, s);
    }
  }

  /** Stores still waiting, and epochs still open. */
  function PendingSize(pending: seq<set<Store>>): nat {
    if pending == [] then 0 else |pending[0]| + 1 + PendingSize(pending[1..])
  }

  /** What it takes to read the records from `i` on: a look, four bytes of a length, its decoding,
      the payload byte by byte, the release, and the count. */
  function ReadingSteps(log: seq<seq<byte>>, i: nat): nat
    decreases |log| - i
  {
    if i >= |log| then 0 else 8 + |log[i]| + ReadingSteps(log, i + 1)
  }

  /** What the reader has done of that; one step is still owed for a record that it released. */
  function ReadingDone(reader: Reader): int {
    match reader
    case Looking => 0
    case CopyingHeader(_, got) => 1 + |got|
    case CopyingPayload(_, _, got) => 6 + |got|
    case Advanced => -1
  }

  /** How many steps memory and the reader can take before they have done all there is to do. */
  function Work(s: State): int {
    PendingSize(s.pending) + ReadingSteps(s.log, |s.popped|) - ReadingDone(s.reader)
  }

  lemma WorkIsPositive(c: Config, s: State)
    requires Inv(c, s)
    ensures Work(s) >= 1
  {
    hide Inv, HeaderPlace, PayloadPlace;
    Shape(c, s);
    ReaderBounds(c, s);
  }

  /** Every step of memory or of the reader does exactly one unit of the work. */
  lemma EachStepIsWork(c: Config, s: State, step: Step)
    requires Inv(c, s) && Enabled(c, s, step) && IsReaderOrDrain(step)
    ensures Work(Apply(c, s, step)) == Work(s) - 1 && Work(s) > 1
    ensures Apply(c, s, step).log == s.log && Apply(c, s, step).writer == s.writer
  {
    hide Inv, HeaderPlace, PayloadPlace, IsFull32, Increment64, Place;
    ReaderBounds(c, s);
    Shape(c, s);
    var s' := Apply(c, s, step);
    StepKeepsInv(c, s, step);
    WorkIsPositive(c, s');
    if step.Drain? {
      assert s'.pending[1..] == s.pending[1..];
    }
  }

  /** So every schedule of theirs is as long as the work it does. */
  lemma {:induction false} SchedulesDoWork(c: Config, s: State, steps: seq<Step>)
    requires Inv(c, s) && Allowed(c, s, steps) && forall step | step in steps :: IsReaderOrDrain(step)
    ensures |steps| == Work(s) - Work(Run(c, s, steps)) && Work(Run(c, s, steps)) >= 1
    decreases |steps|
  {
    hide Inv, Enabled, Apply, Work, IsReaderOrDrain;
    WorkIsPositive(c, s);
    if steps != [] {
      assert steps[0] in steps;
      EachStepIsWork(c, s, steps[0]);
      StepKeepsInv(c, s, steps[0]);
      SchedulesDoWork(c, Apply(c, s, steps[0]), steps[1..]);
    }
  }

  /** Left to themselves, memory and the reader run the pipe dry, whatever the state. */
  lemma {:induction false} RunsDry(c: Config, s: State) returns (steps: seq<Step>)
    requires Inv(c, s)
    ensures Allowed(c, s, steps) && Dry(Run(c, s, steps))
    ensures forall step | step in steps :: IsReaderOrDrain(step)
    decreases Work(s)
  {
    hide Inv, Enabled, Apply, Dry, Work, IsReaderOrDrain;
    if Dry(s) {
      return [];
    }
    var step := SomethingCanMove(c, s);
    EachStepIsWork(c, s, step);
    StepKeepsInv(c, s, step);
    var rest := RunsDry(c, Apply(c, s, step));
    steps := [step] + rest;
    assert steps[1..] == rest;
  }

  /** A dry pipe whose writer is not in the middle of a write has been read to the end. */
  lemma DryIsEmpty(c: Config, s: State)
    requires Inv(c, s) && Dry(s) && !InFlight(s.writer)
    ensures s.popped == s.log && Work(s) == 1
  {
    hide Inv, WordAt;
    Shape(c, s);
    UsedBytesOfQueue(c, s);
    QueueLength(s);
    AllIsPublished(c, s);
    PoppedIsPrefix(c, s);
    NoWorkIsLeft(s);
  }

  lemma NoWorkIsLeft(s: State)
    requires Dry(s) && s.popped == s.log
    ensures Work(s) == 1
  {
    assert PendingSize(s.pending) == |s.pending[0]| + 1 + PendingSize(s.pending[1..]);
  }

  lemma AllIsPublished(c: Config, s: State)
    requires Inv(c, s) && s.pending == [{}] && !InFlight(s.writer)
    ensures s.published == |s.log|
  {
    hide InvBytes, WordAt, Count64, WholeEpoch, InvReader, InvWriter;
    assert s.retired == 2 * |s.log|;
  }

  /** When all is read, the writer sees an empty pipe. */
  lemma AllReadIsEmpty(c: Config, s: State)
    requires Inv(c, s) && !InFlight(s.writer) && s.popped == s.log
    ensures s.mem.readWord == s.ownWrite == WordAt(c, s.log, |s.log|)
  {
    hide Inv, WordAt;
    MemoryPositions(c, s);
    OwnRegisters(c, s);
  }

  // ---------------------------------------------------------------------------------------
  // Release

  /** Neither memory nor the reader has a step to take. */
  ghost predicate AtRest(c: Config, s: State) {
    forall step | IsReaderOrDrain(step) :: !Enabled(c, s, step)
  }

  lemma RestIsDry(c: Config, s: State)
    requires Inv(c, s) && AtRest(c, s)
    ensures Dry(s)
  {
    hide Inv, Enabled, Dry, IsReaderOrDrain;
    if !Dry(s) {
      var step := SomethingCanMove(c, s);
      assert false;
    }
  }

  /** Is every length that the writer accepts short enough for an empty pipe, at any offset? */
  predicate Releasing(c: Config) {
    Sound(c) && FitsEmpty(c, c.cap)
  }

  lemma StandardReleases(size: nat)
    requires 10 <= size && size + size / 2 - 2 < TWO_32
    ensures Releasing(Standard(size))
  {
  }

  /** A waiting push is admitted as soon as everything before it is read. */
  lemma EmptyAdmits(c: Config, s: State)
    requires Inv(c, s) && s.writer.Waiting? && s.popped == s.log && FitsEmpty(c, |s.writer.msg|)
    ensures Enabled(c, s, Admit)
  {
    hide Inv, IsFull32, WordAt, StartOf;
    WaitingTest(c, s);
    AllReadIsEmpty(c, s);
    Shape(c, s);
  }

  /** Nothing is lost, under any schedule: from any reachable state in which no write is in
      progress, memory and the reader can take less than `Work(s)` steps, and whenever they can
      take no more, they took all but one of these and everything that was pushed has been popped,
      in order. */
  lemma EverythingArrives(c: Config, s: State, steps: seq<Step>)
    requires Reachable(c, s) && !InFlight(s.writer)
    requires Allowed(c, s, steps) && forall step | step in steps :: IsReaderOrDrain(step)
    ensures |steps| < Work(s)
    ensures AtRest(c, Run(c, s, steps)) <==> |steps| == Work(s) - 1
    ensures AtRest(c, Run(c, s, steps)) ==> Run(c, s, steps).popped == s.log
  {
    hide Reachable, Inv, Enabled, Run, Allowed, Dry, IsReaderOrDrain, Work, AtRest;
    ReachableInv(c, s);
    SchedulesDoWork(c, s, steps);
    RunKeepsInv(c, s, steps);
    OthersLeaveWriterAlone(c, s, steps);
    var t := Run(c, s, steps);
    if AtRest(c, t) {
      RestIsDry(c, t);
      DryIsEmpty(c, t);
    } else {
      NoRestIsWork(c, t);
    }
  }

  lemma NoRestIsWork(c: Config, s: State)
    requires Inv(c, s) && !AtRest(c, s)
    ensures Work(s) > 1
  {
    hide Inv, Enabled, Work, IsReaderOrDrain;
    var step :| IsReaderOrDrain(step) && Enabled(c, s, step);
    EachStepIsWork(c, s, step);
  }

  /** A blocked push is released, under any schedule: from any reachable state in which the writer
      waits, memory and the reader can take less than `Work(s)` steps before they come to rest; by
      then the reader has popped the records that were unread, and as soon as it has, the record is
      admitted. */
  lemma BlockedPushIsReleased(c: Config, s: State, steps: seq<Step>)
    requires Reachable(c, s) && s.writer.Waiting? && Releasing(c)
    requires Allowed(c, s, steps) && forall step | step in steps :: IsReaderOrDrain(step)
    ensures var t := Run(c, s, steps);
            && |steps| < Work(s) && t.writer == s.writer
            && (AtRest(c, t) ==> t.popped == s.log)
            && (t.popped == s.log ==> Enabled(c, t, Admit))
  {
    hide Reachable, Inv, Enabled, Run, Allowed, IsReaderOrDrain, Work, AtRest;
    EverythingArrives(c, s, steps);
    ReachableInv(c, s);
    RunKeepsInv(c, s, steps);
    OthersLeaveWriterAlone(c, s, steps);
    var t := Run(c, s, steps);
    WaitingFits(c, t);
    if t.popped == s.log {
      EmptyAdmits(c, t);
    }
  }

  // ---------------------------------------------------------------------------------------
  // Deadlock

  /** The writer waits with a record of this length and no thread can do anything about it: the
      writer can only test again, or be interrupted. */
  ghost predicate Stuck(c: Config, s: State, length: nat) {
    && s.writer.Waiting? && |s.writer.msg| == length
    && forall step :: Enabled(c, s, step) ==> step == Spin || step == GiveUp
  }

  /** Can a cleared pipe get stuck with a record of this length? */
  ghost predicate CanGetStuck(c: Config, buf: seq<byte>, length: nat)
    requires |buf| == c.size
  {
    exists t :: Leads(c, Cleared(c, buf), t) && Stuck(c, t, length)
  }

  /** A good state is stuck only if all is read and the pipe is full for the waiting record. */
  lemma StuckIsDry(c: Config, s: State, length: nat)
    requires Inv(c, s) && Stuck(c, s, length)
    ensures Dry(s) && !Enabled(c, s, Admit)
  {
    hide Inv, Enabled, Dry;
    if !Dry(s) {
      var step := SomethingCanMove(c, s);
      assert false;
    }
    assert Enabled(c, s, Admit) ==> Admit == Spin || Admit == GiveUp;
  }

  /** The state after a push by a writer that does not have to wait: its stores are still in the
      store buffer. */
  lemma PushGoesThrough(c: Config, s: State, msg: seq<byte>) returns (t: State)
    requires s.writer.Idle? && |s.pending| > 0 && |msg| <= c.cap && |msg| < TWO_32
    requires !IsFull32(c, s.mem.readWord, s.ownWrite, |msg|)
    ensures Leads(c, s, t)
    ensures t.writer.Idle? && t.log == s.log + [msg] && t.popped == s.popped
  {
    hide Leads, Place, Increment64, HeaderStores, PayloadStores, HeaderPlace, PayloadPlace, IsFull32;
    LeadsToItself(c, s);
    var s1 := Apply(c, s, Begin(msg));
    Then(c, s, s, Begin(msg));
    var s2 := Apply(c, s1, Admit);
    Then(c, s, s1, Admit);
    var s3 := Apply(c, s2, Announce);
    Then(c, s, s2, Announce);
    var s4 := Apply(c, s3, StoreHeader);
    Then(c, s, s3, StoreHeader);
    var s5 := Apply(c, s4, StorePayload);
    Then(c, s, s4, StorePayload);
    var s6 := Apply(c, s5, Count);
    Then(c, s, s5, Count);
    t := Apply(c, s6, Publish);
    Then(c, s, s6, Publish);
  }

  /** Does the pipe hold nothing, with no thread in the middle of anything? */
  predicate AllRead(s: State) {
    s.writer.Idle? && Dry(s) && s.popped == s.log
  }

  /** The record of a push that goes through is popped in the end. */
  lemma PushAndPop(c: Config, s: State, msg: seq<byte>) returns (t: State)
    requires Inv(c, s) && s.writer.Idle? && |msg| <= c.cap && |msg| < TWO_32
    requires !IsFull32(c, s.mem.readWord, s.ownWrite, |msg|)
    ensures Leads(c, s, t) && Inv(c, t) && AllRead(t) && t.log == s.log + [msg]
  {
    hide Inv, Leads, Run, Allowed, Dry, IsFull32, IsReaderOrDrain;
    Shape(c, s);
    var u := PushGoesThrough(c, s, msg);
    LeadsKeeps(c, s, u);
    var steps := RunsDry(c, u);
    t := Run(c, u, steps);
    OthersLeaveWriterAlone(c, u, steps);
    RunKeepsInv(c, u, steps);
    DryIsEmpty(c, t);
    RunLeads(c, u, steps);
    LeadsOn(c, s, u, t);
  }

  lemma RunLeads(c: Config, s: State, steps: seq<Step>)
    requires Allowed(c, s, steps)
    ensures Leads(c, s, Run(c, s, steps))
  {
    hide Allowed, Run;
  }

  lemma StartAfterFirst(c: Config, msg: seq<byte>)
    requires |msg| + 4 <= c.size
    ensures StartOf(c, [msg], 1) == Position(0, 4 + |msg|)
  {
    assert StartOf(c, [msg], 0) == Position(0, 0);
  }

  /** The waiting record does not fit the empty pipe that the first record left behind. */
  lemma SecondIsStuck(c: Config, s: State, first: seq<byte>, msg: seq<byte>)
    requires Inv(c, s) && AllRead(s) && s.log == [first] && |msg| <= c.cap
    requires IsFull(c, 4 + |first|, 4 + |first|, |msg|) && |first| + 4 <= c.size
    ensures Enabled(c, s, Begin(msg)) && Stuck(c, Apply(c, s, Begin(msg)), |msg|)
  {
    hide Inv, IsFull32, IsFull, WordAt, StartOf, Place, HeaderPlace, PayloadPlace;
    var s' := Apply(c, s, Begin(msg));
    StepKeepsInv(c, s, Begin(msg));
    WaitingTest(c, s');
    AllReadIsEmpty(c, s);
    Shape(c, s);
    StartAfterFirst(c, first);
    assert s'.log == [first] && s'.popped == [first];
    assert IsFull32(c, s'.mem.readWord, s'.ownWrite, |msg|);
  }

  /** The run: clear, push a record, pop it, and a push that does not fit there waits for ever
      before an empty pipe. */
  lemma GetsStuckBehind(c: Config, buf: seq<byte>, first: seq<byte>, length: nat)
    requires Sound(c) && |buf| == c.size && |first| <= c.cap && length <= c.cap
    requires IsFull(c, 4 + |first|, 4 + |first|, length)
    ensures CanGetStuck(c, buf, length)
  {
    hide Inv, Enabled, Apply, Leads, AllRead, Stuck, IsFull;
    var s0 := Cleared(c, buf);
    var msg := seq(length, _ => 0 as byte);
    ClearedIsGood(c, buf);
    ClearedIsNotFull(c, buf, |first|);
    var s := PushAndPop(c, s0, first);
    assert s.log == [first];
    SecondIsStuck(c, s, first, msg);
    Then(c, s0, s, Begin(msg));
  }

  lemma ClearedIsNotFull(c: Config, buf: seq<byte>, length: nat)
    requires Sound(c) && |buf| == c.size && length <= c.cap
    ensures var s := Cleared(c, buf); !IsFull32(c, s.mem.readWord, s.ownWrite, length)
  {
    UnpackPack(0, 0);
    FullOnPointers(c, 0, 0, length);
  }

  /** Why the cap is half the pipe: clear, push a record as long or four bytes shorter, pop it, and
      a push of a longer length waits for ever before an empty pipe. */
  lemma LongRecordGetsStuck(c: Config, buf: seq<byte>, length: nat)
    requires Sound(c) && |buf| == c.size && length <= c.cap && !FitsEmpty(c, length)
    ensures CanGetStuck(c, buf, length)
  {
    hide CanGetStuck, IsFull;
    EmptyIsNeverFullIff(c, length);
    var before := if IsFull(c, length + 4, length + 4, length) then length else length - 4;
    GetsStuckBehind(c, buf, seq(before, _ => 0 as byte), length);
  }

  /** The exact bound: an accepted length can block a push for ever if and only if it does not fit
      an empty pipe at every offset. */
  lemma GetsStuckIff(c: Config, buf: seq<byte>, length: nat)
    requires Sound(c) && |buf| == c.size && length <= c.cap
    ensures CanGetStuck(c, buf, length) <==> !(2 * length + 4 <= c.size && length + 8 <= c.size)
  {
    hide Inv, Leads, Stuck;
    if !FitsEmpty(c, length) {
      LongRecordGetsStuck(c, buf, length);
    } else {
      forall t | Leads(c, Cleared(c, buf), t)
        ensures !Stuck(c, t, length)
      {
        ClearedIsGood(c, buf);
        LeadsKeeps(c, Cleared(c, buf), t);
        if Stuck(c, t, length) {
          StuckFits(c, t, length);
          assert false;
        }
      }
    }
  }

  lemma StuckFits(c: Config, s: State, length: nat)
    requires Inv(c, s) && Stuck(c, s, length)
    ensures !FitsEmpty(c, length)
  {
    hide Inv, Enabled, Dry;
    StuckIsDry(c, s, length);
    DryIsEmpty(c, s);
    if FitsEmpty(c, length) {
      EmptyAdmits(c, s);
      assert false;
    }
  }
}
