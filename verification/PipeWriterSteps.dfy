/** The writer's steps keep the invariant. */
module PipeWriterSteps {
  import opened Bytes
  import opened PipeLayout
  import opened PipeWords
  import opened PipeProtocol
  import opened PipeInvariant

  lemma KeepsWaiting(c: Config, s: State, step: Step)
    requires Inv(c, s) && Enabled(c, s, step)
    requires step.Begin? || step.Reject? || step.Spin? || step.GiveUp?
    ensures Inv(c, Apply(c, s, step))
  {
  }

  /** A longer log has the same earlier epochs. */
  lemma EpochsOfLongerLog(c: Config, log: seq<seq<byte>>, msg: seq<byte>)
    ensures forall i: nat | i <= |log| :: StartOf(c, log + [msg], i) == StartOf(c, log, i)
    ensures forall k: nat | k < 2 * |log| :: WholeEpoch(c, log + [msg], k) == WholeEpoch(c, log, k)
  {
    forall i: nat | i <= |log|
      ensures StartOf(c, log + [msg], i) == StartOf(c, log, i)
    {
      StartOfPrefix(c, log, [msg], i);
    }
    forall k: nat | k < 2 * |log|
      ensures WholeEpoch(c, log + [msg], k) == WholeEpoch(c, log, k)
    {
      assert (log + [msg])[k / 2] == log[k / 2];
    }
  }

  /** An admitted record ends within a lap of the reader. */
  lemma AdmittedFits(c: Config, s: State)
    requires Inv(c, s) && s.writer.Waiting? && !IsFull32(c, s.mem.readWord, s.ownWrite, |s.writer.msg|)
    ensures Before(Finish(c, StartOf(c, s.log, |s.log|), |s.writer.msg|), Lap(StartOf(c, s.log, |s.popped|)))
  {
    var r, w := StartOf(c, s.log, |s.popped|), StartOf(c, s.log, |s.log|);
    StartInRing(c, s.log, |s.popped|);
    StartInRing(c, s.log, |s.log|);
    StartsIncrease(c, s.log, |s.popped|, |s.log|);
    FullRefines(c, r, w, |s.writer.msg|);
    FullIffPastLap(c, r, w, |s.writer.msg|);
  }

  /** Nothing that is known about the earlier records changes when the log grows. */
  lemma LongerLog(c: Config, s: State, msg: seq<byte>)
    requires Inv(c, s) && !InFlight(s.writer)
    ensures InvBuffer(c, s.log + [msg], s.mem, s.pending, s.retired, OpenIndex(s.log, s.writer),
        OpenEpoch(c, s.log, s.writer))
    ensures InvDrained(c, s.log + [msg], s.mem, s.pending, s.retired, s.announced, s.counted, s.published, false)
  {
    hide Word, StartOf, ByteStores;
    EpochsOfLongerLog(c, s.log, msg);
  }

  lemma LongerLogBytes(c: Config, log: seq<seq<byte>>, msg: seq<byte>, buf: seq<byte>, complete: nat, announced: nat)
    requires complete <= |log| && announced <= |log| && InvBytes(c, log, buf, complete, announced)
    ensures InvBytes(c, log + [msg], buf, complete, announced)
  {
    EpochsOfLongerLog(c, log, msg);
    forall i: nat | i < complete && AtOrBefore(StartOf(c, log, announced), Lap(StartOf(c, log, i)))
      ensures Intact(c, log + [msg], buf, i)
    {
      assert Intact(c, log, buf, i) && (log + [msg])[i] == log[i];
    }
  }

  lemma LongerLogReader(c: Config, log: seq<seq<byte>>, msg: seq<byte>, reader: Reader, readWord: uint64,
                        numRead: uint64, i: nat, published: nat)
    requires i <= published <= |log| && InvReader(c, log, reader, readWord, numRead, i, published)
    ensures InvReader(c, log + [msg], reader, readWord, numRead, i, published)
  {
    EpochsOfLongerLog(c, log, msg);
  }

  lemma LongerLogWriter(c: Config, s: State)
    requires Enabled(c, s, Admit) && InvWriter(c, s.log, s.writer, s.ownWrite, s.ownNext, s.ownCount)
    ensures var s' := Apply(c, s, Admit);
            && InvWriter(c, s'.log, s'.writer, s'.ownWrite, s'.ownNext, s'.ownCount)
            && OpenIndex(s'.log, s'.writer) == OpenIndex(s.log, s.writer)
            && OpenEpoch(c, s'.log, s'.writer) == OpenEpoch(c, s.log, s.writer)
  {
    hide Word, Place, StartOf, IsFull32;
    var s' := Apply(c, s, Admit);
    StartOfPrefix(c, s.log, [s.writer.msg], |s.log|);
    assert WordAt(c, s'.log, |s.log|) == WordAt(c, s.log, |s.log|);
  }

  lemma LongerLogFits(c: Config, log: seq<seq<byte>>, popped: seq<seq<byte>>, published: nat, announced: nat,
      msg: seq<byte>)
    requires InvLog(c, log, popped, published, announced, false) && |msg| <= c.cap
    requires Before(Finish(c, StartOf(c, log, |log|), |msg|), Lap(StartOf(c, log, |popped|)))
    ensures InvLog(c, log + [msg], popped, published, announced, true)
  {
    hide StartOf, Finish;
    NextStart(c, log + [msg], |log|);
    StartOfPrefix(c, log, [msg], |log|);
    StartOfPrefix(c, log, [msg], |popped|);
    assert (log + [msg])[..|popped|] == log[..|popped|];
  }

  lemma WaitingFits(c: Config, s: State)
    requires Inv(c, s) && s.writer.Waiting?
    ensures |s.writer.msg| <= c.cap
  {
    hide InvLog, InvBuffer, InvDrained, InvBytes, InvReader, WordAt;
  }

  lemma KeepsAdmit(c: Config, s: State)
    requires Inv(c, s) && Enabled(c, s, Admit)
    ensures Inv(c, Apply(c, s, Admit))
  {
    hide InvLog, InvBuffer, InvDrained, InvBytes, InvReader, InvWriter, StartOf, Finish, Place, OpenEpoch, OpenIndex,
        IsFull32;
    var msg := s.writer.msg;
    Shape(c, s);
    WaitingFits(c, s);
    AdmittedFits(c, s);
    LongerLogFits(c, s.log, s.popped, s.published, s.announced, msg);
    LongerLogWriter(c, s);
    LongerLog(c, s, msg);
    LongerLogBytes(c, s.log, msg, s.mem.buf, s.retired / 2, s.announced);
    LongerLogReader(c, s.log, msg, s.reader, s.mem.readWord, s.mem.numRead, |s.popped|, s.published);
  }

  /** Issuing stores extends the open epoch. */
  lemma IssueKeepsBuffer(c: Config, log: seq<seq<byte>>, mem: Memory, pending: seq<set<Store>>, retired: nat,
                         openIndex: nat, openEpoch: set<Store>, stores: set<Store>)
    requires InvBuffer(c, log, mem, pending, retired, openIndex, openEpoch)
    ensures InvBuffer(c, log, mem, Issue(pending, stores), retired, openIndex, openEpoch + stores)
  {
    hide WholeEpoch;
  }

  /** A fence makes the open epoch a whole one and opens the next. */
  lemma FenceKeepsBuffer(c: Config, log: seq<seq<byte>>, mem: Memory, pending: seq<set<Store>>, retired: nat,
                         openIndex: nat)
    requires openIndex < 2 * |log|
    requires InvBuffer(c, log, mem, pending, retired, openIndex, WholeEpoch(c, log, openIndex))
    ensures InvBuffer(c, log, mem, Fence(pending), retired, openIndex + 1, {})
  {
    hide WholeEpoch;
  }

  /** The end that the writer plans is where the next record will start. */
  lemma PlannedEnd(c: Config, log: seq<seq<byte>>, j: nat)
    requires Sound(c) && Admissible(c, log) && j < |log|
    ensures Place(c, WordAt(c, log, j), |log[j]|)
            == Placement(HeaderStart(c, StartOf(c, log, j)).pointer,
                         PayloadStart(c, StartOf(c, log, j), |log[j]|).pointer,
                         WordAt(c, log, j + 1))
  {
    StartInRing(c, log, j);
    PlaceRefines(c, StartOf(c, log, j), |log[j]|);
  }

  /** The stores of a header are those of the record's first four bytes. */
  lemma IssuedHeader(c: Config, log: seq<seq<byte>>, j: nat)
    requires Sound(c) && Admissible(c, log) && j < |log|
    ensures HeaderStores(Place(c, WordAt(c, log, j), |log[j]|), |log[j]|) == ByteStores(c, log, j, 4)
  {
    PlannedEnd(c, log, j);
    hide StartOf, HeaderStart, PayloadStart, Place;
    assert forall k: nat | k < 4 :: Frame(log[j])[k] == Encode32(|log[j]|)[k];
  }

  lemma PayloadCells(c: Config, log: seq<seq<byte>>, j: nat)
    requires Sound(c) && Admissible(c, log) && j < |log|
    ensures forall k: nat | 4 <= k < 4 + |log[j]| ::
              && CellAt(c, StartOf(c, log, j), |log[j]|, k).pointer
                 == Place(c, WordAt(c, log, j), |log[j]|).payloadPtr + (k - 4)
              && Frame(log[j])[k] == log[j][k - 4]
  {
    hide StartOf, Place, WordAt, Encode32;
    PlannedEnd(c, log, j);
  }

  /** Those of a payload are the stores of the bytes that follow. */
  lemma IssuedPayload(c: Config, log: seq<seq<byte>>, j: nat)
    requires Sound(c) && Admissible(c, log) && j < |log|
    ensures ByteStores(c, log, j, 4) + PayloadStores(Place(c, WordAt(c, log, j), |log[j]|), log[j])
            == ByteStores(c, log, j, 4 + |log[j]|)
  {
    hide StartOf, CellAt, Place, Frame, WordAt;
    PayloadCells(c, log, j);
    var plan, msg, at := Place(c, WordAt(c, log, j), |log[j]|), log[j], StartOf(c, log, j);
    forall store | store in PayloadStores(plan, msg)
      ensures store in ByteStores(c, log, j, 4 + |msg|)
    {
      var k :| 0 <= k < |msg| && store == ToByte(plan.payloadPtr + k, msg[k]);
      assert CellAt(c, at, |msg|, k + 4).pointer == plan.payloadPtr + k;
    }
    forall store | store in ByteStores(c, log, j, 4 + |msg|) && store !in ByteStores(c, log, j, 4)
      ensures store in PayloadStores(plan, msg)
    {
      var k: nat :| k < 4 + |msg| && store == ToByte(CellAt(c, at, |msg|, k).pointer, Frame(msg)[k]);
      assert k >= 4;
      assert store == ToByte(plan.payloadPtr + (k - 4), msg[k - 4]);
    }
  }

  lemma AnnounceKeepsDrained(c: Config, log: seq<seq<byte>>, mem: Memory, pending: seq<set<Store>>, retired: nat,
                             announced: nat, counted: nat, published: nat)
    requires |log| > 0 && |pending| > 0 && retired + |pending| == 2 * |log| - 1
    requires announced <= |log| && published <= |log|
    requires InvDrained(c, log, mem, pending, retired, announced, counted, published, false)
    ensures InvDrained(c, log, mem, Fence(Issue(pending, {ToNext(WordAt(c, log, |log|))})), retired,
                       announced, counted, published, false)
  {
    hide WordAt, Count64;
  }

  lemma StoreBytesKeepsDrained(c: Config, log: seq<seq<byte>>, mem: Memory, pending: seq<set<Store>>, retired: nat,
                               announced: nat, counted: nat, published: nat, stores: set<Store>)
    requires |log| > 0 && |pending| > 0 && retired + |pending| == 2 * |log|
    requires announced <= |log| && published <= |log|
    requires InvDrained(c, log, mem, pending, retired, announced, counted, published, false)
    ensures InvDrained(c, log, mem, Issue(pending, stores), retired, announced, counted, published, false)
  {
    hide WordAt, Count64;
  }

  lemma CountKeepsDrained(c: Config, log: seq<seq<byte>>, mem: Memory, pending: seq<set<Store>>, retired: nat,
                          announced: nat, counted: nat, published: nat)
    requires |log| > 0 && |pending| > 0 && retired + |pending| == 2 * |log|
    requires announced <= |log| && published <= |log|
    requires InvDrained(c, log, mem, pending, retired, announced, counted, published, false)
    ensures InvDrained(c, log, mem, Fence(Issue(pending, {ToNumWritten(Count64(|log|))})), retired,
                       announced, counted, published, true)
  {
    hide WordAt, Count64;
  }

  lemma PublishKeepsDrained(c: Config, log: seq<seq<byte>>, mem: Memory, pending: seq<set<Store>>, retired: nat,
                            announced: nat, counted: nat, published: nat)
    requires |log| > 0 && |pending| > 0 && retired + |pending| == 2 * |log| + 1
    requires announced <= |log| && published <= |log|
    requires InvDrained(c, log, mem, pending, retired, announced, counted, published, true)
    ensures InvDrained(c, log, mem, Issue(pending, {ToWrite(WordAt(c, log, |log|))}), retired,
                       announced, counted, published, false)
  {
    hide WordAt, Count64;
  }

  lemma AnnounceKeepsWriter(c: Config, s: State)
    requires |s.log| > 0 && Sound(c) && Admissible(c, s.log)
        && InvWriter(c, s.log, s.writer, s.ownWrite, s.ownNext, s.ownCount) && Enabled(c, s, Announce)
    ensures var s' := Apply(c, s, Announce);
            InvWriter(c, s'.log, s'.writer, s'.ownWrite, s'.ownNext, s'.ownCount)
    ensures s.writer.plan.end == WordAt(c, s.log, |s.log|)
    ensures OpenEpoch(c, s.log, s.writer) + {ToNext(s.writer.plan.end)}
        == WholeEpoch(c, s.log, OpenIndex(s.log, s.writer))
  {
    hide WordAt, Count64, Place, StartOf, HeaderStart, PayloadStart, ByteStores;
    PlannedEnd(c, s.log, |s.log| - 1);
  }

  lemma KeepsAnnounce(c: Config, s: State)
    requires Inv(c, s) && Enabled(c, s, Announce)
    ensures Inv(c, Apply(c, s, Announce))
  {
    hide WordAt, Count64, StartOf, WholeEpoch, InvLog, InvWriter, InvBuffer, InvDrained, InvBytes, InvReader;
    Shape(c, s);
    var news := {ToNext(s.writer.plan.end)};
    AnnounceKeepsWriter(c, s);
    AnnounceKeepsDrained(c, s.log, s.mem, s.pending, s.retired, s.announced, s.counted, s.published);
    IssueKeepsBuffer(c, s.log, s.mem, s.pending, s.retired, OpenIndex(s.log, s.writer),
        OpenEpoch(c, s.log, s.writer), news);
    FenceKeepsBuffer(c, s.log, s.mem, Issue(s.pending, news), s.retired, OpenIndex(s.log, s.writer));
  }

  lemma StoreHeaderKeepsWriter(c: Config, s: State)
    requires |s.log| > 0 && Sound(c) && Admissible(c, s.log)
        && InvWriter(c, s.log, s.writer, s.ownWrite, s.ownNext, s.ownCount) && Enabled(c, s, StoreHeader)
    ensures var s' := Apply(c, s, StoreHeader);
            InvWriter(c, s'.log, s'.writer, s'.ownWrite, s'.ownNext, s'.ownCount)
    ensures OpenEpoch(c, s.log, s.writer) + HeaderStores(s.writer.plan, |s.writer.msg|)
        == OpenEpoch(c, s.log, Apply(c, s, StoreHeader).writer)
  {
    hide WordAt, Count64, Place, StartOf, HeaderStores, ByteStores;
    IssuedHeader(c, s.log, |s.log| - 1);
  }

  lemma KeepsStoreHeader(c: Config, s: State)
    requires Inv(c, s) && Enabled(c, s, StoreHeader)
    ensures Inv(c, Apply(c, s, StoreHeader))
  {
    hide OpenEpoch, HeaderStores, InvLog, InvWriter, InvBuffer, InvDrained, InvBytes, InvReader;
    Shape(c, s);
    var news := HeaderStores(s.writer.plan, |s.writer.msg|);
    StoreHeaderKeepsWriter(c, s);
    StoreBytesKeepsDrained(c, s.log, s.mem, s.pending, s.retired, s.announced, s.counted, s.published, news);
    IssueKeepsBuffer(c, s.log, s.mem, s.pending, s.retired, OpenIndex(s.log, s.writer),
        OpenEpoch(c, s.log, s.writer), news);
  }

  lemma StorePayloadKeepsWriter(c: Config, s: State)
    requires |s.log| > 0 && Sound(c) && Admissible(c, s.log)
        && InvWriter(c, s.log, s.writer, s.ownWrite, s.ownNext, s.ownCount) && Enabled(c, s, StorePayload)
    ensures var s' := Apply(c, s, StorePayload);
            InvWriter(c, s'.log, s'.writer, s'.ownWrite, s'.ownNext, s'.ownCount)
    ensures OpenEpoch(c, s.log, s.writer) + PayloadStores(s.writer.plan, s.writer.msg)
        == OpenEpoch(c, s.log, Apply(c, s, StorePayload).writer)
  {
    hide WordAt, Count64, Place, StartOf, PayloadStores, ByteStores;
    IssuedPayload(c, s.log, |s.log| - 1);
  }

  lemma KeepsStorePayload(c: Config, s: State)
    requires Inv(c, s) && Enabled(c, s, StorePayload)
    ensures Inv(c, Apply(c, s, StorePayload))
  {
    hide OpenEpoch, PayloadStores, InvLog, InvWriter, InvBuffer, InvDrained, InvBytes, InvReader;
    Shape(c, s);
    var news := PayloadStores(s.writer.plan, s.writer.msg);
    StorePayloadKeepsWriter(c, s);
    StoreBytesKeepsDrained(c, s.log, s.mem, s.pending, s.retired, s.announced, s.counted, s.published, news);
    IssueKeepsBuffer(c, s.log, s.mem, s.pending, s.retired, OpenIndex(s.log, s.writer),
        OpenEpoch(c, s.log, s.writer), news);
  }

  lemma CountKeepsWriter(c: Config, s: State)
    requires |s.log| > 0 && InvWriter(c, s.log, s.writer, s.ownWrite, s.ownNext, s.ownCount) && Enabled(c, s, Count)
    ensures var s' := Apply(c, s, Count);
            InvWriter(c, s'.log, s'.writer, s'.ownWrite, s'.ownNext, s'.ownCount)
    ensures Increment64(s.ownCount) == Count64(|s.log|)
    ensures OpenEpoch(c, s.log, s.writer) + {ToNumWritten(Increment64(s.ownCount))}
        == WholeEpoch(c, s.log, OpenIndex(s.log, s.writer))
  {
    hide WordAt, Count64, Increment64, ByteStores;
    IncrementCounts(|s.log| - 1);
  }

  lemma KeepsCount(c: Config, s: State)
    requires Inv(c, s) && Enabled(c, s, Count)
    ensures Inv(c, Apply(c, s, Count))
  {
    hide WordAt, Count64, WholeEpoch, Increment64, InvLog, InvWriter, InvBuffer, InvDrained, InvBytes, InvReader;
    Shape(c, s);
    var news := {ToNumWritten(Increment64(s.ownCount))};
    CountKeepsWriter(c, s);
    CountKeepsDrained(c, s.log, s.mem, s.pending, s.retired, s.announced, s.counted, s.published);
    IssueKeepsBuffer(c, s.log, s.mem, s.pending, s.retired, OpenIndex(s.log, s.writer),
        OpenEpoch(c, s.log, s.writer), news);
    FenceKeepsBuffer(c, s.log, s.mem, Issue(s.pending, news), s.retired, OpenIndex(s.log, s.writer));
  }

  lemma KeepsPublish(c: Config, s: State)
    requires Inv(c, s) && Enabled(c, s, Publish)
    ensures Inv(c, Apply(c, s, Publish))
  {
    hide WordAt, Count64, InvBuffer, InvDrained, InvBytes, InvReader;
    Shape(c, s);
    PublishKeepsDrained(c, s.log, s.mem, s.pending, s.retired, s.announced, s.counted, s.published);
    IssueKeepsBuffer(c, s.log, s.mem, s.pending, s.retired, OpenIndex(s.log, s.writer),
        OpenEpoch(c, s.log, s.writer), {ToWrite(s.ownNext)});
    assert {} + {ToWrite(s.ownNext)} == {ToWrite(s.ownNext)};
  }
}
