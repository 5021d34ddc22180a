/** The store buffer drains, and the reader reads: these steps keep the invariant too. */
module PipeMemorySteps {
  import opened Bytes
  import opened PipeLayout
  import opened PipeWords
  import opened PipeProtocol
  import opened PipeInvariant

  // ---------------------------------------------------------------------------------------
  // Draining one store

  predicate SameTarget(a: Store, b: Store) {
    (a.ToNext? && b.ToNext?) || (a.ToNumWritten? && b.ToNumWritten?) || (a.ToWrite? && b.ToWrite?)
    || (a.ToByte? && b.ToByte? && a.index == b.index)
  }

  /** The oldest epoch is a whole one, or part of one. */
  lemma OpenIsPartOfWhole(c: Config, s: State)
    requires InFlight(s.writer) ==> |s.log| > 0
    ensures OpenIndex(s.log, s.writer) < 2 * |s.log|
        ==> OpenEpoch(c, s.log, s.writer) <= WholeEpoch(c, s.log, OpenIndex(s.log, s.writer))
    ensures OpenIndex(s.log, s.writer) == 2 * |s.log|
        ==> forall st | st in OpenEpoch(c, s.log, s.writer) :: st == ToWrite(WordAt(c, s.log, |s.log|)) && |s.log| > 0
  {
    hide WordAt, Count64, CellAt, Frame;
  }

  /** The store just before a fence is never in the epoch that is still open. */
  lemma OpenHoldsNoFencedStore(c: Config, s: State)
    requires InFlight(s.writer) ==> |s.log| > 0
    ensures forall st | st in OpenEpoch(c, s.log, s.writer) :: !st.ToNext? && !st.ToNumWritten? && !s.writer.Counted?
  {
    hide WordAt, Count64, CellAt, Frame;
  }

  /** What a store in the oldest epoch can be. */
  lemma WhatIsPending(c: Config, s: State, st: Store)
    requires Inv(c, s) && (st in s.pending[0] || st in Epoch(c, s.log, OpenIndex(s.log, s.writer),
        OpenEpoch(c, s.log, s.writer), s.retired))
    ensures var j := s.retired / 2;
            match st
            case ToWrite(word) => s.retired % 2 == 0 && j > 0 && word == WordAt(c, s.log, j)
            case ToNext(word) => s.retired % 2 == 0 && j < |s.log| && word == WordAt(c, s.log, j + 1)
            case ToNumWritten(n) => s.retired % 2 == 1 && j < |s.log| && n == Count64(j + 1)
            case ToByte(_, _) => s.retired % 2 == 1 && j < |s.log| && st in ByteStores(c, s.log, j, 4 + |s.log[j]|)
    ensures st.ToNext? || st.ToNumWritten? ==> |s.pending| > 1
    ensures |s.pending| == 1 ==> !s.writer.Counted?
  {
    hide WordAt, Count64, CellAt, Frame, StartOf, OpenEpoch, InvLog, InvWriter, InvDrained, InvBytes, InvReader;
    Shape(c, s);
    OpenIsPartOfWhole(c, s);
    OpenHoldsNoFencedStore(c, s);
  }

  /** While the bytes of record `j` drain, it is announced and the ones before it are published. */
  lemma WhileBytesDrain(c: Config, s: State)
    requires Inv(c, s) && s.retired % 2 == 1
    ensures s.announced == s.retired / 2 + 1 && s.published == s.retired / 2
  {
    hide InvBytes, InvReader, InvWriter, InvLog;
  }

  /** Two stores to the same byte in one epoch are the same store. */
  lemma BytesDiffer(c: Config, log: seq<seq<byte>>, j: nat, a: Store, b: Store)
    requires Sound(c) && Admissible(c, log) && j < |log|
    requires AtOrBefore(StartOf(c, log, j + 1), Lap(StartOf(c, log, j)))
    requires a in ByteStores(c, log, j, 4 + |log[j]|) && b in ByteStores(c, log, j, 4 + |log[j]|)
    requires SameTarget(a, b)
    ensures a == b
  {
    var at, length := StartOf(c, log, j), |log[j]|;
    var k: nat :| k < 4 + length && a == ToByte(CellAt(c, at, length, k).pointer, Frame(log[j])[k]);
    var l: nat :| l < 4 + length && b == ToByte(CellAt(c, at, length, l).pointer, Frame(log[j])[l]);
    StartInRing(c, log, j);
    if k < l {
      CellsOfOneRecordDiffer(c, at, length, k, l);
    } else if l < k {
      CellsOfOneRecordDiffer(c, at, length, l, k);
    }
  }

  /** The record whose bytes are draining ends within a lap of its own start. */
  lemma DrainingFits(c: Config, s: State, j: nat)
    requires Inv(c, s) && |s.popped| <= j < |s.log|
    ensures AtOrBefore(StartOf(c, s.log, j + 1), Lap(StartOf(c, s.log, j)))
  {
    hide StartOf, InvWriter, InvBuffer, InvDrained, InvBytes, InvReader;
    StartsIncrease(c, s.log, |s.popped|, j);
    StartsIncrease(c, s.log, j + 1, |s.log|);
  }

  lemma StoresDoNotClash(c: Config, s: State, a: Store, b: Store)
    requires Inv(c, s)
    requires a in Epoch(c, s.log, OpenIndex(s.log, s.writer), OpenEpoch(c, s.log, s.writer), s.retired)
    requires b in Epoch(c, s.log, OpenIndex(s.log, s.writer), OpenEpoch(c, s.log, s.writer), s.retired)
    requires SameTarget(a, b)
    ensures a == b
  {
    WhatIsPending(c, s, a);
    WhatIsPending(c, s, b);
    if a.ToByte? {
      var j := s.retired / 2;
      WhileBytesDrain(c, s);
      DrainingFits(c, s, j);
      BytesDiffer(c, s.log, j, a, b);
    }
  }

  lemma OneStoreApplies(mem: Memory, st: Store, other: Store)
    requires st.ToByte? ==> st.index < |mem.buf|
    ensures Applied(ApplyStore(mem, st), st)
    ensures !SameTarget(other, st) && Applied(mem, other) ==> Applied(ApplyStore(mem, st), other)
  {
  }

  lemma DrainingKeepsEpochs(c: Config, log: seq<seq<byte>>, mem: Memory, pending: seq<set<Store>>, retired: nat,
                            openIndex: nat, openEpoch: set<Store>, st: Store)
    requires InvBuffer(c, log, mem, pending, retired, openIndex, openEpoch)
    requires st in pending[0] && (st.ToByte? ==> st.index < |mem.buf|)
    requires forall other | other in Epoch(c, log, openIndex, openEpoch, retired) && SameTarget(other, st) ::
        other == st
    ensures InvBuffer(c, log, ApplyStore(mem, st), pending[0 := pending[0] - {st}], retired, openIndex, openEpoch)
  {
    hide Epoch, Applied, ApplyStore, SameTarget;
    forall other | other in Epoch(c, log, openIndex, openEpoch, retired)
      ensures other in pending[0] - {st} || Applied(ApplyStore(mem, st), other)
    {
      OneStoreApplies(mem, st, other);
    }
  }

  lemma DrainKeepsBuffer(c: Config, s: State, st: Store)
    requires Inv(c, s) && st in s.pending[0] && (st.ToByte? ==> st.index < |s.mem.buf|)
    ensures InvBuffer(c, s.log, ApplyStore(s.mem, st), s.pending[0 := s.pending[0] - {st}], s.retired,
                      OpenIndex(s.log, s.writer), OpenEpoch(c, s.log, s.writer))
  {
    hide OpenEpoch, OpenIndex, Epoch, SameTarget, Applied, InvWriter, InvLog, InvDrained, InvBytes, InvReader;
    Shape(c, s);
    var openIndex, openEpoch := OpenIndex(s.log, s.writer), OpenEpoch(c, s.log, s.writer);
    forall other | other in Epoch(c, s.log, openIndex, openEpoch, s.retired) && SameTarget(other, st)
      ensures other == st
    {
      StoresDoNotClash(c, s, other, st);
    }
    DrainingKeepsEpochs(c, s.log, s.mem, s.pending, s.retired, openIndex, openEpoch, st);
  }

  lemma DrainingCounts(c: Config, log: seq<seq<byte>>, mem: Memory, pending: seq<set<Store>>, retired: nat,
                       announced: nat, counted: nat, published: nat, unpublished: bool, st: Store)
    requires |pending| > 0 && retired + |pending| <= 2 * |log| + 1
    requires announced <= |log| && published <= |log|
    requires InvDrained(c, log, mem, pending, retired, announced, counted, published, unpublished)
    requires st in pending[0] && (st.ToByte? ==> st.index < |mem.buf|)
    requires |pending| == 1 ==> !unpublished && !st.ToNext? && !st.ToNumWritten?
    requires st.ToWrite? ==> retired % 2 == 0 && retired > 0 && st.word == WordAt(c, log, retired / 2)
    requires st.ToNext? ==> retired % 2 == 0 && retired / 2 < |log| && st.word == WordAt(c, log, retired / 2 + 1)
    requires st.ToNumWritten? ==> retired % 2 == 1 && retired / 2 < |log| && st.n == Count64(retired / 2 + 1)
    ensures announced + (if st.ToNext? then 1 else 0) <= |log|
    ensures published + (if st.ToWrite? then 1 else 0) <= |log|
    ensures InvDrained(c, log, ApplyStore(mem, st), pending[0 := pending[0] - {st}], retired,
                       announced + (if st.ToNext? then 1 else 0),
                       counted + (if st.ToNumWritten? then 1 else 0),
                       published + (if st.ToWrite? then 1 else 0), unpublished)
  {
    hide WordAt, Count64;
  }

  lemma DrainKeepsDrained(c: Config, s: State, st: Store)
    requires Inv(c, s) && st in s.pending[0] && (st.ToByte? ==> st.index < |s.mem.buf|)
    ensures s.announced + (if st.ToNext? then 1 else 0) <= |s.log|
    ensures s.published + (if st.ToWrite? then 1 else 0) <= |s.log|
    ensures InvDrained(c, s.log, ApplyStore(s.mem, st), s.pending[0 := s.pending[0] - {st}], s.retired,
                       s.announced + (if st.ToNext? then 1 else 0),
                       s.counted + (if st.ToNumWritten? then 1 else 0),
                       s.published + (if st.ToWrite? then 1 else 0), s.writer.Counted?)
  {
    hide WordAt, Count64, OpenEpoch, ByteStores, WholeEpoch, InvLog, InvWriter, InvBuffer, InvBytes, InvReader,
        InvDrained;
    Shape(c, s);
    WhatIsPending(c, s, st);
    DrainingCounts(c, s.log, s.mem, s.pending, s.retired, s.announced, s.counted, s.published, s.writer.Counted?, st);
  }

  /** A store to a byte of the newest draining record spoils no complete record that the
      announced position has not passed. */
  lemma StoreKeepsBytes(c: Config, log: seq<seq<byte>>, buf: seq<byte>, j: nat, st: Store)
    requires Sound(c) && Admissible(c, log) && j < |log| && InvBytes(c, log, buf, j, j + 1)
    requires st in ByteStores(c, log, j, 4 + |log[j]|)
    ensures st.index < |buf| && InvBytes(c, log, buf[st.index := st.value], j, j + 1)
  {
    var l: nat :| l < 4 + |log[j]|
        && st == ToByte(CellAt(c, StartOf(c, log, j), |log[j]|, l).pointer, Frame(log[j])[l]);
    StartInRing(c, log, j);
    CellInside(c, StartOf(c, log, j), |log[j]|, l);
    hide ByteStores, StartOf, Holds, CellAt;
    forall i: nat | i < j && AtOrBefore(StartOf(c, log, j + 1), Lap(StartOf(c, log, i)))
      ensures Intact(c, log, buf[st.index := st.value], i)
    {
      assert Intact(c, log, buf, i);
      StoreKeepsRecord(c, buf, log, i, j, l, st.value);
    }
  }

  /** When the announced position moves on, fewer records are promised to be intact. */
  lemma AnnouncingKeepsBytes(c: Config, log: seq<seq<byte>>, buf: seq<byte>, complete: nat, announced: nat)
    requires Sound(c) && Admissible(c, log) && complete <= |log| && announced < |log|
    requires InvBytes(c, log, buf, complete, announced)
    ensures InvBytes(c, log, buf, complete, announced + 1)
  {
    StartsIncrease(c, log, announced, announced + 1);
  }

  lemma DrainKeepsBytes(c: Config, s: State, st: Store)
    requires Inv(c, s) && st in s.pending[0]
    ensures st.ToByte? ==> st.index < |s.mem.buf|
    ensures s.announced + (if st.ToNext? then 1 else 0) <= |s.log|
    ensures InvBytes(c, s.log, ApplyStore(s.mem, st).buf, s.retired / 2, s.announced + (if st.ToNext? then 1 else 0))
  {
    hide ByteStores, InvLog, InvDrained, InvBuffer, InvBytes, InvReader, InvWriter, StartOf, WordAt, OpenEpoch,
        OpenIndex;
    Shape(c, s);
    WhatIsPending(c, s, st);
    if st.ToByte? {
      WhileBytesDrain(c, s);
    }
    match st
    case ToNext(_) =>
      DrainKeepsDrained(c, s, st);
      AnnouncingKeepsBytes(c, s.log, s.mem.buf, s.retired / 2, s.announced);
    case ToByte(_, _) =>
      StoreKeepsBytes(c, s.log, s.mem.buf, s.retired / 2, st);
    case _ =>
  }

  lemma KeepsDrain(c: Config, s: State, st: Store)
    requires Inv(c, s) && Enabled(c, s, Drain(st))
    ensures Inv(c, Apply(c, s, Drain(st)))
  {
    hide WordAt, InvWriter, InvBuffer, InvDrained, InvBytes, StartOf, OpenEpoch, OpenIndex;
    DrainKeepsBuffer(c, s, st);
    DrainKeepsDrained(c, s, st);
    DrainKeepsBytes(c, s, st);
  }

  // ---------------------------------------------------------------------------------------
  // Retiring an epoch

  /** An epoch that has drained completely has been applied: its record is in memory. */
  lemma RetireCompletesRecord(c: Config, s: State)
    requires Inv(c, s) && |s.pending| > 1 && s.pending[0] == {}
    ensures InvBytes(c, s.log, s.mem.buf, (s.retired + 1) / 2, s.announced)
  {
    hide WordAt, CellAt, Frame, InvWriter, InvDrained, InvReader, OpenEpoch, StartOf;
    var j := s.retired / 2;
    if s.retired % 2 == 1 {
      assert j < |s.log|;
      var at, msg := StartOf(c, s.log, j), s.log[j];
      StartInRing(c, s.log, j);
      assert Epoch(c, s.log, OpenIndex(s.log, s.writer), OpenEpoch(c, s.log, s.writer), s.retired)
          == WholeEpoch(c, s.log, s.retired);
      forall k: nat | k < 4 + |msg|
        ensures CellAt(c, at, |msg|, k).pointer < |s.mem.buf|
            && s.mem.buf[CellAt(c, at, |msg|, k).pointer] == Frame(msg)[k]
      {
        var st := ToByte(CellAt(c, at, |msg|, k).pointer, Frame(msg)[k]);
        assert st in ByteStores(c, s.log, j, 4 + |msg|);
        assert Applied(s.mem, st);
      }
      assert Intact(c, s.log, s.mem.buf, j);
    }
  }

  lemma RetireCounts(c: Config, log: seq<seq<byte>>, mem: Memory, pending: seq<set<Store>>, retired: nat,
                     announced: nat, counted: nat, published: nat, unpublished: bool)
    requires |pending| > 1 && retired + |pending| <= 2 * |log| + 1 && pending[0] == {}
    requires announced <= |log| && published <= |log|
    requires InvDrained(c, log, mem, pending, retired, announced, counted, published, unpublished)
    requires NextEpochBegins(c, log, pending, retired, unpublished)
    ensures InvDrained(c, log, mem, pending[1..], retired + 1, announced, counted, published, unpublished)
  {
    hide WordAt, Count64;
    if retired % 2 == 0 {
      assert (retired + 1) / 2 == retired / 2;
    } else {
      assert (retired + 1) / 2 == retired / 2 + 1;
    }
  }

  /** The marks of the epoch after the oldest one: what it publishes, announces or counts. */
  ghost predicate NextEpochBegins(c: Config, log: seq<seq<byte>>, pending: seq<set<Store>>, retired: nat,
      unpublished: bool)
    requires |pending| > 1 && retired + |pending| <= 2 * |log| + 1
  {
    var j := retired / 2;
    var open := |pending| == 2;
    && (retired % 2 == 0 && !open ==> ToNumWritten(Count64(j + 1)) in pending[1])
    && (retired % 2 == 1 && !open ==> ToNext(WordAt(c, log, j + 2)) in pending[1])
    && (retired % 2 == 1 && !(open && unpublished) ==> ToWrite(WordAt(c, log, j + 1)) in pending[1])
  }

  lemma WholeEpochMarks(c: Config, log: seq<seq<byte>>, k: nat)
    requires 0 < k < 2 * |log|
    ensures k % 2 == 1 ==> ToNumWritten(Count64(k / 2 + 1)) in WholeEpoch(c, log, k)
    ensures k % 2 == 0 ==> ToNext(WordAt(c, log, k / 2 + 1)) in WholeEpoch(c, log, k)
    ensures k % 2 == 0 ==> ToWrite(WordAt(c, log, k / 2)) in WholeEpoch(c, log, k)
  {
    hide WordAt, Count64, ByteStores;
  }

  lemma OpenEpochMark(c: Config, log: seq<seq<byte>>, writer: Writer)
    requires InFlight(writer) ==> |log| > 0
    ensures OpenIndex(log, writer) % 2 == 0 && OpenIndex(log, writer) > 0 && !writer.Counted?
            ==> ToWrite(WordAt(c, log, OpenIndex(log, writer) / 2)) in OpenEpoch(c, log, writer)
  {
    hide WordAt, Count64, ByteStores;
  }

  lemma NextEpochIsMarked(c: Config, s: State)
    requires Inv(c, s) && |s.pending| > 1
    ensures NextEpochBegins(c, s.log, s.pending, s.retired, s.writer.Counted?)
  {
    hide WordAt, Count64, WholeEpoch, OpenEpoch, OpenIndex, InvWriter, InvBytes, InvReader, InvDrained;
    Shape(c, s);
    var k := s.retired + 1;
    assert s.pending[1] == Epoch(c, s.log, OpenIndex(s.log, s.writer), OpenEpoch(c, s.log, s.writer), k);
    if k < OpenIndex(s.log, s.writer) {
      WholeEpochMarks(c, s.log, k);
    } else {
      OpenEpochMark(c, s.log, s.writer);
    }
  }

  lemma RetireKeepsDrained(c: Config, s: State)
    requires Inv(c, s) && |s.pending| > 1 && s.pending[0] == {}
    ensures InvDrained(c, s.log, s.mem, s.pending[1..], s.retired + 1, s.announced, s.counted, s.published,
        s.writer.Counted?)
  {
    hide WordAt, Count64, WholeEpoch, OpenEpoch, OpenIndex, InvLog, InvWriter, InvBuffer, InvBytes, InvReader,
        InvDrained, NextEpochBegins;
    Shape(c, s);
    NextEpochIsMarked(c, s);
    RetireCounts(c, s.log, s.mem, s.pending, s.retired, s.announced, s.counted, s.published, s.writer.Counted?);
  }

  lemma RetireKeepsBuffer(c: Config, log: seq<seq<byte>>, mem: Memory, pending: seq<set<Store>>, retired: nat,
                          openIndex: nat, openEpoch: set<Store>)
    requires InvBuffer(c, log, mem, pending, retired, openIndex, openEpoch) && |pending| > 1
    ensures InvBuffer(c, log, mem, pending[1..], retired + 1, openIndex, openEpoch)
  {
    hide WholeEpoch, Applied;
  }

  lemma KeepsRetire(c: Config, s: State)
    requires Inv(c, s) && Enabled(c, s, Retire)
    ensures Inv(c, Apply(c, s, Retire))
  {
    hide WordAt, InvBuffer, InvDrained, InvBytes, InvReader, InvLog, InvWriter, WholeEpoch, OpenEpoch, OpenIndex;
    Shape(c, s);
    RetireCompletesRecord(c, s);
    RetireKeepsDrained(c, s);
    RetireKeepsBuffer(c, s.log, s.mem, s.pending, s.retired, OpenIndex(s.log, s.writer),
        OpenEpoch(c, s.log, s.writer));
  }

  // ---------------------------------------------------------------------------------------
  // The reader's steps

  /** The byte the reader loads next is the record's own. */
  lemma LoadedByte(c: Config, s: State, k: nat)
    requires Inv(c, s) && |s.popped| < s.published && k < 4 + |s.log[|s.popped|]|
    ensures var i := |s.popped|;
            var at := if k < 4 then HeaderPlace(c, WordAt(c, s.log, i))
                      else PayloadPlace(c, HeaderPlace(c, WordAt(c, s.log, i)), |s.log[i]|);
            var index := at.1 + (if k < 4 then k else k - 4);
            index < |s.mem.buf| && s.mem.buf[index] == Frame(s.log[i])[k]
  {
    var i := |s.popped|;
    PublishedRecordsAreComplete(c, s, i);
    StartInRing(c, s.log, i);
    HeaderPlaceRefines(c, StartOf(c, s.log, i));
    PlaceRefines(c, StartOf(c, s.log, i), |s.log[i]|);
    hide HeaderPlace, PayloadPlace, StartOf, InvWriter, InvBuffer, InvDrained, InvBytes, InvReader, Word;
    var cell := CellAt(c, StartOf(c, s.log, i), |s.log[i]|, k);
    assert cell.pointer < |s.mem.buf| && s.mem.buf[cell.pointer] == Frame(s.log[i])[k];
  }

  /** A pipe that the reader sees as not empty holds a record. */
  lemma SomethingToRead(c: Config, s: State)
    requires Inv(c, s) && s.mem.readWord != s.mem.writeWord
    ensures |s.popped| < s.published <= |s.log|
  {
    hide InvWriter, InvBuffer, InvBytes, WordAt, OpenEpoch, OpenIndex;
  }

  lemma KeepsLook(c: Config, s: State)
    requires Inv(c, s) && Enabled(c, s, Look)
    ensures Inv(c, Apply(c, s, Look))
  {
    hide InvWriter, InvBuffer, InvDrained, InvBytes, HeaderPlace, WordAt;
    SomethingToRead(c, s);
    assert Encode32(|s.log[|s.popped|]|)[..0] == [];
  }

  /** A step that changes only what the reader has copied. */
  lemma OnlyReaderMoves(c: Config, s: State, s': State)
    requires Inv(c, s) && s' == s.(reader := s'.reader) && |s.popped| <= s.published <= |s.log|
    requires InvReader(c, s.log, s'.reader, s.mem.readWord, s.mem.numRead, |s.popped|, s.published)
    ensures Inv(c, s')
  {
    hide InvLog, InvWriter, InvBuffer, InvDrained, InvBytes, InvReader;
  }

  /** The reader's copy grows by the next byte of its record. */
  lemma CopyGrows(c: Config, log: seq<seq<byte>>, reader: Reader, readWord: uint64, numRead: uint64, i: nat,
                  published: nat, value: byte)
    requires i < published <= |log| && InvReader(c, log, reader, readWord, numRead, i, published)
    ensures reader.CopyingHeader? && |reader.got| < 4 && value == Frame(log[i])[|reader.got|] ==>
              InvReader(c, log, CopyingHeader(reader.at, reader.got + [value]), readWord, numRead, i, published)
    ensures reader.CopyingPayload? && |reader.got| < reader.length && value == Frame(log[i])[4 + |reader.got|] ==>
              InvReader(c, log, CopyingPayload(reader.at, reader.length, reader.got + [value]), readWord, numRead,
                  i, published)
  {
    hide HeaderPlace, PayloadPlace, WordAt, Encode32;
    var header, msg := Encode32(|log[i]|), log[i];
    if reader.CopyingHeader? && |reader.got| < 4 {
      assert header[..|reader.got| + 1] == header[..|reader.got|] + [header[|reader.got|]];
    }
    if reader.CopyingPayload? && |reader.got| < reader.length {
      assert msg[..|reader.got| + 1] == msg[..|reader.got|] + [msg[|reader.got|]];
    }
  }

  lemma KeepsLoadHeader(c: Config, s: State)
    requires Inv(c, s) && Enabled(c, s, LoadHeader)
    ensures Inv(c, Apply(c, s, LoadHeader))
  {
    hide InvLog, InvWriter, InvBuffer, InvDrained, InvBytes, HeaderPlace, PayloadPlace, WordAt, Frame;
    Shape(c, s);
    LoadedByte(c, s, |s.reader.got|);
    CopyGrows(c, s.log, s.reader, s.mem.readWord, s.mem.numRead, |s.popped|, s.published,
        s.mem.buf[s.reader.at.1 + |s.reader.got|]);
    OnlyReaderMoves(c, s, Apply(c, s, LoadHeader));
  }

  lemma KeepsDecode(c: Config, s: State)
    requires Inv(c, s) && Enabled(c, s, Decode)
    ensures Inv(c, Apply(c, s, Decode))
  {
    var msg := s.log[|s.popped|];
    HeaderRoundTrip(|msg|);
    assert s.reader.got == Encode32(|msg|);
    assert msg[..0] == [];
    hide InvWriter, InvBuffer, InvDrained, InvBytes, HeaderPlace, PayloadPlace, WordAt, Encode32, Decode32;
  }

  lemma KeepsLoadPayload(c: Config, s: State)
    requires Inv(c, s) && Enabled(c, s, LoadPayload)
    ensures Inv(c, Apply(c, s, LoadPayload))
  {
    hide InvLog, InvWriter, InvBuffer, InvDrained, InvBytes, HeaderPlace, PayloadPlace, WordAt, Frame;
    Shape(c, s);
    LoadedByte(c, s, 4 + |s.reader.got|);
    CopyGrows(c, s.log, s.reader, s.mem.readWord, s.mem.numRead, |s.popped|, s.published,
        s.mem.buf[s.reader.at.1 + |s.reader.got|]);
    OnlyReaderMoves(c, s, Apply(c, s, LoadPayload));
  }

  /** The word the reader stores when it is done with record `i` is where record `i + 1` starts. */
  lemma ReadersEnd(c: Config, log: seq<seq<byte>>, i: nat)
    requires Sound(c) && Admissible(c, log) && i < |log|
    ensures var at := PayloadPlace(c, HeaderPlace(c, WordAt(c, log, i)), |log[i]|);
            VersionedPointer(at.0, Add32(at.1, |log[i]|)) == WordAt(c, log, i + 1)
  {
    StartInRing(c, log, i);
    PlaceRefines(c, StartOf(c, log, i), |log[i]|);
  }

  /** The writer's stores do not depend on what the reader stores. */
  lemma ReaderStoresKeepBuffer(c: Config, log: seq<seq<byte>>, mem: Memory, mem': Memory, pending: seq<set<Store>>,
                               retired: nat, openIndex: nat, openEpoch: set<Store>)
    requires InvBuffer(c, log, mem, pending, retired, openIndex, openEpoch)
    requires mem' == mem.(readWord := mem'.readWord, numRead := mem'.numRead)
    ensures InvBuffer(c, log, mem', pending, retired, openIndex, openEpoch)
  {
    hide Epoch;
  }

  lemma ReaderStoresKeepDrained(c: Config, log: seq<seq<byte>>, mem: Memory, mem': Memory, pending: seq<set<Store>>,
                                retired: nat, announced: nat, counted: nat, published: nat, unpublished: bool)
    requires |pending| > 0 && retired + |pending| <= 2 * |log| + 1
    requires announced <= |log| && published <= |log|
    requires InvDrained(c, log, mem, pending, retired, announced, counted, published, unpublished)
    requires mem' == mem.(readWord := mem'.readWord, numRead := mem'.numRead)
    ensures InvDrained(c, log, mem', pending, retired, announced, counted, published, unpublished)
  {
    hide WordAt, Count64;
  }

  lemma KeepsAdvance(c: Config, s: State)
    requires Inv(c, s) && Enabled(c, s, Advance)
    ensures Inv(c, Apply(c, s, Advance))
  {
    hide Count64, InvWriter, InvBytes, InvBuffer, InvDrained, HeaderPlace, PayloadPlace, StartOf, WordAt,
        VersionedPointer, Add32, OpenEpoch, OpenIndex;
    var s' := Apply(c, s, Advance);
    Shape(c, s);
    var i := |s.popped|;
    ReadersEnd(c, s.log, i);
    StartsIncrease(c, s.log, i, i + 1);
    assert s.reader.got == s.log[i];
    assert s'.popped == s.log[..i + 1];
    ReaderStoresKeepBuffer(c, s.log, s.mem, s'.mem, s.pending, s.retired, OpenIndex(s.log, s.writer),
        OpenEpoch(c, s.log, s.writer));
    ReaderStoresKeepDrained(c, s.log, s.mem, s'.mem, s.pending, s.retired, s.announced, s.counted, s.published,
        s.writer.Counted?);
  }

  lemma KeepsCountRead(c: Config, s: State)
    requires Inv(c, s) && Enabled(c, s, CountRead)
    ensures Inv(c, Apply(c, s, CountRead))
  {
    hide Count64, Increment64, InvWriter, InvBytes, InvBuffer, InvDrained, StartOf, WordAt, OpenEpoch, OpenIndex;
    var s' := Apply(c, s, CountRead);
    Shape(c, s);
    IncrementCounts(|s.popped| - 1);
    ReaderStoresKeepBuffer(c, s.log, s.mem, s'.mem, s.pending, s.retired, OpenIndex(s.log, s.writer),
        OpenEpoch(c, s.log, s.writer));
    ReaderStoresKeepDrained(c, s.log, s.mem, s'.mem, s.pending, s.retired, s.announced, s.counted, s.published,
        s.writer.Counted?);
  }
}
