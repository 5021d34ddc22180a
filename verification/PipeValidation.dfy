/** What `validate` reports, on the threads of the pipe and on any other thread. */
module PipeValidation {
  import opened Bytes
  import opened PipeLayout
  import opened PipeWords
  import opened PipeProtocol
  import opened PipeInvariant
  import opened PipeTheorems
  import opened PipeObservers
  import opened PipeProgress

  /** The checks of `validate` on the four values that it loads. */
  predicate Valid(c: Config, numRead: uint64, numWritten: uint64, readWord: uint64, writeWord: uint64) {
    && !(numRead > numWritten)
    && !(Subtract32(VersionOf(writeWord), VersionOf(readWord)) > 1)
    && !(PointerOf(writeWord) > c.size)
    && !(PointerOf(readWord) > c.size)
    && !(PointerOf(writeWord) == PointerOf(readWord) && VersionOf(writeWord) != VersionOf(readWord))
  }

  /** Two positions in order and less than a lap apart pass all the checks on positions. */
  lemma PositionsAreValid(c: Config, r: Position, w: Position, numRead: uint64, numWritten: uint64)
    requires Sound(c) && InRing(c, r) && InRing(c, w) && WithinLap(r, w) && numRead <= numWritten
    ensures Valid(c, numRead, numWritten, Word(r), Word(w))
  {
    hide Word;
    WordParts(c, r);
    WordParts(c, w);
    EmptyRefines(c, r, w);
    if w.version == r.version + 1 && w.pointer == r.pointer {
      assert false;
    }
  }

  /** Do the four values stand for counts in order, and for two positions of the ring at most one lap
      number apart, of which the second is not the first one lap on? */
  ghost predicate Plausible(c: Config, numRead: uint64, numWritten: uint64, readWord: uint64, writeWord: uint64) {
    numRead <= numWritten &&
    exists r, w :: InRing(c, r) && InRing(c, w) && Word(r) == readWord && Word(w) == writeWord
                   && r.version <= w.version <= r.version + 1 && w != Lap(r)
  }

  lemma ValidIsPlausible(c: Config, numRead: uint64, numWritten: uint64, readWord: uint64, writeWord: uint64)
    requires c.size < 0x1_0000_0000 && Valid(c, numRead, numWritten, readWord, writeWord)
    ensures Plausible(c, numRead, numWritten, readWord, writeWord)
  {
    hide Subtract32, VersionOf, PointerOf;
    var version: nat, laps: nat := VersionOf(readWord), Subtract32(VersionOf(writeWord), VersionOf(readWord));
    var r, w := Position(version, PointerOf(readWord)), Position(version + laps, PointerOf(writeWord));
    LapsOn(VersionOf(readWord), VersionOf(writeWord));
    WordOfParts(readWord);
    WordOfParts(writeWord);
    assert Word(r) == readWord && Word(w) == writeWord;
  }

  lemma LapsOn(a: uint32, b: uint32)
    ensures a % TWO_32 == a && (a + Subtract32(b, a)) % TWO_32 == b
    ensures Subtract32(b, a) == 0 <==> a == b
  {
  }

  lemma WordOfParts(word: uint64)
    ensures VersionedPointer(VersionOf(word), PointerOf(word)) == word && PointerOf(word) % TWO_32 == PointerOf(word)
  {
  }

  lemma PlausibleIsValid(c: Config, numRead: uint64, numWritten: uint64, r: Position, w: Position)
    requires c.size < 0x1_0000_0000 && InRing(c, r) && InRing(c, w) && numRead <= numWritten
    requires r.version <= w.version <= r.version + 1 && w != Lap(r)
    ensures Valid(c, numRead, numWritten, Word(r), Word(w))
  {
    hide Subtract32, VersionOf, PointerOf, VersionedPointer;
    UnpackPack(r.version % TWO_32, r.pointer % TWO_32);
    UnpackPack(w.version % TWO_32, w.pointer % TWO_32);
    VersionGap(r.version, w.version);
  }

  /** The checks pass exactly when it is so, for any four values. */
  lemma ValidIff(c: Config, numRead: uint64, numWritten: uint64, readWord: uint64, writeWord: uint64)
    requires c.size < 0x1_0000_0000
    ensures Valid(c, numRead, numWritten, readWord, writeWord)
            <==> Plausible(c, numRead, numWritten, readWord, writeWord)
  {
    hide Valid, Word;
    if Valid(c, numRead, numWritten, readWord, writeWord) {
      ValidIsPlausible(c, numRead, numWritten, readWord, writeWord);
    }
    if Plausible(c, numRead, numWritten, readWord, writeWord) {
      var r, w :| InRing(c, r) && InRing(c, w) && Word(r) == readWord && Word(w) == writeWord
                  && r.version <= w.version <= r.version + 1 && w != Lap(r);
      PlausibleIsValid(c, numRead, numWritten, r, w);
    }
  }

  // ---------------------------------------------------------------------------------------
  // The counts

  /** From any thread, the count check is sound: `numRead_` is loaded first, in state `s`, and
      `numWritten_` in any later state. */
  lemma CountCheckIsSound(c: Config, s: State, t: State)
    requires Reachable(c, s) && Leads(c, s, t) && |t.log| < TWO_64
    ensures s.mem.numRead <= t.mem.numWritten
  {
    hide Reachable, Inv, Leads;
    ReachableInv(c, s);
    LeadsKeeps(c, s, t);
    Counters(c, s);
    Counters(c, t);
    CountedIsBounded(c, t);
  }

  lemma CountedIsBounded(c: Config, s: State)
    requires Inv(c, s)
    ensures s.counted <= |s.log|
  {
    hide InvBytes, WordAt, Count64, WholeEpoch, InvReader, InvWriter;
  }

  // ---------------------------------------------------------------------------------------
  // Any thread

  /** The four loads of `validate`, each in a state that the one before leads to: of `numRead_` in
      `s`, of `numWritten_` in `t`, of `readVPtr_` in `u`, and of `writeVPtr_` in `v`. */
  ghost predicate Loads(c: Config, s: State, t: State, u: State, v: State) {
    Reachable(c, s) && Leads(c, s, t) && Leads(c, t, u) && Leads(c, u, v) && |t.log| < TWO_64
  }

  /** If no record is released between the loads of the two positions, all checks pass, on any
      thread. */
  lemma ValidWithoutRelease(c: Config, s: State, t: State, u: State, v: State)
    requires Loads(c, s, t, u, v) && v.popped == u.popped
    ensures Valid(c, s.mem.numRead, t.mem.numWritten, u.mem.readWord, v.mem.writeWord)
  {
    hide Reachable, Inv, Leads, Valid, Word, StartOf;
    CountCheckIsSound(c, s, t);
    ReachableInv(c, s);
    LeadsKeeps(c, s, t);
    LeadsKeeps(c, t, u);
    LeadsKeeps(c, u, v);
    Shape(c, u);
    Shape(c, v);
    MemoryPositions(c, u);
    MemoryPositions(c, v);
    var i := |u.popped|;
    assert v.log == u.log + v.log[|u.log|..];
    StartOfPrefix(c, u.log, v.log[|u.log|..], i);
    StartInRing(c, v.log, i);
    StartInRing(c, v.log, v.published);
    PositionsAreValid(c, StartOf(c, v.log, i), StartOf(c, v.log, v.published), s.mem.numRead, t.mem.numWritten);
  }

  /** With a release in between it can report corruption where there is none: exactly when the
      writer moved on by more than a lap number, or to the same offset of the next lap. */
  lemma ReportAcrossReleases(c: Config, s: State, t: State, numRead: uint64, numWritten: uint64)
    requires Reachable(c, s) && Leads(c, s, t) && numRead <= numWritten
    requires |s.popped| <= t.published <= |t.log|
             ==> StartOf(c, t.log, t.published).version < StartOf(c, t.log, |s.popped|).version + TWO_32
    ensures && |s.popped| <= t.published <= |t.log|
            && var r, w := StartOf(c, t.log, |s.popped|), StartOf(c, t.log, t.published);
               Valid(c, numRead, numWritten, s.mem.readWord, t.mem.writeWord)
               <==> w.version <= r.version + 1 && w != Lap(r)
  {
    hide Reachable, Inv, Leads, Word, StartOf, Valid;
    ReachableInv(c, s);
    LeadsKeeps(c, s, t);
    Shape(c, s);
    Shape(c, t);
    MemoryPositions(c, s);
    MemoryPositions(c, t);
    var i := |s.popped|;
    assert t.log == s.log + t.log[|s.log|..];
    StartOfPrefix(c, s.log, t.log[|s.log|..], i);
    StartsIncrease(c, t.log, i, t.published);
    StartInRing(c, t.log, i);
    StartInRing(c, t.log, t.published);
    PositionsReport(c, StartOf(c, t.log, i), StartOf(c, t.log, t.published), numRead, numWritten);
  }

  lemma PositionsReport(c: Config, r: Position, w: Position, numRead: uint64, numWritten: uint64)
    requires Sound(c) && InRing(c, r) && InRing(c, w) && AtOrBefore(r, w) && w.version < r.version + TWO_32
    requires numRead <= numWritten
    ensures Valid(c, numRead, numWritten, Word(r), Word(w)) <==> w.version <= r.version + 1 && w != Lap(r)
  {
    hide Word;
    WordParts(c, r);
    WordParts(c, w);
    VersionGap(r.version, w.version);
  }

  // ---------------------------------------------------------------------------------------
  // A false report

  /** Memory alone can drain all that the writer has stored. */
  lemma {:induction false} Drains(c: Config, s: State) returns (t: State)
    requires Inv(c, s)
    ensures Leads(c, s, t) && t.pending == [{}]
    ensures t.log == s.log && t.popped == s.popped && t.writer == s.writer
    decreases PendingSize(s.pending)
  {
    hide Inv, Leads;
    LeadsToItself(c, s);
    Shape(c, s);
    NeverOutOfBounds(c, s);
    t := s;
    if s.pending != [{}] {
      var step := Retire;
      if s.pending[0] != {} {
        var store :| store in s.pending[0];
        step := Drain(store);
      }
      StepKeepsInv(c, s, step);
      Then(c, s, s, step);
      var s1 := Apply(c, s, step);
      assert step.Drain? ==> s1.pending[1..] == s.pending[1..];
      t := Drains(c, s1);
      LeadsOn(c, s, s1, t);
    }
  }

  /** Three records of the greatest length: the first two end short of the end of the buffer by
      less than a header, and the third ends where the first one did, a lap later. */
  lemma ThreeLongRecords(size: nat, msg: seq<byte>)
    requires 10 <= size && |msg| == Standard(size).cap
    ensures var c, h := Standard(size), 4 + Standard(size).cap;
            && StartOf(c, [msg], 1) == Position(0, h)
            && StartOf(c, [msg, msg], 1) == Position(0, h) && StartOf(c, [msg, msg], 2) == Position(0, 2 * h)
            && StartOf(c, [msg, msg, msg], 1) == Position(0, h)
            && StartOf(c, [msg, msg, msg], 3) == Position(1, h)
  {
    var c := Standard(size);
    StartAfterFirst(c, msg);
    assert [msg] + [msg] == [msg, msg] && [msg, msg] + [msg] == [msg, msg, msg];
    StartOfPrefix(c, [msg], [msg], 1);
    StartOfPrefix(c, [msg, msg], [msg], 1);
    StartOfPrefix(c, [msg, msg], [msg], 2);
  }

  /** Can `validate` report corruption, on some thread, if at most `k` records are released between
      its loads of the two positions? */
  ghost predicate CanMisreport(c: Config, k: nat) {
    exists s, t, u, v ::
      Loads(c, s, t, u, v) && |v.popped| <= |u.popped| + k
      && !Valid(c, s.mem.numRead, t.mem.numWritten, u.mem.readWord, v.mem.writeWord)
  }

  /** A writer that is not in the middle of anything finds room behind an empty pipe. */
  lemma EmptyTakes(c: Config, s: State, length: nat)
    requires Inv(c, s) && AllRead(s) && length <= c.cap && FitsEmpty(c, length)
    ensures !IsFull32(c, s.mem.readWord, s.ownWrite, length)
  {
    hide Inv, IsFull32, IsFull, StartOf, Word;
    AllReadIsEmpty(c, s);
    Shape(c, s);
    var at := StartOf(c, s.log, |s.log|);
    StartInRing(c, s.log, |s.log|);
    FullRefines(c, at, at, length);
    EmptyIsNeverFullIff(c, length);
  }

  /** The input: push and pop a record of the greatest length; load the read position; push and pop
      another, and push a third; load the write position. */
  lemma OneReleaseMisreports(size: nat)
    requires 10 <= size && size + size / 2 - 2 < TWO_32
    ensures CanMisreport(Standard(size), 1)
  {
    hide Inv, Leads, Reachable, Valid, IsFull32, AllRead, StartOf;
    var c := Standard(size);
    StandardReleases(size);
    var msg := seq(c.cap, _ => 0 as byte);
    var buf := seq(size, _ => 0 as byte);
    var s0 := Cleared(c, buf);
    ClearedIsGood(c, buf);
    ClearedIsNotFull(c, buf, c.cap);
    ClearedIsReachable(c, buf);
    var s := PushAndPop(c, s0, msg);
    ReachableOn(c, s0, s);
    assert s.log == [msg];
    var v := OneReleaseLater(size, s, msg);
    LeadsToItself(c, s);
    CountCheckIsSound(c, s, s);
    assert Loads(c, s, s, s, v);
  }

  lemma ClearedIsReachable(c: Config, buf: seq<byte>)
    requires Sound(c) && |buf| == c.size
    ensures Reachable(c, Cleared(c, buf))
  {
    LeadsToItself(c, Cleared(c, buf));
  }

  lemma OneReleaseLater(size: nat, s: State, msg: seq<byte>) returns (v: State)
    requires 10 <= size && Releasing(Standard(size)) && |msg| == Standard(size).cap
    requires Reachable(Standard(size), s) && Inv(Standard(size), s) && AllRead(s) && s.log == [msg]
    ensures Leads(Standard(size), s, v) && |v.popped| == |s.popped| + 1
    ensures forall numRead, numWritten | numRead <= numWritten ::
              !Valid(Standard(size), numRead, numWritten, s.mem.readWord, v.mem.writeWord)
  {
    hide Inv, Leads, Reachable, Valid, IsFull32, Dry, StartOf;
    var c := Standard(size);
    EmptyTakes(c, s, |msg|);
    var u := PushAndPop(c, s, msg);
    EmptyTakes(c, u, |msg|);
    Shape(c, u);
    var u' := PushGoesThrough(c, u, msg);
    LeadsKeeps(c, u, u');
    v := Drains(c, u');
    LeadsKeeps(c, u', v);
    LeadsOn(c, s, u, u');
    LeadsOn(c, s, u', v);
    AllIsPublished(c, v);
    ThreeLongRecords(size, msg);
    assert s.log == [msg] && v.log == [msg, msg, msg];
    forall numRead, numWritten | numRead <= numWritten
      ensures !Valid(c, numRead, numWritten, s.mem.readWord, v.mem.writeWord)
    {
      ReportAcrossReleases(c, s, v, numRead, numWritten);
    }
  }

  /** Exactly when a false report is possible: when the pipe may release a record between the two
      loads, and one is enough. */
  lemma CanMisreportIff(size: nat, k: nat)
    requires 10 <= size && size + size / 2 - 2 < TWO_32
    ensures CanMisreport(Standard(size), k) <==> k > 0
  {
    hide Valid, Leads, Reachable;
    var c := Standard(size);
    if k > 0 {
      OneReleaseMisreports(size);
    } else {
      forall s, t, u, v | Loads(c, s, t, u, v) && |v.popped| <= |u.popped|
        ensures Valid(c, s.mem.numRead, t.mem.numWritten, u.mem.readWord, v.mem.writeWord)
      {
        PoppedGrows(c, u, v);
        ValidWithoutRelease(c, s, t, u, v);
      }
    }
  }

  lemma PoppedGrows(c: Config, u: State, v: State)
    requires Leads(c, u, v)
    ensures u.popped <= v.popped
  {
    hide Run, Allowed;
    var steps :| Allowed(c, u, steps) && Run(c, u, steps) == v;
    RunMovesOn(c, u, steps);
  }

  // ---------------------------------------------------------------------------------------
  // The threads of the pipe

  predicate IsReaders(step: Step) {
    step.Look? || step.LoadHeader? || step.Decode? || step.LoadPayload? || step.Advance? || step.CountRead?
  }

  lemma {:induction false} OthersLeaveReaderAlone(c: Config, s: State, steps: seq<Step>)
    requires Allowed(c, s, steps) && forall step | step in steps :: !IsReaders(step)
    ensures Run(c, s, steps).mem.readWord == s.mem.readWord && Run(c, s, steps).popped == s.popped
    decreases |steps|
  {
    hide IsFull32, Place, HeaderPlace, PayloadPlace, Increment64, HeaderStores, PayloadStores, Issue, Fence;
    if steps != [] {
      assert steps[0] in steps;
      OthersLeaveReaderAlone(c, Apply(c, s, steps[0]), steps[1..]);
    }
  }

  /** On the reader's thread `validate` never reports corruption. The writer runs on between its
      loads: of `numRead_` in `s`, of `numWritten_` after `first`, and of the write position after
      `second`. */
  lemma ValidOnReadersThread(c: Config, s: State, first: seq<Step>, second: seq<Step>)
    requires Reachable(c, s) && Allowed(c, s, first) && Allowed(c, Run(c, s, first), second)
    requires forall step | step in first || step in second :: !IsReaders(step)
    requires |Run(c, s, first).log| < TWO_64
    ensures var t := Run(c, s, first);
            var u := Run(c, t, second);
            Valid(c, s.mem.numRead, t.mem.numWritten, s.mem.readWord, u.mem.writeWord)
  {
    hide Reachable, Run, Allowed, Valid, Leads;
    var t := Run(c, s, first);
    RunLeads(c, s, first);
    RunLeads(c, t, second);
    LeadsToItself(c, t);
    OthersLeaveReaderAlone(c, s, first);
    OthersLeaveReaderAlone(c, t, second);
    ValidWithoutRelease(c, s, t, t, Run(c, t, second));
  }

  /** On the writer's thread it never does either, also between the increment of `numWritten_` and
      the store that publishes the record. The writer sees its own latest stores, and the reader
      runs on between its loads of `numRead_` in `s` and of `readVPtr_` after `steps`. */
  lemma ValidOnWritersThread(c: Config, s: State, steps: seq<Step>)
    requires Reachable(c, s) && Allowed(c, s, steps) && |s.log| < TWO_64
    requires forall step | step in steps :: IsReaderOrDrain(step)
    ensures var t := Run(c, s, steps);
            Valid(c, s.mem.numRead, s.ownCount, t.mem.readWord, s.ownWrite)
  {
    hide Reachable, Inv, Run, Allowed, Valid;
    var t := Run(c, s, steps);
    ReachableInv(c, s);
    RunKeepsInv(c, s, steps);
    OthersLeaveWriterAlone(c, s, steps);
    assert s.mem.numRead <= s.ownCount by {
      Counters(c, s);
      OwnRegisters(c, s);
    }
    ValidInWritersView(c, t, s.mem.numRead);
  }

  /** The writer's own position is less than a lap ahead of the reader's. */
  lemma ValidInWritersView(c: Config, s: State, numRead: uint64)
    requires Inv(c, s) && numRead <= s.ownCount
    ensures Valid(c, numRead, s.ownCount, s.mem.readWord, s.ownWrite)
  {
    hide Inv, Valid, Word, StartOf;
    OwnRegisters(c, s);
    Shape(c, s);
    MemoryPositions(c, s);
    var i, done := |s.popped|, if InFlight(s.writer) then |s.log| - 1 else |s.log|;
    StartsIncrease(c, s.log, i, done);
    StartsIncrease(c, s.log, done, |s.log|);
    StartInRing(c, s.log, i);
    StartInRing(c, s.log, done);
    PositionsAreValid(c, StartOf(c, s.log, i), StartOf(c, s.log, done), numRead, s.ownCount);
  }
}
