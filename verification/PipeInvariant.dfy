/** The invariant of the protocol. Each of its parts mentions only what it needs of the state. */
module PipeInvariant {
  import opened Bytes
  import opened PipeLayout
  import opened PipeWords
  import opened PipeProtocol

  // ---------------------------------------------------------------------------------------
  // The epochs that the writer issues

  /** The stores of the first `upto` bytes of record `j`. */
  function ByteStores(c: Config, log: seq<seq<byte>>, j: nat, upto: nat): set<Store>
    requires j < |log| && upto <= 4 + |log[j]|
  {
    set k: nat | k < upto :: ToByte(CellAt(c, StartOf(c, log, j), |log[j]|, k).pointer, Frame(log[j])[k])
  }

  /** Epoch 2j announces record j (and publishes record j-1); epoch 2j+1 stores its bytes. */
  function WholeEpoch(c: Config, log: seq<seq<byte>>, k: nat): set<Store>
    requires k < 2 * |log|
  {
    if k % 2 == 0 then
      (if k == 0 then {} else {ToWrite(WordAt(c, log, k / 2))}) + {ToNext(WordAt(c, log, k / 2 + 1))}
    else
      ByteStores(c, log, k / 2, 4 + |log[k / 2]|) + {ToNumWritten(Count64(k / 2 + 1))}
  }

  /** Is a record admitted but not yet published by the writer? */
  predicate InFlight(writer: Writer) {
    !writer.Idle? && !writer.Waiting?
  }

  /** The index of the epoch that the writer is still adding to. */
  function OpenIndex(log: seq<seq<byte>>, writer: Writer): nat
    requires InFlight(writer) ==> |log| > 0
  {
    var n := |log|;
    match writer
    case Idle => 2 * n
    case Waiting(_) => 2 * n
    case Admitted(_, _) => 2 * (n - 1)
    case Counted => 2 * n
    case _ => 2 * (n - 1) + 1
  }

  /** What it has added so far. */
  function OpenEpoch(c: Config, log: seq<seq<byte>>, writer: Writer): set<Store>
    requires InFlight(writer) ==> |log| > 0
  {
    var n := |log|;
    match writer
    case Idle => if n == 0 then {} else {ToWrite(WordAt(c, log, n))}
    case Waiting(_) => if n == 0 then {} else {ToWrite(WordAt(c, log, n))}
    case Admitted(_, _) => if n == 1 then {} else {ToWrite(WordAt(c, log, n - 1))}
    case Announced(_, _) => {}
    case HeaderStored(_, _) => ByteStores(c, log, n - 1, 4)
    case PayloadStored => ByteStores(c, log, n - 1, 4 + |log[n - 1]|)
    case Counted => {}
  }

  /** Epoch `k`, if the writer is adding to epoch `openIndex` and has added `openEpoch` to it. */
  function Epoch(c: Config, log: seq<seq<byte>>, openIndex: nat, openEpoch: set<Store>, k: nat): set<Store>
    requires k <= openIndex <= 2 * |log|
  {
    if k == openIndex then openEpoch else WholeEpoch(c, log, k)
  }

  predicate Applied(mem: Memory, store: Store) {
    match store
    case ToNext(word) => mem.nextWord == word
    case ToByte(index, value) => index < |mem.buf| && mem.buf[index] == value
    case ToNumWritten(n) => mem.numWritten == n
    case ToWrite(word) => mem.writeWord == word
  }

  // ---------------------------------------------------------------------------------------
  // The invariant

  /** All records from the oldest unread one to the newest admitted one fit in one lap. */
  ghost predicate InvLog(c: Config, log: seq<seq<byte>>, popped: seq<seq<byte>>, published: nat, announced: nat,
      inFlight: bool) {
    && Sound(c) && Admissible(c, log)
    && (inFlight ==> |log| > 0)
    && |popped| <= published <= |log| && announced <= |log|
    && popped == log[..|popped|]
    && Before(StartOf(c, log, |log|), Lap(StartOf(c, log, |popped|)))
  }

  /** The writer's own registers. */
  ghost predicate InvWriter(c: Config, log: seq<seq<byte>>, writer: Writer, ownWrite: uint64, ownNext: uint64,
      ownCount: uint64)
    requires InFlight(writer) ==> |log| > 0
  {
    var n := |log|;
    var done := if InFlight(writer) then n - 1 else n;
    && ownWrite == WordAt(c, log, done)
    && ownNext == WordAt(c, log, if writer.Admitted? then n - 1 else n)
    && ownCount == Count64(if writer.Counted? then n else done)
    && (writer.Waiting? ==> |writer.msg| <= c.cap)
    && (writer.Admitted? || writer.Announced? || writer.HeaderStored? ==>
          && writer.msg == log[n - 1]
          && |log[n - 1]| < TWO_32
          && writer.plan == Place(c, WordAt(c, log, n - 1), |log[n - 1]|))
  }

  /** The store buffer holds what is left of the oldest epoch, and all of the later ones. */
  ghost predicate InvBuffer(c: Config, log: seq<seq<byte>>, mem: Memory, pending: seq<set<Store>>, retired: nat,
                            openIndex: nat, openEpoch: set<Store>)
  {
    && |pending| > 0
    && openIndex <= 2 * |log|
    && retired + |pending| == openIndex + 1
    && (forall d | 0 < d < |pending| :: pending[d] == Epoch(c, log, openIndex, openEpoch, retired + d))
    && pending[0] <= Epoch(c, log, openIndex, openEpoch, retired)
    && (forall store | store in Epoch(c, log, openIndex, openEpoch, retired) ::
          store in pending[0] || Applied(mem, store))
  }

  /** How far each kind of store has drained, and what memory holds because of it. The flag
      says that the writer has counted its record but not yet issued the store that publishes it. */
  ghost predicate InvDrained(c: Config, log: seq<seq<byte>>, mem: Memory, pending: seq<set<Store>>, retired: nat,
                             announced: nat, counted: nat, published: nat, unpublished: bool)
    requires |pending| > 0 && retired + |pending| <= 2 * |log| + 1
    requires announced <= |log| && published <= |log|
  {
    var j := retired / 2;
    var open := |pending| == 1;
    && (retired % 2 == 0 ==>
          && counted == j
          && published == (if j > 0 && (ToWrite(WordAt(c, log, j)) in pending[0] || (open && unpublished))
                           then j - 1 else j)
          && announced == (if open || ToNext(WordAt(c, log, j + 1)) in pending[0] then j else j + 1))
    && (retired % 2 == 1 ==>
          && published == j && announced == j + 1
          && counted == (if open || ToNumWritten(Count64(j + 1)) in pending[0] then j else j + 1))
    && mem.writeWord == WordAt(c, log, published)
    && mem.nextWord == WordAt(c, log, announced)
    && mem.numWritten == Count64(counted)
  }

  /** Record `i` is in the buffer, header and payload. */
  ghost predicate Intact(c: Config, log: seq<seq<byte>>, buf: seq<byte>, i: nat)
    requires i < |log| && |buf| == c.size
  {
    Holds(c, buf, StartOf(c, log, i), log[i])
  }

  /** Every record whose bytes have all drained is intact, until the announced position passes
      the place where it started, one lap later. */
  ghost predicate InvBytes(c: Config, log: seq<seq<byte>>, buf: seq<byte>, complete: nat, announced: nat)
    requires complete <= |log| && announced <= |log|
  {
    && |buf| == c.size
    && forall i: nat {:trigger Intact(c, log, buf, i)} | i < complete ::
        AtOrBefore(StartOf(c, log, announced), Lap(StartOf(c, log, i))) ==> Intact(c, log, buf, i)
  }

  /** The reader's own progress. */
  ghost predicate InvReader(c: Config, log: seq<seq<byte>>, reader: Reader, readWord: uint64, numRead: uint64,
                            i: nat, published: nat)
    requires i <= published <= |log|
  {
    && readWord == WordAt(c, log, i)
    && (reader.Advanced? ==> i > 0)
    && numRead == Count64(if reader.Advanced? then i - 1 else i)
    && (reader.CopyingHeader? ==>
          && i < published
          && reader.at == HeaderPlace(c, WordAt(c, log, i))
          && |reader.got| <= 4 && reader.got == Encode32(|log[i]|)[..|reader.got|])
    && (reader.CopyingPayload? ==>
          && i < published
          && reader.length == |log[i]|
          && reader.at == PayloadPlace(c, HeaderPlace(c, WordAt(c, log, i)), |log[i]|)
          && |reader.got| <= |log[i]| && reader.got == log[i][..|reader.got|])
  }

  ghost predicate Inv(c: Config, s: State) {
    && InvLog(c, s.log, s.popped, s.published, s.announced, InFlight(s.writer))
    && InvWriter(c, s.log, s.writer, s.ownWrite, s.ownNext, s.ownCount)
    && InvBuffer(c, s.log, s.mem, s.pending, s.retired, OpenIndex(s.log, s.writer), OpenEpoch(c, s.log, s.writer))
    && InvDrained(c, s.log, s.mem, s.pending, s.retired, s.announced, s.counted, s.published, s.writer.Counted?)
    && InvBytes(c, s.log, s.mem.buf, s.retired / 2, s.announced)
    && InvReader(c, s.log, s.reader, s.mem.readWord, s.mem.numRead, |s.popped|, s.published)
  }

  // ---------------------------------------------------------------------------------------
  // Consequences of the invariant

  lemma ClearedIsGood(c: Config, buf: seq<byte>)
    requires Sound(c) && |buf| == c.size
    ensures Inv(c, Cleared(c, buf))
  {
    UnpackPack(0, 0);
  }

  /** The plain bounds that the invariant contains. */
  lemma Shape(c: Config, s: State)
    requires Inv(c, s)
    ensures Sound(c) && Admissible(c, s.log) && |s.mem.buf| == c.size
    ensures |s.popped| <= s.published <= |s.log| && s.announced <= |s.log|
    ensures |s.pending| > 0 && s.retired + |s.pending| <= 2 * |s.log| + 1
    ensures InFlight(s.writer) ==> |s.log| > 0
    ensures s.retired + |s.pending| == OpenIndex(s.log, s.writer) + 1
  {
    hide InvWriter, InvDrained, InvReader;
  }

  /** Publication under weak ordering: whenever memory shows a write position, every unread
      record before it is in memory, header and payload. */
  lemma PublishedRecordsAreComplete(c: Config, s: State, i: nat)
    requires Inv(c, s) && |s.popped| <= i < s.published
    ensures Intact(c, s.log, s.mem.buf, i)
  {
    assert s.published <= s.retired / 2;
    StartsIncrease(c, s.log, |s.popped|, i);
    StartsIncrease(c, s.log, s.announced, |s.log|);
  }
}
