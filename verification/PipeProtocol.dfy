/** The pipe as two threads and a memory between them, in micro-steps.

    The writer's stores wait in a buffer of epochs. A write fence closes the current epoch. The
    stores of the oldest epoch reach memory one at a time in any order, and an epoch begins to
    drain only when the one before it is empty. Draining every store at once gives ordinary
    sequentially consistent memory, so every claim about these runs covers that case too.

    `read` has no visible body. The reader here is an assumption: the mirror of `startWrite`. */
module PipeProtocol {
  import opened Bytes
  import opened PipeLayout
  import opened PipeWords

  /** One store by the writer to a variable that other threads can see. */
  datatype Store =
    | ToNext(word: uint64)
    | ToByte(index: nat, value: byte)
    | ToNumWritten(n: uint64)
    | ToWrite(word: uint64)

  /** What every thread can see. */
  datatype Memory = Memory(buf: seq<byte>, readWord: uint64, writeWord: uint64, nextWord: uint64,
                           numRead: uint64, numWritten: uint64)

  /** Where the writer stands in `push`. */
  datatype Writer =
    | Idle
    | Waiting(msg: seq<byte>)
    | Admitted(msg: seq<byte>, plan: Placement)
    | Announced(msg: seq<byte>, plan: Placement)
    | HeaderStored(msg: seq<byte>, plan: Placement)
    | PayloadStored
    | Counted

  /** Where the assumed reader stands in `read`. */
  datatype Reader =
    | Looking
    | CopyingHeader(at: (uint32, uint32), got: seq<byte>)
    | CopyingPayload(at: (uint32, uint32), length: uint32, got: seq<byte>)
    | Advanced

  /** Memory, the store buffer, the two threads, and history that no step depends on: the
      records admitted and popped so far, and how often each kind of store has drained. */
  datatype State = State(
    mem: Memory,
    pending: seq<set<Store>>,
    writer: Writer, ownWrite: uint64, ownNext: uint64, ownCount: uint64,
    reader: Reader,
    log: seq<seq<byte>>, popped: seq<seq<byte>>,
    retired: nat, announced: nat, counted: nat, published: nat)

  datatype Step =
    // the writer
    | Begin(msg: seq<byte>) | Reject(msg: seq<byte>) | Spin | GiveUp | Admit
    | Announce | StoreHeader | StorePayload | Count | Publish
    // the store buffer
    | Drain(store: Store) | Retire
    // the reader
    | Look | LoadHeader | Decode | LoadPayload | Advance | CountRead

  predicate IsReaderOrDrain(step: Step) {
    step.Drain? || step.Retire? || step.Look? || step.LoadHeader? || step.Decode? || step.LoadPayload?
    || step.Advance? || step.CountRead?
  }

  predicate Enabled(c: Config, s: State, step: Step) {
    match step
    case Begin(msg) => s.writer.Idle? && |msg| <= c.cap
    case Reject(msg) => s.writer.Idle? && |msg| > c.cap
    case Spin => s.writer.Waiting? && |s.writer.msg| < TWO_32
        && IsFull32(c, s.mem.readWord, s.ownWrite, |s.writer.msg|)
    case GiveUp => s.writer.Waiting?
    case Admit => s.writer.Waiting? && |s.writer.msg| < TWO_32
        && !IsFull32(c, s.mem.readWord, s.ownWrite, |s.writer.msg|)
    case Announce => s.writer.Admitted? && |s.pending| > 0
    case StoreHeader => s.writer.Announced? && |s.pending| > 0
    case StorePayload => s.writer.HeaderStored? && |s.pending| > 0
    case Count => s.writer.PayloadStored? && |s.pending| > 0
    case Publish => s.writer.Counted? && |s.pending| > 0
    case Drain(store) => |s.pending| > 0 && store in s.pending[0] && (store.ToByte? ==> store.index < |s.mem.buf|)
    case Retire => |s.pending| > 1 && s.pending[0] == {}
    case Look => s.reader.Looking? && s.mem.readWord != s.mem.writeWord
    case LoadHeader => s.reader.CopyingHeader? && |s.reader.got| < 4 && s.reader.at.1 + |s.reader.got| < |s.mem.buf|
    case Decode => s.reader.CopyingHeader? && |s.reader.got| == 4
    case LoadPayload =>
      s.reader.CopyingPayload? && |s.reader.got| < s.reader.length && s.reader.at.1 + |s.reader.got| < |s.mem.buf|
    case Advance => s.reader.CopyingPayload? && |s.reader.got| == s.reader.length
    case CountRead => s.reader.Advanced?
  }

  function HeaderStores(plan: Placement, length: nat): set<Store> {
    set k | 0 <= k < 4 :: ToByte(plan.lengthPtr + k, Encode32(length)[k])
  }

  function PayloadStores(plan: Placement, msg: seq<byte>): set<Store> {
    set k | 0 <= k < |msg| :: ToByte(plan.payloadPtr + k, msg[k])
  }

  /** The writer issues stores into the epoch that is still open. */
  function Issue(pending: seq<set<Store>>, stores: set<Store>): seq<set<Store>>
    requires |pending| > 0
  {
    pending[|pending| - 1 := pending[|pending| - 1] + stores]
  }

  /** `MF_write_sync` closes the open epoch. */
  function Fence(pending: seq<set<Store>>): seq<set<Store>> {
    pending + [{}]
  }

  function ApplyStore(mem: Memory, store: Store): Memory
    requires store.ToByte? ==> store.index < |mem.buf|
  {
    match store
    case ToNext(word) => mem.(nextWord := word)
    case ToByte(index, value) => mem.(buf := mem.buf[index := value])
    case ToNumWritten(n) => mem.(numWritten := n)
    case ToWrite(word) => mem.(writeWord := word)
  }

  function Apply(c: Config, s: State, step: Step): State
    requires Enabled(c, s, step)
  {
    match step
    case Begin(msg) => s.(writer := Waiting(msg))
    case Reject(_) => s
    case Spin => s
    case GiveUp => s.(writer := Idle)
    case Admit =>
      s.(writer := Admitted(s.writer.msg, Place(c, s.ownWrite, |s.writer.msg|)), log := s.log + [s.writer.msg])
    case Announce =>
      s.(writer := Announced(s.writer.msg, s.writer.plan),
         ownNext := s.writer.plan.end,
         pending := Fence(Issue(s.pending, {ToNext(s.writer.plan.end)})))
    case StoreHeader =>
      s.(writer := HeaderStored(s.writer.msg, s.writer.plan),
         pending := Issue(s.pending, HeaderStores(s.writer.plan, |s.writer.msg|)))
    case StorePayload =>
      s.(writer := PayloadStored, pending := Issue(s.pending, PayloadStores(s.writer.plan, s.writer.msg)))
    case Count =>
      s.(writer := Counted,
         ownCount := Increment64(s.ownCount),
         pending := Fence(Issue(s.pending, {ToNumWritten(Increment64(s.ownCount))})))
    case Publish =>
      s.(writer := Idle, ownWrite := s.ownNext, pending := Issue(s.pending, {ToWrite(s.ownNext)}))
    case Drain(store) =>
      s.(mem := ApplyStore(s.mem, store),
         pending := s.pending[0 := s.pending[0] - {store}],
         announced := s.announced + (if store.ToNext? then 1 else 0),
         counted := s.counted + (if store.ToNumWritten? then 1 else 0),
         published := s.published + (if store.ToWrite? then 1 else 0))
    case Retire => s.(pending := s.pending[1..], retired := s.retired + 1)
    case Look => s.(reader := CopyingHeader(HeaderPlace(c, s.mem.readWord), []))
    case LoadHeader =>
      s.(reader := CopyingHeader(s.reader.at, s.reader.got + [s.mem.buf[s.reader.at.1 + |s.reader.got|]]))
    case Decode =>
      var length := Decode32(s.reader.got);
      s.(reader := CopyingPayload(PayloadPlace(c, s.reader.at, length), length, []))
    case LoadPayload =>
      s.(reader := CopyingPayload(s.reader.at, s.reader.length,
                                  s.reader.got + [s.mem.buf[s.reader.at.1 + |s.reader.got|]]))
    case Advance =>
      s.(reader := Advanced,
         mem := s.mem.(readWord := VersionedPointer(s.reader.at.0, Add32(s.reader.at.1, s.reader.length))),
         popped := s.popped + [s.reader.got])
    case CountRead => s.(reader := Looking, mem := s.mem.(numRead := Increment64(s.mem.numRead)))
  }

  /** A pipe that was just cleared; its buffer may hold anything. */
  function Cleared(c: Config, buf: seq<byte>): State
    requires |buf| == c.size
  {
    State(Memory(buf, 0, 0, 0, 0, 0), [{}], Idle, 0, 0, 0, Looking, [], [], 0, 0, 0, 0)
  }

  /** Can these steps be taken one after the other? */
  predicate Allowed(c: Config, s: State, steps: seq<Step>)
    decreases |steps|
  {
    steps == [] || (Enabled(c, s, steps[0]) && Allowed(c, Apply(c, s, steps[0]), steps[1..]))
  }

  /** The state they lead to. */
  function Run(c: Config, s: State, steps: seq<Step>): State
    requires Allowed(c, s, steps)
    decreases |steps|
  {
    if steps == [] then s else Run(c, Apply(c, s, steps[0]), steps[1..])
  }

  lemma {:induction false} RunsCompose(c: Config, s: State, first: seq<Step>, second: seq<Step>)
    requires Allowed(c, s, first) && Allowed(c, Run(c, s, first), second)
    ensures Allowed(c, s, first + second)
    ensures Run(c, s, first + second) == Run(c, Run(c, s, first), second)
    decreases |first|
  {
    if first == [] {
      assert first + second == second;
    } else {
      assert (first + second)[1..] == first[1..] + second;
      RunsCompose(c, Apply(c, s, first[0]), first[1..], second);
    }
  }

  /** Does some run lead from one state to the other? */
  ghost predicate Leads(c: Config, s: State, t: State) {
    exists steps :: Allowed(c, s, steps) && Run(c, s, steps) == t
  }

  lemma LeadsToItself(c: Config, s: State)
    ensures Leads(c, s, s)
  {
    hide Enabled, Apply;
    assert Allowed(c, s, []) && Run(c, s, []) == s;
  }

  lemma LeadsOn(c: Config, s: State, t: State, u: State)
    requires Leads(c, s, t) && Leads(c, t, u)
    ensures Leads(c, s, u)
  {
    hide Allowed, Run;
    var first :| Allowed(c, s, first) && Run(c, s, first) == t;
    var second :| Allowed(c, t, second) && Run(c, t, second) == u;
    RunsCompose(c, s, first, second);
    assert Run(c, s, first + second) == u;
  }

  lemma Then(c: Config, s: State, t: State, step: Step)
    requires Leads(c, s, t) && Enabled(c, t, step)
    ensures Leads(c, s, Apply(c, t, step))
  {
    hide Enabled, Apply;
    var u := Apply(c, t, step);
    assert [step][1..] == [] && Allowed(c, u, []) && Run(c, u, []) == u;
    assert Allowed(c, t, [step]) && Run(c, t, [step]) == u;
    LeadsOn(c, s, t, u);
  }
}
