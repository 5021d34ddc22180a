/** The asynchronous write test: a thread that submits writes in batches, a kernel that completes
    them in any order, and a thread that takes one completion signal at a time. They share two
    counters, a mutex and a condition variable. */
module AioBatch {

  /** The size of a batch (`max_aios`), and the number of writes wanted (`total_ios_needed`). */
  datatype Config = Config(batchSize: nat, needed: nat)

  datatype Owner = Free | SubmitterHolds | HandlerHolds

  /** Why the completion thread left its loop. */
  datatype Exit = ByCount | ByFailure | ByStop

  /** Where the submitting thread stands; `i` is its outer loop counter, and `since` is history: the
      total at which it fell asleep. */
  datatype Submitter =
    | AtOuter(i: nat)
    | Submitting(i: nat, j: nat)
    | Locking(i: nat)
    | Testing(i: nat)
    | Sleeping(i: nat, since: int)
    | Waking(i: nat)
    | Leaving(i: nat)
    | Joining
    | Finished

  /** Where the completion thread stands. */
  datatype Handler =
    | AwaitingSignal
    | Took
    | BatchCounted
    | Locked
    | TotalCounted
    | CheckingBatch
    | CheckingTotal
    | LastLock(how: Exit)
    | LastSignal(how: Exit)
    | LastUnlock(how: Exit)
    | Done(how: Exit)

  datatype State = State(
    submitter: Submitter, handler: Handler, owner: Owner,
    inBatch: int, total: int,
    // the kernel: writes it is working on, and completion signals not yet taken
    inKernel: nat, signals: nat,
    // history: calls of aio_write, those that were accepted, and signals taken
    attempts: nat, accepted: nat, taken: nat)

  datatype Step =
    // the submitting thread
    | EnterBatch | SubmitAccepted | SubmitRejected | EndBatch
    | Lock | Test | Wake | Relock | Leave | StopSubmitting | Join
    // the kernel
    | Complete
    // the completion thread
    | TakeSignal | CountInBatch | LockTotal | CountTotal | UnlockTotal | CheckBatch | CheckTotal
    | StopSignal | WaitFails | LockLast | SignalLast | UnlockLast

  predicate Enabled(c: Config, s: State, step: Step) {
    match step
    case EnterBatch => s.submitter.AtOuter? && s.submitter.i < c.needed
    case SubmitAccepted => s.submitter.Submitting? && s.submitter.j < c.batchSize
    case SubmitRejected => s.submitter.Submitting? && s.submitter.j < c.batchSize
    case EndBatch => s.submitter.Submitting? && s.submitter.j >= c.batchSize
    case Lock => s.submitter.Locking? && s.owner.Free?
    case Test => s.submitter.Testing? && c.batchSize > 0
    case Wake => s.submitter.Sleeping?
    case Relock => s.submitter.Waking? && s.owner.Free?
    case Leave => s.submitter.Leaving?
    case StopSubmitting => s.submitter.AtOuter? && s.submitter.i >= c.needed
    case Join => s.submitter.Joining? && s.handler.Done?
    case Complete => s.inKernel > 0
    case TakeSignal => s.handler.AwaitingSignal? && s.signals > 0
    case CountInBatch => s.handler.Took?
    case LockTotal => s.handler.BatchCounted? && s.owner.Free?
    case CountTotal => s.handler.Locked?
    case UnlockTotal => s.handler.TotalCounted?
    case CheckBatch => s.handler.CheckingBatch?
    case CheckTotal => s.handler.CheckingTotal?
    case StopSignal => s.handler.AwaitingSignal?
    case WaitFails => s.handler.AwaitingSignal?
    case LockLast => s.handler.LastLock? && s.owner.Free?
    case SignalLast => s.handler.LastSignal?
    case UnlockLast => s.handler.LastUnlock?
  }

  /** Signalling the condition wakes the submitter if it sleeps on it. */
  function Signalled(submitter: Submitter): Submitter {
    if submitter.Sleeping? then Waking(submitter.i) else submitter
  }

  function Apply(c: Config, s: State, step: Step): State
    requires Enabled(c, s, step)
  {
    match step
    case EnterBatch => s.(submitter := Submitting(s.submitter.i, 0))
    case SubmitAccepted =>
      s.(submitter := Submitting(s.submitter.i, s.submitter.j + 1), attempts := s.attempts + 1,
         accepted := s.accepted + 1, inKernel := s.inKernel + 1)
    case SubmitRejected => s.(submitter := Submitting(s.submitter.i, s.submitter.j + 1), attempts := s.attempts + 1)
    case EndBatch => s.(submitter := Locking(s.submitter.i))
    case Lock => s.(submitter := Testing(s.submitter.i), owner := SubmitterHolds)
    case Test =>
      if s.total % c.batchSize == 0 then
        s.(submitter := Sleeping(s.submitter.i, s.total), owner := Free)
      else
        s.(submitter := Leaving(s.submitter.i))
    case Wake => s.(submitter := Waking(s.submitter.i))
    case Relock => s.(submitter := Testing(s.submitter.i), owner := SubmitterHolds)
    case Leave => s.(submitter := AtOuter(s.submitter.i + c.batchSize), owner := Free)
    case StopSubmitting => s.(submitter := Joining)
    case Join => s.(submitter := Finished)
    case Complete => s.(inKernel := s.inKernel - 1, signals := s.signals + 1)
    case TakeSignal => s.(handler := Took, signals := s.signals - 1, taken := s.taken + 1)
    case CountInBatch => s.(handler := BatchCounted, inBatch := s.inBatch + 1)
    case LockTotal => s.(handler := Locked, owner := HandlerHolds)
    case CountTotal => s.(handler := TotalCounted, total := s.total + 1)
    case UnlockTotal => s.(handler := CheckingBatch, owner := Free)
    case CheckBatch =>
      if s.inBatch >= c.batchSize then
        s.(handler := CheckingTotal, inBatch := 0, submitter := Signalled(s.submitter))
      else
        s.(handler := CheckingTotal)
    case CheckTotal => s.(handler := if s.total >= c.needed then LastLock(ByCount) else AwaitingSignal)
    case StopSignal => s.(handler := Done(ByStop))
    case WaitFails => s.(handler := LastLock(ByFailure))
    case LockLast => s.(handler := LastSignal(s.handler.how), owner := HandlerHolds)
    case SignalLast => s.(handler := LastUnlock(s.handler.how), submitter := Signalled(s.submitter))
    case UnlockLast => s.(handler := Done(s.handler.how), owner := Free)
  }

  function Initial(): State {
    State(AtOuter(0), AwaitingSignal, Free, 0, 0, 0, 0, 0, 0, 0)
  }

  predicate Allowed(c: Config, s: State, steps: seq<Step>)
    decreases |steps|
  {
    steps == [] || (Enabled(c, s, steps[0]) && Allowed(c, Apply(c, s, steps[0]), steps[1..]))
  }

  function Run(c: Config, s: State, steps: seq<Step>): State
    requires Allowed(c, s, steps)
    decreases |steps|
  {
    if steps == [] then s else Run(c, Apply(c, s, steps[0]), steps[1..])
  }

  // ---------------------------------------------------------------------------------------
  // The invariant

  /** The mutex is held by the thread that stands between a lock and an unlock, and by no other. */
  predicate InvMutex(s: State) {
    && (s.owner.SubmitterHolds? <==> s.submitter.Testing? || s.submitter.Leaving?)
    && (s.owner.HandlerHolds? <==>
          s.handler.Locked? || s.handler.TotalCounted? || s.handler.LastSignal? || s.handler.LastUnlock?)
  }

  /** Every accepted write is in the kernel, signalled, or taken; each is counted once. */
  predicate InvFlow(s: State) {
    && s.accepted == s.inKernel + s.signals + s.taken
    && s.accepted <= s.attempts
    && s.total == (if s.handler.Took? || s.handler.BatchCounted? || s.handler.Locked? then s.taken - 1 else s.taken)
    && s.total >= 0
  }

  /** The counter of the batch is the total modulo the batch size, but for the steps in between. */
  predicate InvBatch(c: Config, s: State) {
    c.batchSize > 0 &&
    match s.handler
    case BatchCounted => s.inBatch == s.total % c.batchSize + 1
    case Locked => s.inBatch == s.total % c.batchSize + 1
    case TotalCounted => s.total > 0 && s.inBatch == (s.total - 1) % c.batchSize + 1
    case CheckingBatch => s.total > 0 && s.inBatch == (s.total - 1) % c.batchSize + 1
    case _ => s.inBatch == s.total % c.batchSize
  }

  /** The completion thread has not passed its target, and leaves its loop by count exactly there. */
  predicate InvTarget(c: Config, s: State) {
    match s.handler
    case AwaitingSignal => s.total < c.needed || s.total == 0
    case Took => s.total < c.needed
    case BatchCounted => s.total < c.needed
    case Locked => s.total < c.needed
    case TotalCounted => s.total <= c.needed
    case CheckingBatch => s.total <= c.needed
    case CheckingTotal => s.total <= c.needed
    case LastLock(how) => if how.ByCount? then s.total == c.needed else s.total < c.needed || s.total == 0
    case LastSignal(how) => if how.ByCount? then s.total == c.needed else s.total < c.needed || s.total == 0
    case LastUnlock(how) => if how.ByCount? then s.total == c.needed else s.total < c.needed || s.total == 0
    case Done(how) => if how.ByCount? then s.total == c.needed else s.total < c.needed || s.total == 0
  }

  /** Writes are attempted in whole batches, while fewer than the target were attempted before. */
  predicate InvSubmitter(c: Config, s: State) {
    c.batchSize > 0 &&
    match s.submitter
    case AtOuter(i) => s.attempts == i && i % c.batchSize == 0 && i < c.needed + c.batchSize
    case Submitting(i, j) => s.attempts == i + j && j <= c.batchSize && i % c.batchSize == 0 && i < c.needed
    case Joining => s.attempts % c.batchSize == 0 && c.needed <= s.attempts < c.needed + c.batchSize
    case Finished => s.attempts % c.batchSize == 0 && c.needed <= s.attempts < c.needed + c.batchSize
    case Leaving(i) =>
      s.attempts == i + c.batchSize && i % c.batchSize == 0 && i < c.needed && s.total % c.batchSize != 0
    case _ =>
      s.attempts == s.submitter.i + c.batchSize && s.submitter.i % c.batchSize == 0 && s.submitter.i < c.needed
  }

  /** No batch ends over a sleeping submitter: it went to sleep at a boundary, and the total has not
      reached the next one, except while the completion thread is on its way to the signal. No
      last signal passes it by either. */
  predicate InvSleep(c: Config, s: State) {
    c.batchSize > 0 &&
    (s.submitter.Sleeping? ==>
       var since := s.submitter.since;
       && 0 <= since <= s.total <= since + c.batchSize && since % c.batchSize == 0
       && (s.total == since + c.batchSize ==> s.handler.TotalCounted? || s.handler.CheckingBatch?)
       && (s.handler.LastUnlock? || (s.handler.Done? && !s.handler.how.ByStop?) ==> s.total == since))
  }

  /** The submitter joins a completion thread that has returned. */
  predicate InvJoin(s: State) {
    s.submitter.Finished? ==> s.handler.Done?
  }

  predicate Inv(c: Config, s: State) {
    && InvMutex(s) && InvFlow(s) && InvBatch(c, s) && InvTarget(c, s) && InvSubmitter(c, s) && InvSleep(c, s)
    && InvJoin(s)
  }

  lemma InitialIsGood(c: Config)
    requires c.batchSize > 0
    ensures Inv(c, Initial())
  {
  }

  lemma NextRemainder(t: int, n: nat)
    requires n > 0 && t >= 0
    ensures (t + 1) % n == (if t % n + 1 == n then 0 else t % n + 1)
    ensures (t + n) % n == t % n
  {
    var q := t / n;
    assert t == n * q + t % n;
    if t % n + 1 == n {
      assert t + 1 == n * (q + 1);
      MultipleRemainder(q + 1, 0, n);
    } else {
      MultipleRemainder(q, t % n + 1, n);
    }
    assert t + n == n * (q + 1) + t % n;
    MultipleRemainder(q + 1, t % n, n);
  }

  lemma MultipleRemainder(q: int, r: int, n: int)
    requires 0 <= r < n
    ensures (n * q + r) % n == r
  {
    var d := q - (n * q + r) / n;
    assert n * d + r == (n * q + r) % n;
    if d >= 1 {
      MultipleIsLarge(n, d);
      assert false;
    } else if d <= -1 {
      MultipleIsLarge(n, -d);
      assert false;
    }
  }

  lemma MultipleIsLarge(n: int, d: int)
    requires n > 0 && d >= 1
    ensures n * d >= n
  {
  }

  lemma KeepsMutex(c: Config, s: State, step: Step)
    requires InvMutex(s) && Enabled(c, s, step)
    ensures InvMutex(Apply(c, s, step))
  {
  }

  lemma KeepsFlow(c: Config, s: State, step: Step)
    requires InvFlow(s) && Enabled(c, s, step)
    ensures InvFlow(Apply(c, s, step))
  {
  }

  lemma KeepsBatch(c: Config, s: State, step: Step)
    requires InvFlow(s) && InvBatch(c, s) && Enabled(c, s, step)
    ensures InvBatch(c, Apply(c, s, step))
  {
    if step.CheckBatch? {
      NextRemainder(s.total - 1, c.batchSize);
    }
  }

  /** Nothing is attempted when nothing is wanted. */
  lemma AttemptedMeansNeeded(c: Config, s: State)
    requires InvSubmitter(c, s) && s.attempts > 0
    ensures c.needed > 0
  {
    if c.needed == 0 {
      assert s.attempts % c.batchSize == 0 && s.attempts < c.batchSize;
      MultipleRemainder(0, s.attempts, c.batchSize);
      assert false;
    }
  }

  lemma KeepsTarget(c: Config, s: State, step: Step)
    requires InvFlow(s) && InvSubmitter(c, s) && InvTarget(c, s) && Enabled(c, s, step)
    ensures InvTarget(c, Apply(c, s, step))
  {
    if step.TakeSignal? {
      AttemptedMeansNeeded(c, s);
    }
    hide InvSubmitter;
  }

  /** Two threads never hold the mutex at once, so the total does not change under a test. */
  lemma TotalIsStableUnderTheLock(c: Config, s: State, step: Step)
    requires InvMutex(s) && Enabled(c, s, step) && (s.submitter.Testing? || s.submitter.Leaving?)
    ensures Apply(c, s, step).total == s.total
  {
  }

  lemma KeepsSubmitter(c: Config, s: State, step: Step)
    requires InvMutex(s) && InvSubmitter(c, s) && Enabled(c, s, step)
    ensures InvSubmitter(c, Apply(c, s, step))
  {
    hide InvMutex;
    if s.submitter.Leaving? {
      TotalIsStableUnderTheLock(c, s, step);
    }
    if step.Leave? {
      NextRemainder(s.submitter.i, c.batchSize);
    }
  }

  lemma KeepsSleep(c: Config, s: State, step: Step)
    requires InvMutex(s) && InvFlow(s) && InvBatch(c, s) && InvSleep(c, s) && Enabled(c, s, step)
    ensures InvSleep(c, Apply(c, s, step))
  {
    if s.submitter.Sleeping? && s.handler.CheckingBatch? {
      BatchIsFull(c, s);
    }
    hide InvBatch;
  }

  /** When the total has grown by a batch since a boundary, the batch counter says so. */
  lemma BatchIsFull(c: Config, s: State)
    requires InvBatch(c, s) && s.submitter.Sleeping? && s.handler.CheckingBatch?
    requires s.submitter.since % c.batchSize == 0
    ensures s.total == s.submitter.since + c.batchSize ==> s.inBatch == c.batchSize
  {
    var q := s.submitter.since / c.batchSize;
    assert s.submitter.since == c.batchSize * q;
    MultipleRemainder(q, c.batchSize - 1, c.batchSize);
  }

  lemma KeepsJoin(c: Config, s: State, step: Step)
    requires InvJoin(s) && Enabled(c, s, step)
    ensures InvJoin(Apply(c, s, step))
  {
  }

  /** Every step of either thread or of the kernel keeps the invariant. */
  lemma StepKeepsInv(c: Config, s: State, step: Step)
    requires Inv(c, s) && Enabled(c, s, step)
    ensures Inv(c, Apply(c, s, step))
  {
    hide Enabled, Apply, InvMutex, InvFlow, InvBatch, InvTarget, InvSubmitter, InvSleep, InvJoin;
    KeepsMutex(c, s, step);
    KeepsFlow(c, s, step);
    KeepsBatch(c, s, step);
    KeepsTarget(c, s, step);
    KeepsSubmitter(c, s, step);
    KeepsSleep(c, s, step);
    KeepsJoin(c, s, step);
  }

  lemma {:induction false} RunKeepsInv(c: Config, s: State, steps: seq<Step>)
    requires Inv(c, s) && Allowed(c, s, steps)
    ensures Inv(c, Run(c, s, steps))
    decreases |steps|
  {
    hide Inv, Enabled, Apply;
    if steps != [] {
      StepKeepsInv(c, s, steps[0]);
      RunKeepsInv(c, Apply(c, s, steps[0]), steps[1..]);
    }
  }

  // ---------------------------------------------------------------------------------------
  // Completion accounting

  /** Over every interleaving of the two threads and the kernel: at the head of the completion
      loop the batch counter is the total modulo the batch size; completions never exceed
      submissions; a thread that stops by count stops exactly at a positive target; and a
      submitter that is done attempted whole batches, by less than one batch too many. */
  lemma CompletionAccounting(c: Config, steps: seq<Step>)
    requires c.batchSize > 0 && Allowed(c, Initial(), steps)
    ensures var s := Run(c, Initial(), steps);
            && (s.handler.AwaitingSignal? ==> s.inBatch == s.total % c.batchSize)
            && 0 <= s.total <= s.taken <= s.accepted <= s.attempts
            && s.accepted == s.inKernel + s.signals + s.taken
            && (s.handler.Done? ==> if s.handler.how.ByCount? then s.total == c.needed
                                  else s.total < c.needed || s.total == 0)
            && (s.submitter.Joining? || s.submitter.Finished? ==>
                  c.needed <= s.attempts < c.needed + c.batchSize && s.attempts % c.batchSize == 0)
            && (s.submitter.Finished? ==> s.handler.Done?)
  {
    hide *;
    InitialIsGood(c);
    RunKeepsInv(c, Initial(), steps);
    Accounting(c, Run(c, Initial(), steps));
  }

  lemma Accounting(c: Config, s: State)
    requires Inv(c, s)
    ensures c.batchSize > 0
    ensures s.handler.AwaitingSignal? ==> s.inBatch == s.total % c.batchSize
    ensures 0 <= s.total <= s.taken <= s.accepted <= s.attempts
    ensures s.accepted == s.inKernel + s.signals + s.taken
    ensures s.handler.Done? ==> if s.handler.how.ByCount? then s.total == c.needed
                                else s.total < c.needed || s.total == 0
    ensures s.submitter.Joining? || s.submitter.Finished? ==>
              c.needed <= s.attempts < c.needed + c.batchSize && s.attempts % c.batchSize == 0
    ensures s.submitter.Finished? ==> s.handler.Done?
  {
    hide InvMutex, InvSleep;
  }

  /** Are the counters of `t` those of `s` after these events? */
  predicate Counts(s: State, t: State, events: multiset<Step>) {
    && t.accepted == s.accepted + events[SubmitAccepted]
    && t.attempts == s.attempts + events[SubmitAccepted] + events[SubmitRejected]
    && t.inKernel == s.inKernel + events[SubmitAccepted] - events[Complete]
    && t.signals == s.signals + events[Complete] - events[TakeSignal]
    && t.taken == s.taken + events[TakeSignal]
    && t.total == s.total + events[CountTotal]
  }

  lemma StepIsCounted(c: Config, s: State, step: Step)
    requires Enabled(c, s, step)
    ensures Counts(s, Apply(c, s, step), multiset{step})
  {
  }

  /** The counters, read off the steps of a run: every write is attempted, accepted, completed, taken
      and counted once. */
  lemma {:induction false} CountersAreEvents(c: Config, s: State, steps: seq<Step>)
    requires Allowed(c, s, steps)
    ensures Counts(s, Run(c, s, steps), multiset(steps))
    decreases |steps|
  {
    hide Enabled, Apply;
    if steps != [] {
      assert steps == [steps[0]] + steps[1..];
      StepIsCounted(c, s, steps[0]);
      CountersAreEvents(c, Apply(c, s, steps[0]), steps[1..]);
    }
  }

  // ---------------------------------------------------------------------------------------
  // The signal at the end of a batch

  /** In every run: a submitter that sleeps went to sleep at the last boundary that the total has
      passed, except while the completion thread is between counting the last write of a batch and
      the signal; and the end of that batch wakes it. */
  lemma EndOfBatchWakes(c: Config, steps: seq<Step>)
    requires c.batchSize > 0 && Allowed(c, Initial(), steps)
    requires Run(c, Initial(), steps).submitter.Sleeping?
    ensures var s := Run(c, Initial(), steps);
            && s.submitter.since % c.batchSize == 0 && s.submitter.since <= s.total <= s.submitter.since + c.batchSize
            && (!s.handler.TotalCounted? && !s.handler.CheckingBatch? ==> s.total < s.submitter.since + c.batchSize)
            && (s.handler.CheckingBatch? && s.total == s.submitter.since + c.batchSize ==>
                  Apply(c, s, CheckBatch).submitter == Waking(s.submitter.i))
  {
    hide *;
    InitialIsGood(c);
    RunKeepsInv(c, Initial(), steps);
    SleeperIsWoken(c, Run(c, Initial(), steps));
  }

  lemma SleeperIsWoken(c: Config, s: State)
    requires Inv(c, s) && s.submitter.Sleeping?
    ensures c.batchSize > 0
    ensures s.submitter.since % c.batchSize == 0 && s.submitter.since <= s.total <= s.submitter.since + c.batchSize
    ensures !s.handler.TotalCounted? && !s.handler.CheckingBatch? ==> s.total < s.submitter.since + c.batchSize
    ensures s.handler.CheckingBatch? ==> Enabled(c, s, CheckBatch)
    ensures s.handler.CheckingBatch? && s.total == s.submitter.since + c.batchSize ==>
              Apply(c, s, CheckBatch).submitter == Waking(s.submitter.i)
  {
    hide InvMutex, InvFlow, InvTarget, InvSubmitter;
    if s.handler.CheckingBatch? {
      BatchIsFull(c, s);
    }
  }

  /** The test after the wait loop never succeeds: its message is never printed. */
  lemma BatchMessageIsNeverPrinted(c: Config, steps: seq<Step>)
    requires c.batchSize > 0 && Allowed(c, Initial(), steps)
    ensures var s := Run(c, Initial(), steps); s.submitter.Leaving? ==> s.total % c.batchSize != 0
  {
    hide *;
    InitialIsGood(c);
    RunKeepsInv(c, Initial(), steps);
    LeavesOffBoundary(c, Run(c, Initial(), steps));
  }

  lemma LeavesOffBoundary(c: Config, s: State)
    requires Inv(c, s)
    ensures c.batchSize > 0 && (s.submitter.Leaving? ==> s.total % c.batchSize != 0)
  {
    hide InvMutex, InvSleep, InvFlow, InvBatch, InvTarget;
  }

  // ---------------------------------------------------------------------------------------
  // Reaching one state from another

  lemma {:induction false} RunsCompose(c: Config, s: State, first: seq<Step>, second: seq<Step>)
    requires Allowed(c, s, first) && Allowed(c, Run(c, s, first), second)
    ensures Allowed(c, s, first + second)
    ensures Run(c, s, first + second) == Run(c, Run(c, s, first), second)
    decreases |first|
  {
    hide Enabled, Apply;
    if first == [] {
      assert first + second == second;
    } else {
      assert (first + second)[1..] == first[1..] + second;
      RunsCompose(c, Apply(c, s, first[0]), first[1..], second);
    }
  }

  /** Which runs: all of them; those in which no write is rejected, no stop signal comes and no wait
      for a signal fails; and of these the ones without a spurious wake-up. */
  datatype Runs = Any | Faultless | Quiet

  predicate Takes(runs: Runs, step: Step) {
    && (!runs.Any? ==> !step.SubmitRejected? && !step.StopSignal? && !step.WaitFails?)
    && (runs.Quiet? ==> !step.Wake?)
  }

  /** Does some such run lead from one state to the other? */
  ghost predicate Leads(c: Config, runs: Runs, s: State, t: State) {
    exists steps :: Allowed(c, s, steps) && (forall step | step in steps :: Takes(runs, step)) && Run(c, s, steps) == t
  }

  lemma LeadsToItself(c: Config, runs: Runs, s: State)
    ensures Leads(c, runs, s, s)
  {
    hide Enabled, Apply, Takes;
    assert Allowed(c, s, []) && Run(c, s, []) == s;
  }

  lemma LeadsOn(c: Config, runs: Runs, s: State, t: State, u: State)
    requires Leads(c, runs, s, t) && Leads(c, runs, t, u)
    ensures Leads(c, runs, s, u)
  {
    hide Allowed, Run, Takes;
    var first :| Allowed(c, s, first) && (forall step | step in first :: Takes(runs, step))
                 && Run(c, s, first) == t;
    var second :| Allowed(c, t, second) && (forall step | step in second :: Takes(runs, step))
                  && Run(c, t, second) == u;
    RunsCompose(c, s, first, second);
    assert Run(c, s, first + second) == u;
  }

  lemma Then(c: Config, runs: Runs, s: State, t: State, step: Step)
    requires Leads(c, runs, s, t) && Enabled(c, t, step) && Takes(runs, step)
    ensures Leads(c, runs, s, Apply(c, t, step))
  {
    hide Enabled, Apply, Takes;
    var u := Apply(c, t, step);
    assert [step][1..] == [] && Allowed(c, u, []) && Run(c, u, []) == u;
    assert Allowed(c, t, [step]) && Run(c, t, [step]) == u;
    LeadsOn(c, runs, s, t, u);
  }

  lemma QuietIsFaultless(c: Config, s: State, t: State)
    requires Leads(c, Quiet, s, t)
    ensures Leads(c, Faultless, s, t)
  {
    hide Allowed, Run;
  }

  lemma EveryRunIsARun(c: Config, runs: Runs, s: State, t: State)
    requires Leads(c, runs, s, t)
    ensures Leads(c, Any, s, t)
  {
    hide Allowed, Run;
  }
}
