/** Whether the submitter of the asynchronous write test gets out of its wait: from which states,
    under which schedules, and in which configurations. */
module AioProgress {
  import opened AioBatch

  // ---------------------------------------------------------------------------------------
  // The wait ends only in mid-batch

  predicate InWait(submitter: Submitter) {
    submitter.Locking? || submitter.Testing? || submitter.Sleeping? || submitter.Waking?
  }

  /** Is there nothing left for the completion thread to count? It is past its loop, or it has
      counted everything that was submitted. */
  predicate NothingMoreCounts(s: State) {
    || s.handler.LastLock? || s.handler.LastSignal? || s.handler.LastUnlock? || s.handler.Done?
    || (s.inKernel == 0 && s.signals == 0
        && !s.handler.Took? && !s.handler.BatchCounted? && !s.handler.Locked?)
  }

  /** Once nothing more counts at a batch boundary, a submitter that has yet to test waits for ever,
      whatever else happens. */
  lemma {:induction false} WaitsForEverAfterBoundary(c: Config, s: State, steps: seq<Step>)
    requires c.batchSize > 0 && Allowed(c, s, steps)
    requires NothingMoreCounts(s) && s.total % c.batchSize == 0 && InWait(s.submitter)
    ensures InWait(Run(c, s, steps).submitter)
    decreases |steps|
  {
    if steps != [] {
      WaitsForEverAfterBoundary(c, Apply(c, s, steps[0]), steps[1..]);
    }
  }

  /** Does nothing whatever free the submitter from its wait? */
  ghost predicate NeverFreed(c: Config, s: State) {
    InWait(s.submitter) && forall t | Leads(c, Any, s, t) :: InWait(t.submitter)
  }

  lemma NeverFreedAtBoundary(c: Config, s: State)
    requires c.batchSize > 0 && NothingMoreCounts(s) && s.total % c.batchSize == 0 && InWait(s.submitter)
    ensures NeverFreed(c, s)
  {
    hide Run, Allowed, NothingMoreCounts;
    forall t | Leads(c, Any, s, t)
      ensures InWait(t.submitter)
    {
      var steps :| Allowed(c, s, steps) && Run(c, s, steps) == t;
      WaitsForEverAfterBoundary(c, s, steps);
    }
  }

  /** The submitter is in its wait in every state that these steps pass through. */
  predicate StaysInWait(c: Config, s: State, steps: seq<Step>)
    requires Allowed(c, s, steps)
    decreases |steps|
  {
    InWait(s.submitter) && (steps == [] || StaysInWait(c, Apply(c, s, steps[0]), steps[1..]))
  }

  /** How many steps the submitter is away from leaving. */
  function StepsToLeave(submitter: Submitter): nat {
    if submitter.Testing? then 1 else if submitter.Sleeping? then 3 else 2
  }

  predicate IsOwnStep(step: Step) {
    step.Wake? || step.Lock? || step.Relock? || step.Test?
  }

  /** Once the completion thread is done away from a boundary, no schedule keeps the submitter in its
      wait: it always has a step to take, and besides its own few steps only the kernel's completions
      can come first. It depends on a spurious wake-up only if a stop signal ended the completion
      thread, which then gives no last signal. */
  lemma {:induction false} LeavesAfterMidBatch(c: Config, s: State, steps: seq<Step>)
    requires Inv(c, s) && s.handler.Done? && s.total % c.batchSize != 0
    requires Allowed(c, s, steps) && StaysInWait(c, s, steps)
    ensures |steps| < s.inKernel + StepsToLeave(s.submitter)
    ensures exists step :: IsOwnStep(step) && Enabled(c, Run(c, s, steps), step)
                           && (step.Wake? ==> s.handler.how.ByStop?)
    decreases |steps|
  {
    hide Inv;
    OwnStepIsEnabled(c, s);
    if steps != [] {
      StepKeepsInv(c, s, steps[0]);
      LeavesAfterMidBatch(c, Apply(c, s, steps[0]), steps[1..]);
    }
  }

  lemma OwnStepIsEnabled(c: Config, s: State)
    requires Inv(c, s) && s.handler.Done? && s.total % c.batchSize != 0 && InWait(s.submitter)
    ensures s.submitter.Sleeping? ==> s.handler.how.ByStop?
    ensures s.owner == (if s.submitter.Testing? then SubmitterHolds else Free)
    ensures exists step :: IsOwnStep(step) && Enabled(c, s, step) && (step.Wake? ==> s.handler.how.ByStop?)
  {
    hide InvFlow, InvBatch, InvTarget, InvSubmitter;
    assert IsOwnStep(Wake) && IsOwnStep(Lock) && IsOwnStep(Relock) && IsOwnStep(Test);
  }

  lemma CanLeave(c: Config, s: State) returns (t: State)
    requires Inv(c, s) && s.handler.Done? && s.total % c.batchSize != 0 && InWait(s.submitter)
    ensures Leads(c, Any, s, t) && t.submitter.Leaving?
  {
    hide Leads, Inv;
    Accounting(c, s);
    OwnStepIsEnabled(c, s);
    LeadsToItself(c, Any, s);
    t := s;
    if s.submitter.Sleeping? {
      Then(c, Any, s, t, Wake);
      t := Apply(c, t, Wake);
    }
    if !s.submitter.Testing? {
      var lock := if s.submitter.Locking? then Lock else Relock;
      Then(c, Any, s, t, lock);
      t := Apply(c, t, lock);
    }
    Then(c, Any, s, t, Test);
    t := Apply(c, t, Test);
  }

  // ---------------------------------------------------------------------------------------
  // Batches of one

  /** The submitter is still in its first batch. */
  predicate InFirstBatch(submitter: Submitter) {
    (InWait(submitter) || submitter.AtOuter? || submitter.Submitting?) && submitter.i == 0
  }

  lemma {:induction false} BatchOfOneNeverEnds(c: Config, s: State, steps: seq<Step>)
    requires c.batchSize == 1 && c.needed > 0 && Allowed(c, s, steps) && InFirstBatch(s.submitter)
    ensures InFirstBatch(Run(c, s, steps).submitter)
    decreases |steps|
  {
    if steps != [] {
      BatchOfOneNeverEnds(c, Apply(c, s, steps[0]), steps[1..]);
    }
  }

  /** Can the submitter ever get past the wait for its first batch? */
  ghost predicate CanEndBatch(c: Config) {
    exists t :: Leads(c, Any, Initial(), t) && t.submitter.Leaving?
  }

  /** The state after the submitter sent `k` more writes, all accepted. */
  function Sent(s: State, submitter: Submitter, k: nat): State {
    s.(submitter := submitter, inKernel := s.inKernel + k, attempts := s.attempts + k, accepted := s.accepted + k)
  }

  lemma {:induction false} SubmitsSome(c: Config, s: State, k: nat)
    requires s.submitter.AtOuter? && s.submitter.i < c.needed && k <= c.batchSize
    ensures Leads(c, Quiet, s, Sent(s, Submitting(s.submitter.i, k), k))
  {
    hide Leads;
    if k == 0 {
      LeadsToItself(c, Quiet, s);
      Then(c, Quiet, s, s, EnterBatch);
    } else {
      SubmitsSome(c, s, k - 1);
      Then(c, Quiet, s, Sent(s, Submitting(s.submitter.i, k - 1), k - 1), SubmitAccepted);
    }
  }

  lemma SubmitsBatch(c: Config, s: State)
    requires s.submitter.AtOuter? && s.submitter.i < c.needed
    ensures Leads(c, Quiet, s, Sent(s, Locking(s.submitter.i), c.batchSize))
  {
    hide Leads;
    SubmitsSome(c, s, c.batchSize);
    Then(c, Quiet, s, Sent(s, Submitting(s.submitter.i, c.batchSize), c.batchSize), EndBatch);
  }

  /** The submitter stands before its wait or sleeps, and the completion thread is at the head of its
      loop. */
  predicate BothAtHead(c: Config, s: State) {
    && c.batchSize > 0 && (s.submitter.Locking? || s.submitter.Sleeping?) && s.handler.AwaitingSignal? && s.owner.Free?
    && s.signals == 0 && 0 <= s.total < c.needed && s.inBatch == s.total % c.batchSize
  }

  /** The state after one completion was taken and counted. */
  function Counted(c: Config, s: State): State
    requires c.batchSize > 0 && s.inKernel > 0
  {
    s.(handler := if s.total + 1 >= c.needed then LastLock(ByCount) else AwaitingSignal,
       inBatch := (s.total + 1) % c.batchSize, total := s.total + 1, inKernel := s.inKernel - 1, taken := s.taken + 1)
  }

  lemma CountsInBatch(c: Config, s: State) returns (t: State)
    requires s.handler.AwaitingSignal? && s.signals == 0 && s.inKernel > 0
    ensures Leads(c, Quiet, s, t)
    ensures t == s.(handler := BatchCounted, inBatch := s.inBatch + 1, inKernel := s.inKernel - 1, taken := s.taken + 1)
  {
    hide Leads;
    var s1 := s.(inKernel := s.inKernel - 1, signals := 1);
    LeadsToItself(c, Quiet, s);
    Then(c, Quiet, s, s, Complete);
    var s2 := s1.(handler := Took, signals := 0, taken := s.taken + 1);
    Then(c, Quiet, s, s1, TakeSignal);
    t := s2.(handler := BatchCounted, inBatch := s.inBatch + 1);
    Then(c, Quiet, s, s2, CountInBatch);
  }

  /** One more write is counted, up to where the completion thread looks at its batch. */
  lemma CountsButForSignal(c: Config, s: State) returns (t: State)
    requires s.handler.AwaitingSignal? && s.owner.Free? && s.signals == 0 && s.inKernel > 0
    ensures Leads(c, Quiet, s, t)
    ensures t == s.(handler := CheckingBatch, inBatch := s.inBatch + 1, total := s.total + 1,
                    inKernel := s.inKernel - 1, taken := s.taken + 1)
  {
    hide Leads;
    var s1 := CountsInBatch(c, s);
    Then(c, Quiet, s, s1, LockTotal);
    var s2 := s1.(handler := Locked, owner := HandlerHolds);
    Then(c, Quiet, s, s2, CountTotal);
    var s3 := s2.(handler := TotalCounted, total := s.total + 1);
    Then(c, Quiet, s, s3, UnlockTotal);
    t := s3.(handler := CheckingBatch, owner := Free);
  }

  lemma CountsOne(c: Config, s: State)
    requires BothAtHead(c, s) && s.inKernel > 0
    requires s.submitter.Sleeping? ==> (s.total + 1) % c.batchSize != 0
    ensures Leads(c, Quiet, s, Counted(c, s))
  {
    hide Leads;
    NextRemainder(s.total, c.batchSize);
    var s1 := CountsButForSignal(c, s);
    Then(c, Quiet, s, s1, CheckBatch);
    var s2 := s1.(handler := CheckingTotal, inBatch := (s.total + 1) % c.batchSize);
    Then(c, Quiet, s, s2, CheckTotal);
  }

  /** One completion carries the total off the boundary, and the wait ends. */
  lemma OneCompletionEndsWait(c: Config) returns (t: State)
    requires c.needed > 0 && c.batchSize > 1
    ensures Leads(c, Quiet, Initial(), t) && t.submitter.Leaving?
  {
    hide Leads;
    var s := Sent(Initial(), Locking(0), c.batchSize);
    SubmitsBatch(c, Initial());
    CountsOne(c, s);
    var s1 := Counted(c, s);
    LeadsOn(c, Quiet, Initial(), s, s1);
    Then(c, Quiet, Initial(), s1, Lock);
    var s2 := Apply(c, s1, Lock);
    Then(c, Quiet, Initial(), s2, Test);
    t := Apply(c, s2, Test);
  }

  /** The submitter can get past its wait if and only if a batch has more than one write: the
      wait ends only when the total is not a multiple of the batch size. */
  lemma CanEndBatchIff(c: Config)
    requires c.needed > 0 && c.batchSize > 0
    ensures CanEndBatch(c) <==> c.batchSize > 1
  {
    if c.batchSize > 1 {
      var t := OneCompletionEndsWait(c);
      EveryRunIsARun(c, Quiet, Initial(), t);
    } else {
      forall steps | Allowed(c, Initial(), steps)
        ensures !Run(c, Initial(), steps).submitter.Leaving?
      {
        BatchOfOneNeverEnds(c, Initial(), steps);
      }
    }
  }

  // ---------------------------------------------------------------------------------------
  // A hang with all the writes completed

  /** Can all the writes wanted be completed and counted, the completion thread return, and the
      submitter be left in its wait for ever? */
  ghost predicate CanHangWithAllCounted(c: Config) {
    exists s :: Leads(c, Any, Initial(), s) && s.handler == Done(ByCount) && NeverFreed(c, s)
  }

  /** With the total off a boundary the submitter gets through further batches. */
  lemma {:induction false} SubmitsMore(c: Config, s: State, more: nat)
    requires BothAtHead(c, s) && s.submitter.Locking? && s.total % c.batchSize != 0
    requires s.submitter.i + more < c.needed && more % c.batchSize == 0
    ensures Leads(c, Quiet, s, Sent(s, Locking(s.submitter.i + more), more))
    decreases more
  {
    hide Leads;
    LeadsToItself(c, Quiet, s);
    if more > 0 {
      WholeBatches(more, c.batchSize);
      var s1 := Apply(c, s, Lock);
      Then(c, Quiet, s, s, Lock);
      var s2 := Apply(c, s1, Test);
      Then(c, Quiet, s, s1, Test);
      var s3 := Apply(c, s2, Leave);
      Then(c, Quiet, s, s2, Leave);
      var s4 := Sent(s3, Locking(s3.submitter.i), c.batchSize);
      SubmitsBatch(c, s3);
      LeadsOn(c, Quiet, s, s3, s4);
      SubmitsMore(c, s4, more - c.batchSize);
      LeadsOn(c, Quiet, s, s4, Sent(s4, Locking(s.submitter.i + more), more - c.batchSize));
    }
  }

  lemma WholeBatches(n: nat, batchSize: nat)
    requires n > 0 && batchSize > 0 && n % batchSize == 0
    ensures n >= batchSize && (n - batchSize) % batchSize == 0
  {
    if n < batchSize {
      MultipleRemainder(0, n, batchSize);
      assert false;
    }
    NextRemainder(n - batchSize, batchSize);
  }

  /** While the submitter stands before its wait, writes in the kernel complete and are counted, as
      many as are there or still wanted. */
  lemma {:induction false} CountsRest(c: Config, s: State) returns (t: State)
    requires BothAtHead(c, s) && s.submitter.Locking? && 0 < s.inKernel <= c.needed - s.total
    ensures Leads(c, Quiet, s, t) && t.submitter == s.submitter && t.owner.Free? && t.signals == 0
    ensures t.inKernel == 0 && t.total == s.total + s.inKernel
    ensures t.handler == (if t.total == c.needed then LastLock(ByCount) else AwaitingSignal)
    decreases s.inKernel
  {
    hide Leads;
    CountsOne(c, s);
    t := Counted(c, s);
    if t.inKernel > 0 {
      var s1 := t;
      t := CountsRest(c, s1);
      LeadsOn(c, Quiet, s, s1, t);
    }
  }

  /** All batches are submitted, the later ones while the total stands at one. */
  lemma SubmitsAll(c: Config) returns (s: State)
    requires c.needed > 0 && c.batchSize > 0 && c.needed % c.batchSize == 0
    requires c.batchSize > 1 || c.needed == 1
    ensures Leads(c, Quiet, Initial(), s) && BothAtHead(c, s) && s.submitter.Locking?
    ensures s.inKernel == c.needed - s.total
  {
    hide Leads;
    s := Sent(Initial(), Locking(0), c.batchSize);
    SubmitsBatch(c, Initial());
    WholeBatches(c.needed, c.batchSize);
    if c.needed > c.batchSize {
      var s1 := Counted(c, s);
      CountsOne(c, s);
      LeadsOn(c, Quiet, Initial(), s, s1);
      s := Sent(s1, Locking(c.needed - c.batchSize), c.needed - c.batchSize);
      SubmitsMore(c, s1, c.needed - c.batchSize);
      LeadsOn(c, Quiet, Initial(), s1, s);
    }
  }

  /** The completion thread returns after its last signal. */
  lemma Returns(c: Config, s: State, t: State) returns (u: State)
    requires Leads(c, Quiet, s, t) && t.handler == LastLock(ByCount) && t.owner.Free? && t.submitter.Locking?
    ensures Leads(c, Quiet, s, u) && u == t.(handler := Done(ByCount))
  {
    hide Leads;
    var t1 := Apply(c, t, LockLast);
    Then(c, Quiet, s, t, LockLast);
    var t2 := Apply(c, t1, SignalLast);
    Then(c, Quiet, s, t1, SignalLast);
    Then(c, Quiet, s, t2, UnlockLast);
    u := Apply(c, t2, UnlockLast);
  }

  /** The remaining writes complete before the submitter locks the mutex for the last time. */
  lemma AllCountedIsReached(c: Config) returns (t: State)
    requires c.needed > 0 && c.batchSize > 0 && c.needed % c.batchSize == 0
    requires c.batchSize > 1 || c.needed == 1
    ensures Leads(c, Quiet, Initial(), t) && t.handler == Done(ByCount) && InWait(t.submitter) && t.total == c.needed
  {
    hide Leads;
    var s := SubmitsAll(c);
    var u := CountsRest(c, s);
    LeadsOn(c, Quiet, Initial(), s, u);
    t := Returns(c, Initial(), u);
  }

  /** This hang is possible if and only if whole batches make up the number of writes wanted (and,
      with batches of one, there is only one). */
  lemma CanHangWithAllCountedIff(c: Config)
    requires c.batchSize > 0
    ensures CanHangWithAllCounted(c) <==>
              c.needed > 0 && c.needed % c.batchSize == 0 && (c.batchSize > 1 || c.needed == 1)
  {
    hide Leads, NeverFreed, Inv;
    if c.needed > 0 && c.needed % c.batchSize == 0 && (c.batchSize > 1 || c.needed == 1) {
      var t := AllCountedIsReached(c);
      NeverFreedAtBoundary(c, t);
      EveryRunIsARun(c, Quiet, Initial(), t);
    }
    forall s | Leads(c, Any, Initial(), s) && s.handler == Done(ByCount) && NeverFreed(c, s)
      ensures c.needed > 0 && c.needed % c.batchSize == 0 && (c.batchSize > 1 || c.needed == 1)
    {
      LeadsKeepsInv(c, s);
      HangMeansWholeBatches(c, s);
    }
  }

  lemma LeadsKeepsInv(c: Config, s: State)
    requires c.batchSize > 0 && Leads(c, Any, Initial(), s)
    ensures Inv(c, s)
  {
    hide Inv, Run, Allowed;
    var steps :| Allowed(c, Initial(), steps) && Run(c, Initial(), steps) == s;
    InitialIsGood(c);
    RunKeepsInv(c, Initial(), steps);
  }

  lemma HangMeansWholeBatches(c: Config, s: State)
    requires c.batchSize > 0 && Leads(c, Any, Initial(), s) && Inv(c, s)
    requires s.handler == Done(ByCount) && NeverFreed(c, s)
    ensures c.needed > 0 && c.needed % c.batchSize == 0 && (c.batchSize > 1 || c.needed == 1)
  {
    hide Leads, Inv;
    Accounting(c, s);
    WaitMeansNeeded(c, s);
    if s.total % c.batchSize != 0 {
      var t := CanLeave(c, s);
      assert false;
    }
    if c.batchSize == 1 {
      FirstBatchOfOne(c, s);
    }
  }

  lemma WaitMeansNeeded(c: Config, s: State)
    requires Inv(c, s) && InWait(s.submitter)
    ensures s.attempts == s.submitter.i + c.batchSize && s.submitter.i < c.needed
  {
    hide InvMutex, InvFlow, InvBatch, InvTarget, InvSleep;
  }

  /** With batches of one nothing but the first write is ever attempted. */
  lemma FirstBatchOfOne(c: Config, s: State)
    requires c.batchSize == 1 && c.needed > 0 && Leads(c, Any, Initial(), s)
    ensures InFirstBatch(s.submitter)
  {
    hide Run, Allowed;
    var steps :| Allowed(c, Initial(), steps) && Run(c, Initial(), steps) == s;
    BatchOfOneNeverEnds(c, Initial(), steps);
  }

  // ---------------------------------------------------------------------------------------
  // Less than a batch is wanted: every schedule finishes

  /** Without faults every write is accepted, and the completion thread stops by count only. */
  predicate InvFaultless(s: State) {
    && s.attempts == s.accepted
    && (s.handler.LastLock? || s.handler.LastSignal? || s.handler.LastUnlock? || s.handler.Done? ==>
          s.handler.how.ByCount?)
  }

  lemma QuietStepIsFaultless(step: Step)
    requires Takes(Quiet, step)
    ensures Takes(Faultless, step)
  {
  }

  lemma StepIsFaultless(c: Config, s: State, step: Step)
    requires Inv(c, s) && InvFaultless(s) && Enabled(c, s, step) && Takes(Faultless, step)
    ensures Inv(c, Apply(c, s, step)) && InvFaultless(Apply(c, s, step))
  {
    hide Inv;
    StepKeepsInv(c, s, step);
  }

  lemma {:induction false} FaultlessRunKeepsInv(c: Config, s: State, steps: seq<Step>)
    requires Inv(c, s) && InvFaultless(s) && Allowed(c, s, steps)
    requires forall step | step in steps :: Takes(Faultless, step)
    ensures Inv(c, Run(c, s, steps)) && InvFaultless(Run(c, s, steps))
    decreases |steps|
  {
    hide Inv, InvFaultless, Enabled, Apply, Takes;
    if steps != [] {
      assert steps[0] in steps;
      StepIsFaultless(c, s, steps[0]);
      FaultlessRunKeepsInv(c, Apply(c, s, steps[0]), steps[1..]);
    }
  }

  lemma FaultlessIsGood(c: Config, s: State)
    requires c.batchSize > 0 && Leads(c, Faultless, Initial(), s)
    ensures Inv(c, s) && InvFaultless(s)
  {
    hide Inv, Run, Allowed, Takes;
    var steps :| Allowed(c, Initial(), steps) && (forall step | step in steps :: Takes(Faultless, step))
                 && Run(c, Initial(), steps) == s;
    InitialIsGood(c);
    FaultlessRunKeepsInv(c, Initial(), steps);
  }

  /** How many steps the completion thread has yet to take: seven for each write still to count,
      and three to return. */
  function HandlerWork(c: Config, s: State): int {
    7 * (c.needed - s.total) +
    match s.handler
    case AwaitingSignal => 3
    case Took => 2
    case BatchCounted => 1
    case Locked => 0
    case TotalCounted => 6
    case CheckingBatch => 5
    case CheckingTotal => 4
    case LastLock(_) => 3
    case LastSignal(_) => 2
    case LastUnlock(_) => 1
    case Done(_) => 0
  }

  /** How many the submitter has, at most, and one more for each write, which the kernel completes.
      A test of a total of zero costs it a sleep. */
  function SubmitterWork(c: Config, s: State): int {
    match s.submitter
    case AtOuter(i) => if i < c.needed then 2 * c.batchSize + 9 else 2
    case Submitting(_, j) => 2 * (c.batchSize - j) + 8
    case Locking(_) => 7
    case Testing(_) => if s.total == 0 then 6 else 4
    case Sleeping(_, _) => 5
    case Waking(_) => if s.total == 0 then 7 else 5
    case Leaving(_) => 3
    case Joining => 1
    case Finished => 0
  }

  function Work(c: Config, s: State): int {
    s.inKernel + HandlerWork(c, s) + SubmitterWork(c, s)
  }

  /** The total never reaches a batch, so it is at a boundary only while it is zero. */
  lemma BelowOneBatch(c: Config, s: State)
    requires Inv(c, s) && InvFaultless(s) && 0 < c.needed < c.batchSize
    ensures 0 <= s.total <= c.needed && s.total % c.batchSize == s.total
    ensures s.handler.CheckingBatch? ==> s.inBatch < c.batchSize
    ensures s.handler.LastSignal? ==> s.total == c.needed
    ensures s.submitter.Submitting? ==> s.submitter.j <= c.batchSize
    ensures s.submitter.Leaving? ==> s.submitter.i + c.batchSize >= c.needed
  {
    hide InvMutex, InvSleep;
    WithinTarget(c, s);
    MultipleRemainder(0, s.total, c.batchSize);
    if s.handler.CheckingBatch? {
      MultipleRemainder(0, s.total - 1, c.batchSize);
    }
  }

  lemma WithinTarget(c: Config, s: State)
    requires InvFlow(s) && InvTarget(c, s) && c.needed > 0
    requires s.handler.LastLock? || s.handler.LastSignal? || s.handler.LastUnlock? || s.handler.Done?
             ==> s.handler.how.ByCount?
    ensures 0 <= s.total <= c.needed
  {
  }

  lemma WorkIsNotNegative(c: Config, s: State)
    requires Inv(c, s) && InvFaultless(s) && 0 < c.needed < c.batchSize
    ensures Work(c, s) >= 0
  {
    hide Inv;
    BelowOneBatch(c, s);
    if s.handler.Took? || s.handler.BatchCounted? || s.handler.Locked? {
      YetToCount(c, s);
    }
  }

  lemma YetToCount(c: Config, s: State)
    requires Inv(c, s)
    ensures s.handler.Took? || s.handler.BatchCounted? || s.handler.Locked? ==> s.total < c.needed
  {
    hide InvMutex, InvFlow, InvBatch, InvSubmitter, InvSleep;
  }

  /** Every step does some of the work, unless it is a fault or a spurious wake-up. */
  lemma QuietStepIsWork(c: Config, s: State, step: Step)
    requires Inv(c, s) && InvFaultless(s) && 0 < c.needed < c.batchSize
    requires Enabled(c, s, step) && Takes(Quiet, step)
    ensures Work(c, Apply(c, s, step)) < Work(c, s)
  {
    hide Inv;
    BelowOneBatch(c, s);
    HoldsTheMutex(c, s);
  }

  lemma HoldsTheMutex(c: Config, s: State)
    requires Inv(c, s)
    ensures InvMutex(s)
  {
    hide InvMutex, InvFlow, InvBatch, InvTarget, InvSubmitter, InvSleep;
  }

  /** Has no thread a step to take, but for faults and spurious wake-ups? */
  ghost predicate AtRest(c: Config, s: State) {
    forall step | Takes(Quiet, step) :: !Enabled(c, s, step)
  }

  lemma SubmitterMoves(c: Config, s: State) returns (step: Step)
    requires c.batchSize > 0 && InvMutex(s) && !s.owner.HandlerHolds?
    requires !s.submitter.Sleeping? && !s.submitter.Finished? && (s.submitter.Joining? ==> s.handler.Done?)
    ensures Enabled(c, s, step) && Takes(Quiet, step)
  {
    match s.submitter
    case AtOuter(i) => return if i < c.needed then EnterBatch else StopSubmitting;
    case Submitting(_, j) => return if j < c.batchSize then SubmitAccepted else EndBatch;
    case Locking(_) => return Lock;
    case Testing(_) => return Test;
    case Waking(_) => return Relock;
    case Leaving(_) => return Leave;
    case Joining => return Join;
  }

  lemma HandlerMoves(c: Config, s: State) returns (step: Step)
    requires c.batchSize > 0 && InvMutex(s) && !s.handler.AwaitingSignal? && !s.handler.Done?
    ensures Enabled(c, s, step) && Takes(Quiet, step)
  {
    if (s.handler.BatchCounted? || s.handler.LastLock?) && s.owner.SubmitterHolds? {
      step := SubmitterMoves(c, s);
      return step;
    }
    match s.handler
    case Took => return CountInBatch;
    case BatchCounted => return LockTotal;
    case Locked => return CountTotal;
    case TotalCounted => return UnlockTotal;
    case CheckingBatch => return CheckBatch;
    case CheckingTotal => return CheckTotal;
    case LastLock(_) => return LockLast;
    case LastSignal(_) => return SignalLast;
    case LastUnlock(_) => return UnlockLast;
  }

  /** The submitter does not sleep, or wait for the completion thread to return, for nothing. */
  lemma NobodyIsForgotten(c: Config, s: State)
    requires Inv(c, s) && InvFaultless(s) && 0 < c.needed < c.batchSize
    requires s.inKernel == 0 && (s.handler.Done? || (s.handler.AwaitingSignal? && s.signals == 0))
    ensures !s.submitter.Sleeping? && (s.submitter.Joining? ==> s.handler.Done?) && !s.owner.HandlerHolds?
  {
    BelowOneBatch(c, s);
    hide InvBatch;
  }

  /** As long as the submitter has not finished, some thread can go on. */
  lemma SomeoneCanMove(c: Config, s: State) returns (step: Step)
    requires Inv(c, s) && InvFaultless(s) && 0 < c.needed < c.batchSize && !s.submitter.Finished?
    ensures Enabled(c, s, step) && Takes(Quiet, step)
  {
    hide Inv, InvMutex, InvFaultless;
    HoldsTheMutex(c, s);
    if s.inKernel > 0 {
      step := Complete;
    } else if s.handler.AwaitingSignal? && s.signals > 0 {
      step := TakeSignal;
    } else if s.handler.AwaitingSignal? || s.handler.Done? {
      NobodyIsForgotten(c, s);
      step := SubmitterMoves(c, s);
    } else {
      step := HandlerMoves(c, s);
    }
  }

  lemma {:induction false} QuietSchedulesEnd(c: Config, s: State, steps: seq<Step>)
    requires Inv(c, s) && InvFaultless(s) && 0 < c.needed < c.batchSize
    requires Allowed(c, s, steps) && forall step | step in steps :: Takes(Quiet, step)
    ensures var t := Run(c, s, steps);
            Inv(c, t) && InvFaultless(t) && 0 <= Work(c, t) && |steps| <= Work(c, s) - Work(c, t)
    decreases |steps|
  {
    hide Inv, InvFaultless, Work, Enabled, Apply, Takes;
    WorkIsNotNegative(c, s);
    if steps != [] {
      assert steps[0] in steps;
      QuietStepIsWork(c, s, steps[0]);
      QuietStepIsFaultless(steps[0]);
      StepIsFaultless(c, s, steps[0]);
      QuietSchedulesEnd(c, Apply(c, s, steps[0]), steps[1..]);
    }
  }

  /** Does every schedule without faults and spurious wake-ups end, and only when the submitter has
      finished? */
  ghost predicate AlwaysFinishes(c: Config) {
    exists n: nat :: FinishesWithin(c, n)
  }

  ghost predicate FinishesWithin(c: Config, n: nat) {
    forall steps | Allowed(c, Initial(), steps) && (forall step | step in steps :: Takes(Quiet, step)) ::
      |steps| <= n && (AtRest(c, Run(c, Initial(), steps)) ==> Run(c, Initial(), steps).submitter.Finished?)
  }

  /** The bound: for less than a batch, twice the batch and seven times the target, and twelve. */
  lemma FinishesBelowOneBatch(c: Config)
    requires 0 < c.needed < c.batchSize
    ensures FinishesWithin(c, 2 * c.batchSize + 7 * c.needed + 12)
  {
    forall steps | Allowed(c, Initial(), steps) && (forall step | step in steps :: Takes(Quiet, step))
      ensures |steps| <= 2 * c.batchSize + 7 * c.needed + 12
      ensures AtRest(c, Run(c, Initial(), steps)) ==> Run(c, Initial(), steps).submitter.Finished?
    {
      hide Inv, Enabled, Apply, Takes, Run, Allowed;
      InitialIsGood(c);
      QuietSchedulesEnd(c, Initial(), steps);
      var t := Run(c, Initial(), steps);
      if !t.submitter.Finished? {
        var step := SomeoneCanMove(c, t);
      }
    }
  }

  /** The whole first batch completes and is counted before the submitter locks the mutex: the
      signal at the end of the batch is lost. */
  lemma BatchCompletesFirst(c: Config) returns (t: State)
    requires 0 < c.batchSize <= c.needed
    ensures Leads(c, Quiet, Initial(), t) && NothingMoreCounts(t) && t.total == c.batchSize
    ensures t.submitter == Locking(0) && t.owner.Free? && t.inKernel == t.signals == 0
    ensures t.handler == Done(ByCount) || (t.handler.AwaitingSignal? && c.needed > c.batchSize)
  {
    hide Leads;
    var s := Sent(Initial(), Locking(0), c.batchSize);
    SubmitsBatch(c, Initial());
    t := CountsRest(c, s);
    LeadsOn(c, Quiet, Initial(), s, t);
    if c.needed == c.batchSize {
      t := Returns(c, Initial(), t);
    }
  }

  /** The submitter then goes to sleep, and there is nothing left to wake it. */
  lemma SleepsForEver(c: Config) returns (t: State)
    requires 0 < c.batchSize <= c.needed
    ensures Leads(c, Quiet, Initial(), t) && t.submitter.Sleeping? && AtRest(c, t) && NeverFreed(c, t)
  {
    hide Leads, NeverFreed;
    var s := BatchCompletesFirst(c);
    MultipleRemainder(1, 0, c.batchSize);
    Then(c, Quiet, Initial(), s, Lock);
    var s1 := Apply(c, s, Lock);
    Then(c, Quiet, Initial(), s1, Test);
    t := Apply(c, s1, Test);
    NeverFreedAtBoundary(c, t);
  }

  /** Exactly which configurations always finish: those that want some writes, but less than a
      batch. With none wanted the submitter waits for a completion thread that never returns. */
  lemma AlwaysFinishesIff(c: Config)
    requires c.batchSize > 0
    ensures AlwaysFinishes(c) <==> 0 < c.needed < c.batchSize
  {
    hide Leads, AtRest, NeverFreed;
    if 0 < c.needed < c.batchSize {
      FinishesBelowOneBatch(c);
    } else if c.needed == 0 {
      NothingWanted(c);
      var t := Initial().(submitter := Joining);
      UnfinishedRest(c, t);
    } else {
      var t := SleepsForEver(c);
      UnfinishedRest(c, t);
    }
  }

  lemma NothingWanted(c: Config)
    requires c.needed == 0
    ensures var t := Initial().(submitter := Joining); Leads(c, Quiet, Initial(), t) && AtRest(c, t)
  {
    hide Leads;
    LeadsToItself(c, Quiet, Initial());
    Then(c, Quiet, Initial(), Initial(), StopSubmitting);
  }

  lemma UnfinishedRest(c: Config, t: State)
    requires Leads(c, Quiet, Initial(), t) && AtRest(c, t) && !t.submitter.Finished?
    ensures !AlwaysFinishes(c)
  {
    hide AtRest, Takes, Allowed, Run;
    var steps :| Allowed(c, Initial(), steps) && (forall step | step in steps :: Takes(Quiet, step))
                 && Run(c, Initial(), steps) == t;
  }

  // ---------------------------------------------------------------------------------------
  // Which configurations can hang

  /** Can a run without faults reach a submitter in its wait that nothing whatever frees, not even a
      fault or a spurious wake-up? */
  ghost predicate CanHang(c: Config) {
    exists s :: Leads(c, Faultless, Initial(), s) && NeverFreed(c, s)
  }

  /** While less than a batch is wanted, some thread goes on until the submitter finishes. */
  lemma {:induction false} Finishes(c: Config, s: State) returns (t: State)
    requires Inv(c, s) && InvFaultless(s) && 0 < c.needed < c.batchSize
    ensures Leads(c, Quiet, s, t) && t.submitter.Finished?
    decreases Work(c, s)
  {
    hide Inv, InvFaultless, Work, Enabled, Apply, Takes, Leads;
    LeadsToItself(c, Quiet, s);
    t := s;
    if !s.submitter.Finished? {
      var step := SomeoneCanMove(c, s);
      var s1 := Apply(c, s, step);
      QuietStepIsWork(c, s, step);
      QuietStepIsFaultless(step);
      StepIsFaultless(c, s, step);
      WorkIsNotNegative(c, s);
      WorkIsNotNegative(c, s1);
      Then(c, Quiet, s, s, step);
      t := Finishes(c, s1);
      LeadsOn(c, Quiet, s, s1, t);
    }
  }

  /** A hang is possible if and only if at least one whole batch is wanted. */
  lemma CanHangIff(c: Config)
    requires c.batchSize > 0
    ensures CanHang(c) <==> c.needed >= c.batchSize
  {
    hide Leads, Inv, NeverFreed, InvFaultless, AtRest;
    if c.needed >= c.batchSize {
      var t := SleepsForEver(c);
      QuietIsFaultless(c, Initial(), t);
    } else {
      forall s | Leads(c, Faultless, Initial(), s)
        ensures !NeverFreed(c, s)
      {
        FaultlessIsGood(c, s);
        BelowOneBatchIsFreed(c, s);
      }
    }
  }

  lemma BelowOneBatchIsFreed(c: Config, s: State)
    requires Inv(c, s) && InvFaultless(s) && c.needed < c.batchSize
    ensures !NeverFreed(c, s)
  {
    hide Leads, Inv, InvFaultless;
    if NeverFreed(c, s) {
      WaitMeansNeeded(c, s);
      var t := Finishes(c, s);
      EveryRunIsARun(c, Quiet, s, t);
      assert false;
    }
  }

  // ---------------------------------------------------------------------------------------
  // What the signals are good for

  predicate InLoop(handler: Handler) {
    !handler.LastLock? && !handler.LastSignal? && !handler.LastUnlock? && !handler.Done?
  }

  /** The submitter is asleep in its first batch, or was woken when nothing was left to count. */
  predicate FirstSleep(c: Config, s: State) {
    && c.batchSize > 0 && InWait(s.submitter) && s.submitter.i == 0
    && (s.submitter.Sleeping? || (NothingMoreCounts(s) && s.total % c.batchSize == 0))
  }

  lemma FirstSleepStep(c: Config, s: State, step: Step)
    requires Inv(c, s) && InvFaultless(s) && FirstSleep(c, s) && Enabled(c, s, step) && Takes(Quiet, step)
    ensures var t := Apply(c, s, step);
            FirstSleep(c, t) || (!InLoop(t.handler) && c.needed < c.batchSize)
  {
    hide Inv;
    WaitMeansNeeded(c, s);
    Accounting(c, s);
    CountedInFull(c, s);
  }

  /** What a signal in the first batch means: all the writes of the batch were counted. */
  lemma CountedInFull(c: Config, s: State)
    requires Inv(c, s) && InvFaultless(s)
    ensures s.handler.CheckingBatch? && s.inBatch >= c.batchSize && s.attempts <= c.batchSize ==>
              s.total == s.attempts && s.total % c.batchSize == 0 && s.inKernel == s.signals == 0
    ensures s.handler.LastSignal? && c.needed >= s.attempts ==> s.total == c.needed == s.attempts
    ensures s.submitter.Sleeping? && s.attempts <= c.batchSize ==> s.attempts == c.batchSize
    ensures c.batchSize % c.batchSize == 0
  {
    hide InvMutex, InvSleep, InvJoin;
    MultipleRemainder(1, 0, c.batchSize);
    if s.handler.CheckingBatch? && s.inBatch >= c.batchSize {
      FullBatchIsBoundary(s.total, c.batchSize);
      WholeBatches(s.total, c.batchSize);
    }
  }

  lemma FullBatchIsBoundary(total: int, batchSize: nat)
    requires total > 0 && batchSize > 0 && (total - 1) % batchSize + 1 >= batchSize
    ensures total % batchSize == 0
  {
    NextRemainder(total - 1, batchSize);
  }

  lemma {:induction false} FirstSleepStays(c: Config, s: State, steps: seq<Step>)
    requires Inv(c, s) && InvFaultless(s) && Allowed(c, s, steps) && forall step | step in steps :: Takes(Quiet, step)
    requires FirstSleep(c, s) || (!InLoop(s.handler) && c.needed < c.batchSize)
    ensures var t := Run(c, s, steps);
            FirstSleep(c, t) || (!InLoop(t.handler) && c.needed < c.batchSize)
    decreases |steps|
  {
    hide Inv, InvFaultless, FirstSleep, Takes;
    if steps != [] {
      assert steps[0] in steps;
      QuietStepIsFaultless(steps[0]);
      StepIsFaultless(c, s, steps[0]);
      if FirstSleep(c, s) {
        FirstSleepStep(c, s, steps[0]);
      }
      FirstSleepStays(c, Apply(c, s, steps[0]), steps[1..]);
    }
  }

  lemma FirstSleepLeads(c: Config, s: State, t: State)
    requires Inv(c, s) && InvFaultless(s) && FirstSleep(c, s) && Leads(c, Quiet, s, t)
    ensures FirstSleep(c, t) || (!InLoop(t.handler) && c.needed < c.batchSize)
  {
    hide Inv, InvFaultless, FirstSleep, Run, Allowed, Takes, InLoop;
    var steps :| Allowed(c, s, steps) && (forall step | step in steps :: Takes(Quiet, step)) && Run(c, s, steps) == t;
    FirstSleepStays(c, s, steps);
  }

  /** With at least a batch wanted, a submitter that falls asleep in its first batch is in its wait for
      ever, unless a spurious wake-up comes: the signal at the end of that batch and the last signal
      find the total at a boundary, and nothing left to move it. */
  lemma AsleepInFirstBatchIsStuck(c: Config, s: State, t: State)
    requires 0 < c.batchSize <= c.needed && Leads(c, Quiet, Initial(), s) && Leads(c, Quiet, s, t)
    requires s.submitter.Sleeping? && s.submitter.i == 0
    ensures InWait(t.submitter)
  {
    hide Leads, Inv, InvFaultless;
    QuietIsFaultless(c, Initial(), s);
    FaultlessIsGood(c, s);
    FirstSleepLeads(c, s, t);
  }

  /** Can a submitter that went to sleep leave its wait for that batch, without spurious wake-ups,
      while the completion thread is still in its loop? Then a signal at the end of a batch woke it. */
  ghost predicate CanBeFreedBySignal(c: Config) {
    exists s, t :: Leads(c, Quiet, Initial(), s) && s.submitter.Sleeping? && Leads(c, Quiet, s, t)
                   && t.submitter == Leaving(s.submitter.i) && InLoop(t.handler)
  }

  /** The signals at the ends of batches are good for something if and only if a batch has more than
      one write and more than one batch is wanted. */
  lemma CanBeFreedBySignalIff(c: Config)
    requires c.batchSize > 0
    ensures CanBeFreedBySignal(c) <==> 1 < c.batchSize < c.needed
  {
    hide Leads, Inv, InvFaultless, FirstSleep;
    if 1 < c.batchSize < c.needed {
      var s, t := SignalFrees(c);
    } else {
      forall s, t | Leads(c, Quiet, Initial(), s) && s.submitter.Sleeping? && Leads(c, Quiet, s, t)
                    && t.submitter == Leaving(s.submitter.i)
        ensures !InLoop(t.handler)
      {
        QuietIsFaultless(c, Initial(), s);
        FaultlessIsGood(c, s);
        LeadsOn(c, Quiet, Initial(), s, t);
        QuietIsFaultless(c, Initial(), t);
        FaultlessIsGood(c, t);
        LeavesOffBoundary(c, t);
        OnlyBatch(c, s);
        FirstSleepLeads(c, s, t);
        NotLeavingFirstSleep(c, t);
      }
    }
  }

  lemma NotLeavingFirstSleep(c: Config, t: State)
    requires t.submitter.Leaving?
    ensures !FirstSleep(c, t)
  {
  }

  lemma OnlyBatch(c: Config, s: State)
    requires Inv(c, s) && s.submitter.Sleeping? && (c.batchSize == 1 || c.needed <= c.batchSize)
    ensures c.batchSize > 1 ==> FirstSleep(c, s)
  {
    hide InvMutex, InvFlow, InvBatch, InvTarget, InvSleep, InvJoin;
    if c.batchSize > 1 && s.submitter.i > 0 {
      WholeBatches(s.submitter.i, c.batchSize);
    }
  }

  /** The run: the second batch is submitted, the last write of the first one is counted, and the
      submitter goes to sleep before the signal. Once it is woken, one more write moves the total on. */
  lemma SignalFrees(c: Config) returns (s: State, t: State)
    requires 1 < c.batchSize < c.needed
    ensures Leads(c, Quiet, Initial(), s) && s.submitter.Sleeping? && Leads(c, Quiet, s, t)
    ensures t.submitter == Leaving(s.submitter.i) && InLoop(t.handler)
  {
    hide Leads;
    var s1 := OneLeftInBatch(c);
    NextRemainder(s1.total, c.batchSize);
    MultipleRemainder(1, 0, c.batchSize);
    var u := CountsButForSignal(c, s1);
    LeadsOn(c, Quiet, Initial(), s1, u);
    Then(c, Quiet, Initial(), u, Lock);
    var u1 := Apply(c, u, Lock);
    Then(c, Quiet, Initial(), u1, Test);
    s := Apply(c, u1, Test);
    LeadsToItself(c, Quiet, s);
    Then(c, Quiet, s, s, CheckBatch);
    var v := Apply(c, s, CheckBatch);
    Then(c, Quiet, s, v, CheckTotal);
    var v1 := Apply(c, v, CheckTotal);
    MultipleRemainder(1, 1, c.batchSize);
    var w := CountsButForSignal(c, v1);
    LeadsOn(c, Quiet, s, v1, w);
    Then(c, Quiet, s, w, Relock);
    var w1 := Apply(c, w, Relock);
    Then(c, Quiet, s, w1, Test);
    t := Apply(c, w1, Test);
  }

  /** Two batches submitted, and all but one write of the first one counted. */
  lemma OneLeftInBatch(c: Config) returns (s: State)
    requires 1 < c.batchSize < c.needed
    ensures Leads(c, Quiet, Initial(), s) && BothAtHead(c, s) && s.submitter == Locking(c.batchSize)
    ensures s.total == c.batchSize - 1 && s.inKernel == c.batchSize + 1
  {
    hide Leads;
    var b := c.batchSize;
    MultipleRemainder(0, 1, b);
    MultipleRemainder(1, 0, b);
    var s0 := Sent(Initial(), Locking(0), b);
    SubmitsBatch(c, Initial());
    CountsOne(c, s0);
    var s1 := Counted(c, s0);
    LeadsOn(c, Quiet, Initial(), s0, s1);
    SubmitsMore(c, s1, b);
    var s2 := Sent(s1, Locking(b), b);
    LeadsOn(c, Quiet, Initial(), s1, s2);
    s := CountsUpTo(c, s2, b - 1);
    LeadsOn(c, Quiet, Initial(), s2, s);
  }

  lemma {:induction false} CountsUpTo(c: Config, s: State, total: int) returns (t: State)
    requires BothAtHead(c, s) && s.submitter.Locking? && s.total <= total < c.needed && total - s.total <= s.inKernel
    ensures Leads(c, Quiet, s, t) && BothAtHead(c, t) && t.submitter == s.submitter
    ensures t.total == total && t.inKernel == s.inKernel - (total - s.total)
    decreases total - s.total
  {
    hide Leads;
    LeadsToItself(c, Quiet, s);
    t := s;
    if s.total < total {
      CountsOne(c, s);
      var s1 := Counted(c, s);
      t := CountsUpTo(c, s1, total);
      LeadsOn(c, Quiet, s, s1, t);
    }
  }

  // ---------------------------------------------------------------------------------------
  // A stop signal

  /** Can a stop signal end the completion thread away from a boundary, with the submitter asleep, so
      that only a spurious wake-up helps? */
  ghost predicate CanForgetSleeper(c: Config)
    requires c.batchSize > 0
  {
    exists s :: Leads(c, Any, Initial(), s) && s.handler == Done(ByStop) && s.total % c.batchSize != 0
                && s.submitter.Sleeping? && forall t | Leads(c, Quiet, s, t) :: t.submitter == s.submitter
  }

  lemma {:induction false} NobodySignals(c: Config, s: State, steps: seq<Step>)
    requires s.handler.Done? && s.submitter.Sleeping? && Allowed(c, s, steps)
    requires forall step | step in steps :: Takes(Quiet, step)
    ensures Run(c, s, steps).submitter == s.submitter
    decreases |steps|
  {
    if steps != [] {
      assert steps[0] in steps;
      NobodySignals(c, Apply(c, s, steps[0]), steps[1..]);
    }
  }

  /** A stop signal, unlike the last write and unlike a failed wait, gives no last signal. This matters
      if and only if a batch has more than one write and more than one write is wanted. */
  lemma CanForgetSleeperIff(c: Config)
    requires c.batchSize > 0
    ensures CanForgetSleeper(c) <==> c.batchSize > 1 && c.needed > 1
  {
    hide Leads, Inv;
    if c.batchSize > 1 && c.needed > 1 {
      var s := SleeperIsForgotten(c);
    }
    forall s | Leads(c, Any, Initial(), s) && s.handler == Done(ByStop) && s.total % c.batchSize != 0
      ensures c.batchSize > 1 && c.needed > 1
    {
      LeadsKeepsInv(c, s);
      Accounting(c, s);
      MultipleRemainder(0, 0, c.batchSize);
    }
  }

  /** The submitter is asleep and one write was counted since. */
  lemma AsleepInMidBatch(c: Config) returns (s: State)
    requires c.batchSize > 1 && c.needed > 1
    ensures Leads(c, Quiet, Initial(), s) && s.submitter.Sleeping? && s.total % c.batchSize != 0
    ensures s.handler.AwaitingSignal? && s.owner.Free?
  {
    hide Leads;
    MultipleRemainder(0, 1, c.batchSize);
    var s0 := Sent(Initial(), Locking(0), c.batchSize);
    SubmitsBatch(c, Initial());
    Then(c, Quiet, Initial(), s0, Lock);
    var s1 := Apply(c, s0, Lock);
    Then(c, Quiet, Initial(), s1, Test);
    var s2 := Apply(c, s1, Test);
    CountsOne(c, s2);
    s := Counted(c, s2);
    LeadsOn(c, Quiet, Initial(), s2, s);
  }

  lemma SleeperIsForgotten(c: Config) returns (s: State)
    requires c.batchSize > 1 && c.needed > 1
    ensures Leads(c, Any, Initial(), s) && s.handler == Done(ByStop) && s.total % c.batchSize != 0
    ensures s.submitter.Sleeping? && forall t | Leads(c, Quiet, s, t) :: t.submitter == s.submitter
  {
    hide Leads;
    var s0 := AsleepInMidBatch(c);
    EveryRunIsARun(c, Quiet, Initial(), s0);
    Then(c, Any, Initial(), s0, StopSignal);
    s := Apply(c, s0, StopSignal);
    StaysForgotten(c, s);
  }

  /** From the same state a failed wait for a signal does free the submitter: the completion thread
      gives its last signal. */
  lemma FailedWaitFrees(c: Config) returns (s: State, t: State)
    requires c.batchSize > 1 && c.needed > 1
    ensures Leads(c, Quiet, Initial(), s) && s.submitter.Sleeping? && s.total % c.batchSize != 0
    ensures Enabled(c, s, WaitFails) && Leads(c, Quiet, Apply(c, s, WaitFails), t)
    ensures t.submitter.Leaving? && t.handler == Done(ByFailure)
  {
    hide Leads;
    s := AsleepInMidBatch(c);
    var s0 := Apply(c, s, WaitFails);
    LeadsToItself(c, Quiet, s0);
    Then(c, Quiet, s0, s0, LockLast);
    var s1 := Apply(c, s0, LockLast);
    Then(c, Quiet, s0, s1, SignalLast);
    var s2 := Apply(c, s1, SignalLast);
    Then(c, Quiet, s0, s2, UnlockLast);
    var s3 := Apply(c, s2, UnlockLast);
    Then(c, Quiet, s0, s3, Relock);
    var s4 := Apply(c, s3, Relock);
    Then(c, Quiet, s0, s4, Test);
    t := Apply(c, s4, Test);
  }

  lemma StaysForgotten(c: Config, s: State)
    requires s.handler.Done? && s.submitter.Sleeping?
    ensures forall t | Leads(c, Quiet, s, t) :: t.submitter == s.submitter
  {
    hide Run, Allowed, Takes;
    forall t | Leads(c, Quiet, s, t)
      ensures t.submitter == s.submitter
    {
      var steps :| Allowed(c, s, steps) && (forall step | step in steps :: Takes(Quiet, step)) && Run(c, s, steps) == t;
      NobodySignals(c, s, steps);
    }
  }

  // ---------------------------------------------------------------------------------------
  // Rejected writes

  lemma {:induction false} RejectsSome(c: Config, k: nat) returns (s: State)
    requires c.needed > 0 && k <= c.batchSize
    ensures Leads(c, Any, Initial(), s) && s == Initial().(submitter := Submitting(0, k), attempts := k)
  {
    hide Leads;
    if k == 0 {
      LeadsToItself(c, Any, Initial());
      Then(c, Any, Initial(), Initial(), EnterBatch);
      s := Apply(c, Initial(), EnterBatch);
    } else {
      var s0 := RejectsSome(c, k - 1);
      Then(c, Any, Initial(), s0, SubmitRejected);
      s := Apply(c, s0, SubmitRejected);
    }
  }

  /** A batch whose writes were all rejected is still waited for, and for ever, however few are wanted. */
  lemma RejectedBatchHangs(c: Config) returns (s: State)
    requires c.needed > 0 && c.batchSize > 0
    ensures Leads(c, Any, Initial(), s) && s.attempts == c.batchSize && s.accepted == 0 && s.handler.AwaitingSignal?
    ensures NeverFreed(c, s)
  {
    hide Leads, NeverFreed;
    var s0 := RejectsSome(c, c.batchSize);
    Then(c, Any, Initial(), s0, EndBatch);
    s := Apply(c, s0, EndBatch);
    MultipleRemainder(0, 0, c.batchSize);
    NeverFreedAtBoundary(c, s);
  }
}
