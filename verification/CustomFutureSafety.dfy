/**
  What every interleaving of the custom-future protocol guarantees.
 */
module CustomFutureSafety {
  import opened Options
  import opened CustomFuture

  // ----- The status word only moves forward -----

  /** The four statuses a custom future can have. */
  predicate ValidPair(st: Status) {
    || (st.state == Processing && st.outcome == Unknown)
    || (st.state == Canceling && st.outcome == FailureCanceled)
    || (st.state == Result && st.outcome == FailureCanceled)
    || (st.state == Result && st.outcome == Success)
  }

  /** The count of waiters is within its bound, and zero once the future was taken. */
  predicate CountFits(st: Status) {
    st.downstream <= MAX_DOWNSTREAM && (st.available || st.downstream == 0)
  }

  /** `seen` may be an older value of a word that is now `now`: outcomes are final, results
      stay, and a future once taken for finishing stays taken. */
  predicate Earlier(seen: Status, now: Status) {
    && ValidPair(seen) && CountFits(seen)
    && (seen.outcome != Unknown ==> now.outcome == seen.outcome)
    && (seen.state == Result ==> now.state == Result)
    && (!seen.available ==> !now.available)
  }

  /** How many of the three decisions (canceled, resolved, taken for finishing) were made. */
  function Rank(st: Status): nat {
    (if st.outcome == FailureCanceled then 1 else 0) + (if st.state == Result then 1 else 0)
    + (if st.available then 0 else 1)
  }

  // ----- Invariant -----

  predicate Resolved(w: WorkerPc) {
    w.Notify? || w.Done?
  }

  /** The worker's copy of the word, if it has one, is an older value of the word. */
  predicate WorkerSees(w: WorkerPc, now: Status) {
    HasWorkerCopy(w) ==> Earlier(w.seen, now)
  }

  predicate HasWorkerCopy(w: WorkerPc) {
    w.SetCheck? || w.SetWrite? || w.SetCas? || w.AckCheck? || w.AckCas?
  }

  predicate WorkerInv(s: State) {
    && !s.worker.Exited?
    && (s.status.state == Result <==> Resolved(s.worker))
    && WorkerSees(s.worker, s.status)
    && match s.worker
       case Ready(saw) => saw ==> s.status.state == Canceling
       case SetLoad(_, _) => true
       case SetCheck(p, _, seen, written) => written ==> s.payload == Some(p)
       case SetWrite(_, _, seen) => seen.outcome == Unknown
       case SetCas(p, _, seen) => seen.outcome == Unknown && s.payload == Some(p)
       case AckLoad => s.status.state == Canceling
       case AckCheck(seen) => seen.state == Canceling
       case AckCas(seen) => seen.state == Canceling
       case Notify(verdict, _) => VerdictHolds(s, verdict)
       case Done(verdict) => VerdictHolds(s, verdict)
       case Exited => false
  }

  predicate VerdictHolds(s: State, verdict: Verdict) {
    match verdict
    case ResultSet(p, _) => s.status.outcome == Success && s.payload == Some(p)
    case CancelAcknowledged => s.status.outcome == FailureCanceled
  }

  predicate HasCopy(pc: ClientPc) {
    pc.CancelCheck? || pc.CancelCas? || pc.FinishCas? || pc.FinishTest? || pc.WaitCas?
    || pc.WaitFutex? || pc.Asleep? || pc.Collect?
  }

  /** The call has not cleared `available` yet. */
  predicate BeforeTaking(pc: ClientPc) {
    pc.CancelCheck? || pc.CancelCas? || pc.FinishCas?
  }

  predicate AfterTaking(pc: ClientPc) {
    pc.FinishTest? || pc.WaitLoad? || pc.WaitCas? || pc.WaitFutex? || pc.Asleep? || pc.WaitReload?
    || pc.Collect?
  }

  predicate ClientInv(s: State, client: Client) {
    var pc := client.pc;
    && !pc.Crashed?
    && (HasCopy(pc) ==> Earlier(pc.seen, s.status))
    && (pc.Fresh? ==> client == Client(Fresh, false, false, None, None))
    && (pc.CancelCas? ==> pc.seen.outcome == Unknown)
    && (pc.CancelCheck? || pc.CancelCas? ==> client.canceled == None && !client.collects)
    && (pc.Collect? ==> pc.seen.state == Result)
    && (pc.FinishCas? || AfterTaking(pc) ==> client.finishes)
    && (client.finishes && BeforeTaking(pc) ==>
          s.status.available && s.status.downstream == 0 && pc.seen.downstream == 0)
    && (AfterTaking(pc) ==> !s.status.available)
    && (client.canceled == Some(true) ==> s.status.outcome == FailureCanceled)
    && (client.canceled == Some(false) ==> s.status.outcome != Unknown)
    && (pc.FinishCas? || AfterTaking(pc) ==> (client.collects <==> client.canceled == None))
    && (client.got.Some? <==> pc.Returned? && client.canceled == None)
    && match client.got
       case None => true
       case Some(Custom(p)) => s.status.state == Result && s.status.outcome == Success && s.payload == Some(p)
       case Some(Canceled) => s.status.state == Result && s.status.outcome == FailureCanceled
       case Some(DependencyFailed) => false
  }

  ghost predicate Winner(s: State, c: CallId) {
    c in s.clients && s.clients[c].canceled == Some(true)
  }

  /** The outcome is "canceled" exactly if one cancel call won, and then only one did. */
  ghost predicate WinnersInv(s: State) {
    && (s.status.outcome == FailureCanceled ==> exists c :: Winner(s, c))
    && (forall c, d :: Winner(s, c) && Winner(s, d) ==> c == d)
  }

  /** At most one call finishes, and without one the future is still available. */
  ghost predicate FinisherInv(s: State) {
    && (NobodyFinishes(s) ==> s.status.available)
    && forall c, d :: c in s.clients && d in s.clients && s.clients[c].finishes && s.clients[d].finishes ==> c == d
  }

  ghost predicate Inv(s: State) {
    && ValidPair(s.status) && CountFits(s.status)
    && s.swaps == Rank(s.status)
    && WorkerInv(s)
    && (forall c :: c in s.clients ==> ClientInv(s, s.clients[c]))
    && WinnersInv(s)
    && FinisherInv(s)
  }

  lemma InitialHasInv(s: State)
    requires Initial(s)
    ensures Inv(s)
  {
  }

  /** Moving the word forward keeps what a bystander knows. */
  lemma BystanderKeeps(s: State, s': State, client: Client)
    requires ClientInv(s, client) && Earlier(s.status, s'.status)
    requires s.status.state == Result ==> s'.payload == s.payload
    requires s'.status.available == s.status.available || !client.finishes || client.pc.Returned?
    requires s'.status.downstream == s.status.downstream || s'.status.downstream == 0 || !client.finishes
    ensures ClientInv(s', client)
  {
  }

  /** The calls keep their part of the invariant across a step of somebody else. */
  lemma BystandersKeep(s: State, s': State)
    requires Inv(s) && s'.clients == s.clients && Earlier(s.status, s'.status)
    requires s.status.state == Result ==> s'.payload == s.payload
    requires s'.status.available == s.status.available
    requires s'.status.downstream == s.status.downstream || s'.status.downstream == 0 || NobodyFinishes(s)
    requires s'.status.outcome == FailureCanceled ==> s.status.outcome == FailureCanceled
    ensures forall c :: c in s'.clients ==> ClientInv(s', s'.clients[c])
    ensures WinnersInv(s') && FinisherInv(s')
  {
    forall c | c in s'.clients ensures ClientInv(s', s'.clients[c]) {
      BystanderKeeps(s, s', s.clients[c]);
    }
    assert forall c :: Winner(s', c) <==> Winner(s, c);
  }

  lemma EnvironmentKeepsInv(s: State, next: Status)
    requires Inv(s) && EnvironmentAllowed(s, next)
    ensures Inv(Apply(s, OfEnvironment(next)))
  {
    BystandersKeep(s, Apply(s, OfEnvironment(next)));
  }

  lemma WorkerKeepsInv(s: State, w: WorkerStep)
    requires Inv(s) && WorkerEnabled(s, w)
    ensures Inv(Apply(s, OfWorker(w)))
  {
    var s' := Apply(s, OfWorker(w));
    WorkerActs(s, w);
    if w.SendNotification? {
      NotificationFrame(s);
      assert forall c :: Winner(s', c) <==> Winner(s, c);
    } else {
      BystandersKeep(s, s');
    }
  }

  lemma NotificationFrame(s: State)
    requires Inv(s) && s.worker.Notify?
    ensures var s' := Apply(s, OfWorker(SendNotification));
      && s'.clients.Keys == s.clients.Keys
      && forall c :: c in s.clients ==>
           && ClientInv(s', s'.clients[c])
           && s'.clients[c].finishes == s.clients[c].finishes
           && s'.clients[c].canceled == s.clients[c].canceled
  {
    var s' := Apply(s, OfWorker(SendNotification));
    forall c | c in s.clients
      ensures ClientInv(s', s'.clients[c])
    {
      BystanderKeeps(s, s', s.clients[c]);
    }
  }

  predicate WorkerActsWell(s: State, w: WorkerStep)
    requires WorkerEnabled(s, w)
  {
    var s' := Apply(s, OfWorker(w));
    && WorkerInv(s') && ValidPair(s'.status) && Earlier(s.status, s'.status)
    && s'.status == s.status.(state := s'.status.state, outcome := s'.status.outcome)
    && s'.swaps == Rank(s'.status)
    && (s.status.state == Result ==> s'.payload == s.payload)
    && (s'.status.outcome == FailureCanceled ==> s.status.outcome == FailureCanceled)
    && (!w.SendNotification? ==> s'.clients == s.clients)
  }

  lemma WorkerSwapActs(s: State, ok: bool)
    requires ValidPair(s.status) && CountFits(s.status) && WorkerInv(s) && s.swaps == Rank(s.status)
    requires WorkerEnabled(s, Swap(ok))
    ensures WorkerActsWell(s, Swap(ok))
  {
  }

  lemma WorkerDecideActs(s: State)
    requires ValidPair(s.status) && CountFits(s.status) && WorkerInv(s) && s.swaps == Rank(s.status)
    requires WorkerEnabled(s, Decide)
    ensures WorkerActsWell(s, Decide)
  {
  }

  /** The worker keeps its own part of the invariant. */
  lemma WorkerActs(s: State, w: WorkerStep)
    requires ValidPair(s.status) && CountFits(s.status) && WorkerInv(s) && s.swaps == Rank(s.status)
    requires WorkerEnabled(s, w)
    ensures WorkerActsWell(s, w)
  {
    match w
    case Swap(ok) => WorkerSwapActs(s, ok);
    case Decide => WorkerDecideActs(s);
    case _ =>
  }

  /** What a call's step can touch at all: its own record and the word. */
  lemma ClientFrame(s: State, c: CallId, k: ClientStep)
    requires ClientEnabled(s, c, k)
    ensures var s' := Apply(s, OfClient(c, k));
      && s'.worker == s.worker && s'.payload == s.payload && s'.clients.Keys == s.clients.Keys
      && (forall d :: d in s.clients && d != c ==> s'.clients[d] == s.clients[d])
      && (!k.StartCancel? && !k.StartFinish? ==> s'.clients[c].finishes == s.clients[c].finishes)
      && (s'.clients[c].finishes ==> s.clients[c].finishes || NobodyFinishes(s))
  {
  }

  /** The part of the invariant that one call's step relies on. */
  predicate LocalInv(s: State, c: CallId) {
    && ValidPair(s.status) && CountFits(s.status)
    && s.swaps == Rank(s.status)
    && c in s.clients && ClientInv(s, s.clients[c])
    && (NobodyFinishes(s) ==> s.status.available)
    && (s.status.state == Result && s.status.outcome == Success ==> s.payload.Some?)
  }

  predicate ActsWell(s: State, c: CallId, k: ClientStep)
    requires ClientEnabled(s, c, k)
  {
    var s' := Apply(s, OfClient(c, k));
    && c in s'.clients && ClientInv(s', s'.clients[c])
    && ValidPair(s'.status) && Earlier(s.status, s'.status)
    && (s.status.state == Result <==> s'.status.state == Result)
    && (s.status.state == Canceling ==> s'.status.state == Canceling)
    && CountFits(s'.status) && s'.status.downstream == s.status.downstream
    && (s'.status.available != s.status.available ==> s.clients[c].finishes)
    && s'.swaps == Rank(s'.status)
  }

  lemma StartActs(s: State, c: CallId, k: ClientStep)
    requires LocalInv(s, c) && ClientEnabled(s, c, k)
    requires k.StartCancel? || k.StartFinish?
    ensures ActsWell(s, c, k)
  {
  }

  lemma CancelGoesOn(s: State, c: CallId)
    requires LocalInv(s, c) && ClientEnabled(s, c, CancelDecide)
    requires s.clients[c].pc.seen.outcome == Unknown
    ensures ActsWell(s, c, CancelDecide)
  {
  }

  lemma CancelGivesUp(s: State, c: CallId)
    requires LocalInv(s, c) && ClientEnabled(s, c, CancelDecide)
    requires s.clients[c].pc.seen.outcome != Unknown
    ensures ActsWell(s, c, CancelDecide)
  {
  }

  lemma CancelDecideActs(s: State, c: CallId)
    requires LocalInv(s, c) && ClientEnabled(s, c, CancelDecide)
    ensures ActsWell(s, c, CancelDecide)
  {
    if s.clients[c].pc.seen.outcome == Unknown { CancelGoesOn(s, c); } else { CancelGivesUp(s, c); }
  }

  lemma FinishDecideActs(s: State, c: CallId, k: ClientStep)
    requires LocalInv(s, c) && ClientEnabled(s, c, k)
    requires k.FinishDecide?
    ensures ActsWell(s, c, k)
  {
  }

  lemma CancelSwapActs(s: State, c: CallId, k: ClientStep)
    requires LocalInv(s, c) && ClientEnabled(s, c, k)
    requires k.CancelSwap?
    ensures ActsWell(s, c, k)
  {
  }

  lemma FinishSwapActs(s: State, c: CallId, k: ClientStep)
    requires LocalInv(s, c) && ClientEnabled(s, c, k)
    requires k.FinishSwap?
    ensures ActsWell(s, c, k)
  {
  }

  lemma WaitSwapActs(s: State, c: CallId, k: ClientStep)
    requires LocalInv(s, c) && ClientEnabled(s, c, k)
    requires k.WaitSwap?
    ensures ActsWell(s, c, k)
  {
  }

  lemma WaitLoadActs(s: State, c: CallId, k: ClientStep)
    requires LocalInv(s, c) && ClientEnabled(s, c, k)
    requires k.WaitStart? || k.WaitAgain?
    ensures ActsWell(s, c, k)
  {
  }

  lemma WaitSleepActs(s: State, c: CallId, k: ClientStep)
    requires LocalInv(s, c) && ClientEnabled(s, c, k)
    requires k.WaitSleep? || k.SpuriousWake?
    ensures ActsWell(s, c, k)
  {
  }

  lemma CollectActs(s: State, c: CallId, k: ClientStep)
    requires LocalInv(s, c) && ClientEnabled(s, c, k)
    requires k.CollectResult?
    ensures ActsWell(s, c, k)
  {
  }

  /** The call that takes step `k` keeps its own part of the invariant. */
  lemma ClientActs(s: State, c: CallId, k: ClientStep)
    requires LocalInv(s, c) && ClientEnabled(s, c, k)
    ensures ActsWell(s, c, k)
  {
    match k
    case StartCancel(_) => StartActs(s, c, k);
    case StartFinish => StartActs(s, c, k);
    case CancelDecide => CancelDecideActs(s, c);
    case FinishDecide => FinishDecideActs(s, c, k);
    case CancelSwap(_) => CancelSwapActs(s, c, k);
    case FinishSwap(_) => FinishSwapActs(s, c, k);
    case WaitSwap(_) => WaitSwapActs(s, c, k);
    case CollectResult => CollectActs(s, c, k);
    case WaitSleep => WaitSleepActs(s, c, k);
    case SpuriousWake => WaitSleepActs(s, c, k);
    case WaitStart => WaitLoadActs(s, c, k);
    case WaitAgain => WaitLoadActs(s, c, k);
  }

  lemma WorkerStands(s: State, s': State)
    requires WorkerInv(s) && s'.worker == s.worker && s'.payload == s.payload
    requires ValidPair(s.status) && CountFits(s.status) && Earlier(s.status, s'.status)
    requires s.status.state == Result <==> s'.status.state == Result
    requires s.status.state == Canceling ==> s'.status.state == Canceling
    ensures WorkerInv(s')
  {
  }

  /** Only a successful cancel swap makes a winner. */
  lemma ClientVerdict(s: State, c: CallId, k: ClientStep)
    requires ClientEnabled(s, c, k) && ClientInv(s, s.clients[c])
    ensures var s' := Apply(s, OfClient(c, k));
      if k == CancelSwap(true) then s'.clients[c].canceled == Some(true) && s.status.outcome == Unknown
      else
        && (s'.clients[c].canceled == Some(true) <==> s.clients[c].canceled == Some(true))
        && s'.status.outcome == s.status.outcome
  {
  }

  lemma ClientKeepsWinners(s: State, c: CallId, k: ClientStep)
    requires Inv(s) && ClientEnabled(s, c, k)
    ensures WinnersInv(Apply(s, OfClient(c, k)))
  {
    var s' := Apply(s, OfClient(c, k));
    ClientFrame(s, c, k);
    ClientVerdict(s, c, k);
    if k == CancelSwap(true) {
      assert Winner(s', c);
      forall d | Winner(s', d) ensures d == c {
        assert d in s.clients ==> ClientInv(s, s.clients[d]);
      }
    } else {
      assert forall d :: Winner(s', d) <==> Winner(s, d);
    }
  }

  lemma ClientKeepsInv(s: State, c: CallId, k: ClientStep)
    requires Inv(s) && ClientEnabled(s, c, k)
    ensures Inv(Apply(s, OfClient(c, k)))
  {
    var s' := Apply(s, OfClient(c, k));
    assert ClientInv(s, s.clients[c]);
    ClientFrame(s, c, k);
    ClientActs(s, c, k);
    WorkerStands(s, s');
    ClientKeepsWinners(s, c, k);
    forall d | d in s'.clients && d != c ensures ClientInv(s', s'.clients[d]) {
      BystanderKeeps(s, s', s.clients[d]);
    }
    FinisherStands(s, s', c);
  }

  lemma FinisherStands(s: State, s': State, c: CallId)
    requires FinisherInv(s) && c in s.clients && s'.clients.Keys == s.clients.Keys
    requires forall d :: d in s.clients && d != c ==> s'.clients[d] == s.clients[d]
    requires s'.clients[c].finishes ==> s.clients[c].finishes || NobodyFinishes(s)
    requires s.clients[c].finishes ==> s'.clients[c].finishes
    requires s'.status.available != s.status.available ==> s.clients[c].finishes
    ensures FinisherInv(s')
  {
    if NobodyFinishes(s') {
      assert forall d :: d in s.clients && d != c ==> !s'.clients[d].finishes;
      assert NobodyFinishes(s);
    }
  }

  lemma StepKeepsInv(s: State, step: Step)
    requires Inv(s) && Enabled(s, step)
    ensures Inv(Apply(s, step))
  {
    match step
    case OfWorker(w) => WorkerKeepsInv(s, w);
    case OfClient(c, k) => ClientKeepsInv(s, c, k);
    case OfEnvironment(next) => EnvironmentKeepsInv(s, next);
  }

  lemma {:induction false} RunKeepsInv(s: State, steps: seq<Step>)
    requires Inv(s) && CanRun(s, steps)
    ensures Inv(Run(s, steps))
    decreases |steps|
  {
    if |steps| > 0 {
      StepKeepsInv(s, steps[0]);
      RunKeepsInv(Apply(s, steps[0]), steps[1..]);
    }
  }

  // ----- Main results -----

  ghost predicate Reachable(s: State) {
    exists s0: State, steps: seq<Step> :: Initial(s0) && CanRun(s0, steps) && Run(s0, steps) == s
  }

  lemma ReachableHasInv(s: State)
    requires Reachable(s)
    ensures Inv(s)
  {
    var s0: State, steps: seq<Step> :| Initial(s0) && CanRun(s0, steps) && Run(s0, steps) == s;
    InitialHasInv(s0);
    RunKeepsInv(s0, steps);
  }

  /** udipe_custom_try_set_result() was called with `p` and `successful`, has published its
      result and will return true. */
  predicate PublishedResult(s: State, p: Payload, successful: bool) {
    Resolved(s.worker) && s.worker.verdict == ResultSet(p, successful)
  }

  /** Cancelation and result-setting never both win. If the worker's result was accepted, no
      cancel call has won, and every finish call that has returned got exactly that payload. */
  lemma AcceptedResultIsDelivered(s: State, p: Payload, successful: bool, c: CallId)
    requires Reachable(s) && PublishedResult(s, p, successful) && c in s.clients
    ensures s.clients[c].canceled != Some(true)
    ensures s.clients[c].got.Some? ==> s.clients[c].got == Some(Custom(p))
    ensures FinishReturned(s, c) ==> s.clients[c].got == Some(Custom(p))
  {
    ReachableHasInv(s);
    assert ClientInv(s, s.clients[c]);
  }

  /** Otherwise, once the future is resolved, exactly one cancel call won, and every finish call
      that has returned got the cancelation. */
  lemma ResolvedWithoutResultIsCanceled(s: State) returns (winner: CallId)
    requires Reachable(s) && s.status.state == Result
    requires forall p, successful :: !PublishedResult(s, p, successful)
    ensures Winner(s, winner)
    ensures forall c :: Winner(s, c) ==> c == winner
    ensures forall c :: c in s.clients && s.clients[c].got.Some? ==> s.clients[c].got == Some(Canceled)
    ensures forall c :: FinishReturned(s, c) ==> s.clients[c].got == Some(Canceled)
  {
    ReachableHasInv(s);
    assert s.worker.verdict.ResultSet? ==> PublishedResult(s, s.worker.verdict.payload, s.worker.verdict.successful);
    winner :| Winner(s, winner);
    forall c | c in s.clients && (s.clients[c].got.Some? || FinishReturned(s, c))
      ensures s.clients[c].got == Some(Canceled)
    {
      assert ClientInv(s, s.clients[c]);
    }
  }

  /** Call `c` was udipe_finish(), not udipe_cancel(), and has returned. */
  predicate FinishReturned(s: State, c: CallId) {
    c in s.clients && s.clients[c].pc.Returned? && s.clients[c].canceled == None
  }

  /** Every call that has returned has its answer: a cancel call the truth about who decided the
      outcome, a finish call a result. */
  lemma ReturnedCallsHaveAnswers(s: State, c: CallId)
    requires Reachable(s) && c in s.clients
    ensures s.clients[c].canceled == Some(true) ==> s.status.outcome == FailureCanceled
    ensures s.clients[c].canceled == Some(false) ==> s.status.outcome != Unknown
    ensures s.clients[c].pc.Returned? ==> (s.clients[c].got.Some? <==> s.clients[c].canceled == None)
    ensures s.clients[c].pc.Returned? && s.clients[c].finishes && s.clients[c].canceled == None ==>
      s.clients[c].got.Some?
  {
    ReachableHasInv(s);
    assert ClientInv(s, s.clients[c]);
  }

  /** The worker's question whether the future was canceled is answered with yes exactly if some
      cancel call has won. */
  lemma PollIsTruthful(s: State)
    requires Reachable(s) && WorkerEnabled(s, Poll)
    ensures Apply(s, OfWorker(Poll)).worker == Ready(s.status.outcome == FailureCanceled)
    ensures Apply(s, OfWorker(Poll)).worker == Ready(true) <==> exists c :: Winner(s, c)
  {
    ReachableHasInv(s);
    forall c | Winner(s, c)
      ensures s.status.outcome == FailureCanceled
    {
      assert ClientInv(s, s.clients[c]);
    }
  }

  // ----- When a cancel call wins -----

  /** With an outcome decided, no further call wins. */
  lemma LateCancelStep(s: State, c: CallId, step: Step)
    requires Inv(s) && Enabled(s, step) && s.status.outcome != Unknown && c in s.clients && !Winner(s, c)
    ensures var s' := Apply(s, step); s'.status.outcome != Unknown && c in s'.clients && !Winner(s', c)
  {
    StepMovesForward(s, step);
    match step
    case OfClient(d, k) =>
      ClientFrame(s, d, k);
      ClientVerdict(s, d, k);
    case _ =>
  }

  lemma {:induction false} LateCancelNeverWins(s: State, c: CallId, steps: seq<Step>)
    requires Inv(s) && CanRun(s, steps) && s.status.outcome != Unknown && c in s.clients && !Winner(s, c)
    ensures !Winner(Run(s, steps), c)
    decreases |steps|
  {
    if |steps| > 0 {
      LateCancelStep(s, c, steps[0]);
      StepKeepsInv(s, steps[0]);
      LateCancelNeverWins(Apply(s, steps[0]), c, steps[1..]);
    }
  }

  /** With no outcome decided, a cancel call that is left alone wins. */
  lemma CancelWins(s: State, c: CallId, finish: bool) returns (steps: seq<Step>)
    requires Inv(s) && s.status.outcome == Unknown && ClientEnabled(s, c, StartCancel(finish))
    ensures CanRun(s, steps) && forall step :: step in steps ==> step.OfClient? && step.c == c
    ensures |steps| > 0 && steps[0] == OfClient(c, StartCancel(finish))
    ensures var e := Run(s, steps);
      && Winner(e, c) && e.status == s.status.(state := Canceling, outcome := FailureCanceled)
      && (!finish ==> e.clients[c].pc.Returned?)
  {
    RunThen(s, [], OfClient(c, StartCancel(finish)));
    steps := [] + [OfClient(c, StartCancel(finish))];
    RunThen(s, steps, OfClient(c, CancelDecide));
    steps := steps + [OfClient(c, CancelDecide)];
    RunThen(s, steps, OfClient(c, CancelSwap(true)));
    steps := steps + [OfClient(c, CancelSwap(true))];
  }

  ghost predicate CancelMayWin(s: State, c: CallId, finish: bool) {
    exists steps :: CanRun(s, steps) && |steps| > 0 && steps[0] == OfClient(c, StartCancel(finish))
                    && Winner(Run(s, steps), c)
  }

  /** A cancel call that starts now may win exactly if the outcome is still unknown. */
  lemma CancelMayWinIffUndecided(s: State, c: CallId, finish: bool)
    requires Reachable(s) && ClientEnabled(s, c, StartCancel(finish))
    ensures CancelMayWin(s, c, finish) <==> s.status.outcome == Unknown
  {
    ReachableHasInv(s);
    if s.status.outcome == Unknown {
      var steps := CancelWins(s, c, finish);
    } else {
      assert ClientInv(s, s.clients[c]);
      forall steps | CanRun(s, steps)
        ensures !Winner(Run(s, steps), c)
      {
        LateCancelNeverWins(s, c, steps);
      }
    }
  }

  // ----- The published outcome -----

  /** The outcome that the header promises: dependent futures may start only after a success. */
  function DocumentedOutcome(successful: bool): Outcome {
    if successful then Success else FailureInternal
  }

  /** Whatever the worker said about its own success, an accepted result is published as a
      success. So the documented outcome is the one published exactly for a successful worker. */
  lemma DocumentedOutcomeIffSuccessful(s: State, p: Payload, successful: bool)
    requires Reachable(s) && PublishedResult(s, p, successful)
    ensures s.status.outcome == Success
    ensures s.status.outcome == DocumentedOutcome(successful) <==> successful
  {
    ReachableHasInv(s);
  }

  /** The failing input: a worker that reports a failure. */
  lemma FailureIsPublishedAsSuccess(s: State, p: Payload) returns (steps: seq<Step>)
    requires Initial(s)
    ensures CanRun(s, steps)
    ensures var e := Run(s, steps);
      && e.worker == Done(ResultSet(p, false))
      && e.status.outcome == Success != DocumentedOutcome(false)
  {
    var call := OfWorker(CallSetResult(p, false));
    RunThen(s, [], call);
    steps := [] + [call];
    RunThen(s, steps, OfWorker(LoadStatus));
    steps := steps + [OfWorker(LoadStatus)];
    RunThen(s, steps, OfWorker(Decide));
    steps := steps + [OfWorker(Decide)];
    RunThen(s, steps, OfWorker(WritePayload));
    steps := steps + [OfWorker(WritePayload)];
    RunThen(s, steps, OfWorker(Swap(true)));
    steps := steps + [OfWorker(Swap(true))];
    RunThen(s, steps, OfWorker(SendNotification));
    steps := steps + [OfWorker(SendNotification)];
  }

  /** The status that the pending compare-and-swap wants to write; it is checked beforehand. */
  function Desired(pc: ClientPc): Status
    requires HasCopy(pc)
  {
    match pc
    case CancelCas(seen) => seen.(outcome := FailureCanceled, state := Canceling)
    case FinishCas(seen) => seen.(available := false)
    case WaitCas(seen) => seen.(notifyAddress := true)
    case _ => pc.seen
  }

  /** A finish call that collects always ends with the result or the cancelation, never by an
      assertion, and no participant ever reaches one of the fatal exits. */
  lemma NobodyCrashes(s: State)
    requires Reachable(s)
    ensures !s.worker.Exited?
    ensures forall c :: c in s.clients ==> !s.clients[c].pc.Crashed?
    ensures ValidPair(s.status)
  {
    ReachableHasInv(s);
    forall c | c in s.clients
      ensures !s.clients[c].pc.Crashed?
    {
      assert ClientInv(s, s.clients[c]);
    }
  }

  /** Every status that is passed to future_status_debug_check() passes it: the word, every
      call's copy of it, and what a call is about to write. */
  lemma DebugChecksPass(s: State, c: CallId)
    requires Reachable(s)
    ensures DebugCheck(s.status)
    ensures CallHasCopy(s, c) ==> DebugCheck(s.clients[c].pc.seen) && DebugCheck(Desired(s.clients[c].pc))
  {
    ReachableHasInv(s);
    if CallHasCopy(s, c) { assert ClientInv(s, s.clients[c]); }
  }

  /** The machine compares packed words where the steps compare statuses; that is the same for
      every copy anybody has. */
  lemma SwapsMayCompareWords(s: State, c: CallId)
    requires Reachable(s)
    ensures CallHasCopy(s, c) ==> SamePacked(s.clients[c].pc.seen, s.status)
    ensures HasWorkerCopy(s.worker) ==> SamePacked(s.worker.seen, s.status)
  {
    ReachableHasInv(s);
    if CallHasCopy(s, c) {
      assert ClientInv(s, s.clients[c]);
      PackedAgree(s.clients[c].pc.seen, s.status);
    }
    if HasWorkerCopy(s.worker) { PackedAgree(s.worker.seen, s.status); }
  }

  predicate CallHasCopy(s: State, c: CallId) {
    c in s.clients && HasCopy(s.clients[c].pc)
  }

  predicate SamePacked(a: Status, b: Status) {
    Pack(a) == Pack(b) <==> a == b
  }

  lemma PackedAgree(a: Status, b: Status)
    requires CountFits(a) && CountFits(b)
    ensures SamePacked(a, b)
  {
    if Pack(a) == Pack(b) { PackIsInjective(a, b); }
  }

  /** At most three compare-and-swaps of future.c succeed per future. */
  lemma AtMostThreeSwaps(s: State)
    requires Reachable(s)
    ensures s.swaps == Rank(s.status) <= 3
    ensures s.status.outcome == Success ==> s.swaps <= 2
  {
    ReachableHasInv(s);
  }

  /** The word moves forward, and the rank counts the swaps. */
  predicate MovesForward(s: State, s': State) {
    Earlier(s.status, s'.status) && Rank(s'.status) - Rank(s.status) == s'.swaps - s.swaps
  }

  lemma StepMovesForward(s: State, step: Step)
    requires Inv(s) && Enabled(s, step)
    ensures MovesForward(s, Apply(s, step))
  {
    match step
    case OfWorker(w) => WorkerActs(s, w);
    case OfClient(c, k) =>
      assert ClientInv(s, s.clients[c]);
      ClientActs(s, c, k);
    case OfEnvironment(_) =>
  }

  lemma ClientFields(s: State, c: CallId, k: ClientStep)
    requires ClientEnabled(s, c, k)
    ensures var now, next := s.status, Apply(s, OfClient(c, k)).status;
      && (k.CancelSwap? ==> next == now.(state := next.state, outcome := next.outcome))
      && (k.FinishSwap? ==> next == now.(available := next.available))
      && (k.WaitSwap? ==> next == now.(notifyAddress := next.notifyAddress))
      && (!k.CancelSwap? && !k.FinishSwap? && !k.WaitSwap? ==> next == now)
  {
  }

  /** Every step changes only the fields it is about, so no update of another thread is lost:
      cancelation and resolution touch state and outcome, taking the future touches
      `available`, waiters touch the rest; and each counted swap raises the rank by one. */
  lemma StepsChangeOnlyTheirFields(s: State, step: Step)
    requires Reachable(s) && Enabled(s, step)
    ensures MovesForward(s, Apply(s, step))
    ensures var now, next := s.status, Apply(s, step).status;
      match step
      case OfWorker(_) => next == now.(state := next.state, outcome := next.outcome)
      case OfClient(_, CancelSwap(_)) => next == now.(state := next.state, outcome := next.outcome)
      case OfClient(_, FinishSwap(_)) => next == now.(available := next.available)
      case OfClient(_, WaitSwap(_)) => next == now.(notifyAddress := next.notifyAddress)
      case OfClient(_, _) => next == now
      case OfEnvironment(_) =>
        next.available == now.available && next.state == now.state && next.outcome == now.outcome
  {
    ReachableHasInv(s);
    StepMovesForward(s, step);
    match step
    case OfWorker(w) => WorkerActs(s, w);
    case OfClient(c, k) => ClientFields(s, c, k);
    case OfEnvironment(_) =>
  }
}
