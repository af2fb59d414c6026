/**
  Waking a finisher that had to wait for its custom future.

  future_finish() requires that nobody is counted in `downstream`, waits without adding
  itself to that count, and the worker sends its notification only if the count is not
  zero. So a finisher that fell asleep before the future was resolved is never notified:
  only a spurious return of the futex call gets it out.
 */
module CustomFutureWakeup {
  import opened Options
  import opened CustomFuture
  import opened CustomFutureSafety

  /** The finisher took the future before it was resolved and has not learned more since. */
  predicate Unready(pc: ClientPc) {
    || (pc.FinishTest? && pc.seen.state != Result)
    || pc.WaitLoad? || pc.WaitCas? || pc.WaitFutex? || pc.Asleep? || pc.WaitReload?
  }

  /** A finisher goes to sleep only on a word that is not a result. */
  predicate SleepsOnUnresolved(pc: ClientPc) {
    pc.WaitCas? || pc.WaitFutex? ==> pc.seen.state != Result
  }

  /** Whoever is still unready took the future before the worker published, which the
      published word shows: not available, and hence nobody counted. */
  ghost predicate SilentInv(s: State) {
    && (forall c :: c in s.clients ==> SleepsOnUnresolved(s.clients[c].pc))
    && (s.worker.Notify? ==>
          && (!s.worker.published.available ==> s.worker.published.downstream == 0)
          && forall c :: c in s.clients && Unready(s.clients[c].pc) ==> !s.worker.published.available)
  }

  lemma InitialIsSilent(s: State)
    requires Initial(s)
    ensures SilentInv(s)
  {
  }

  lemma WorkerKeepsSilent(s: State, w: WorkerStep)
    requires Inv(s) && SilentInv(s) && WorkerEnabled(s, w)
    ensures SilentInv(Apply(s, OfWorker(w)))
  {
    if w == Swap(true) {
      forall c | c in s.clients && Unready(s.clients[c].pc)
        ensures !s.status.available
      {
        assert ClientInv(s, s.clients[c]);
      }
    }
  }

  lemma ClientKeepsSilent(s: State, c: CallId, k: ClientStep)
    requires Inv(s) && SilentInv(s) && ClientEnabled(s, c, k)
    ensures SilentInv(Apply(s, OfClient(c, k)))
  {
    ClientFrame(s, c, k);
    StillOnUnresolved(s, c, k);
    if s.worker.Notify? {
      NewlyUnready(s, c, k);
    }
  }

  lemma StillOnUnresolved(s: State, c: CallId, k: ClientStep)
    requires ClientEnabled(s, c, k) && SleepsOnUnresolved(s.clients[c].pc)
    ensures SleepsOnUnresolved(Apply(s, OfClient(c, k)).clients[c].pc)
  {
  }

  /** Once the future is resolved, no call becomes unready any more. */
  lemma NewlyUnready(s: State, c: CallId, k: ClientStep)
    requires s.status.state == Result && ClientEnabled(s, c, k)
    ensures Unready(Apply(s, OfClient(c, k)).clients[c].pc) ==> Unready(s.clients[c].pc)
  {
  }

  lemma StepKeepsSilent(s: State, step: Step)
    requires Inv(s) && SilentInv(s) && Enabled(s, step)
    ensures SilentInv(Apply(s, step))
  {
    match step
    case OfWorker(w) => WorkerKeepsSilent(s, w);
    case OfClient(c, k) => ClientKeepsSilent(s, c, k);
    case OfEnvironment(_) =>
  }

  lemma {:induction false} RunKeepsSilent(s: State, steps: seq<Step>)
    requires Inv(s) && SilentInv(s) && CanRun(s, steps)
    ensures SilentInv(Run(s, steps))
    decreases |steps|
  {
    if |steps| > 0 {
      StepKeepsInv(s, steps[0]);
      StepKeepsSilent(s, steps[0]);
      RunKeepsSilent(Apply(s, steps[0]), steps[1..]);
    }
  }

  lemma ReachableIsSilent(s: State)
    requires Reachable(s)
    ensures Inv(s) && SilentInv(s)
  {
    var s0: State, steps: seq<Step> :| Initial(s0) && CanRun(s0, steps) && Run(s0, steps) == s;
    InitialHasInv(s0);
    InitialIsSilent(s0);
    RunKeepsInv(s0, steps);
    RunKeepsSilent(s0, steps);
  }

  // ----- Sleepers stay asleep -----

  predicate IsAsleep(s: State, c: CallId) {
    c in s.clients && s.clients[c].pc.Asleep?
  }

  lemma SleeperStaysAsleep(s: State, c: CallId, step: Step)
    requires SilentInv(s) && IsAsleep(s, c)
    requires Enabled(s, step) && step != OfClient(c, SpuriousWake)
    ensures IsAsleep(Apply(s, step), c)
  {
    match step
    case OfClient(d, k) => ClientFrame(s, d, k);
    case _ =>
  }

  /** A finisher that sleeps stays asleep through every continuation in which its futex call
      does not return spuriously, the worker's publication and notification included. */
  lemma {:induction false} SleeperIsNeverNotified(s: State, c: CallId, steps: seq<Step>)
    requires Inv(s) && SilentInv(s) && IsAsleep(s, c)
    requires CanRun(s, steps) && OfClient(c, SpuriousWake) !in steps
    ensures IsAsleep(Run(s, steps), c)
    decreases |steps|
  {
    if |steps| > 0 {
      SleeperStaysAsleep(s, c, steps[0]);
      StepKeepsInv(s, steps[0]);
      StepKeepsSilent(s, steps[0]);
      SleeperIsNeverNotified(Apply(s, steps[0]), c, steps[1..]);
    }
  }

  /** The same from the very start: a finish call that fell asleep in the course of a run never
      returns in any continuation without a spurious return of its futex call. */
  lemma FinishNeverReturnsOnceAsleep(s: State, c: CallId, before: seq<Step>, after: seq<Step>)
    requires Initial(s) && CanRun(s, before) && CanRun(Run(s, before), after)
    requires IsAsleep(Run(s, before), c) && OfClient(c, SpuriousWake) !in after
    ensures IsAsleep(Run(Run(s, before), after), c)
  {
    assert Reachable(Run(s, before));
    ReachableIsSilent(Run(s, before));
    SleeperIsNeverNotified(Run(s, before), c, after);
  }

  // ----- Everybody else gets through -----

  lemma ResultStays(s: State, step: Step)
    requires Inv(s) && s.status.state == Result && Enabled(s, step)
    ensures Apply(s, step).status.state == Result
  {
    StepMovesForward(s, step);
  }

  /** Once the future is resolved, nobody falls asleep any more. */
  lemma NobodyFallsAsleep(s: State, c: CallId, k: ClientStep)
    requires s.status.state == Result && ClientEnabled(s, c, k) && SleepsOnUnresolved(s.clients[c].pc)
    ensures Apply(s, OfClient(c, k)).clients[c].pc.Asleep? ==> s.clients[c].pc.Asleep?
  {
  }

  lemma AwakeStaysAwake(s: State, c: CallId, step: Step)
    requires Inv(s) && SilentInv(s) && s.status.state == Result && Enabled(s, step)
    requires c in s.clients && !IsAsleep(s, c)
    ensures c in Apply(s, step).clients && !IsAsleep(Apply(s, step), c)
  {
    match step
    case OfClient(d, k) =>
      ClientFrame(s, d, k);
      NobodyFallsAsleep(s, d, k);
    case _ =>
  }

  /** From the publication on, the finish call sleeps at the end of a run exactly if it slept
      when the result was published, wherever else in its wait it may have been. */
  lemma {:induction false} AsleepIffAsleepAtPublication(s: State, c: CallId, steps: seq<Step>)
    requires Inv(s) && SilentInv(s) && s.status.state == Result && c in s.clients
    requires CanRun(s, steps) && OfClient(c, SpuriousWake) !in steps
    ensures c in Run(s, steps).clients
    ensures IsAsleep(Run(s, steps), c) <==> IsAsleep(s, c)
    decreases |steps|
  {
    if |steps| > 0 {
      var s' := Apply(s, steps[0]);
      if IsAsleep(s, c) { SleeperStaysAsleep(s, c, steps[0]); } else { AwakeStaysAwake(s, c, steps[0]); }
      StepKeepsInv(s, steps[0]);
      StepKeepsSilent(s, steps[0]);
      ResultStays(s, steps[0]);
      AsleepIffAsleepAtPublication(s', c, steps[1..]);
    }
  }

  /** A call that has started and not returned. */
  predicate Ongoing(pc: ClientPc) {
    BeforeTaking(pc) || AfterTaking(pc)
  }

  /** The next step of an ongoing call that is awake. */
  function CallMove(now: Status, pc: ClientPc): ClientStep
    requires Ongoing(pc) && !pc.Asleep?
  {
    match pc
    case CancelCheck(_) => CancelDecide
    case CancelCas(seen) => CancelSwap(seen == now)
    case FinishCas(seen) => FinishSwap(seen == now)
    case FinishTest(_) => FinishDecide
    case WaitLoad => WaitStart
    case WaitCas(_) => WaitSwap(false)
    case WaitFutex(_) => WaitSleep
    case WaitReload => WaitAgain
    case Collect(_) => CollectResult
  }

  /** A bound on the steps of a call that is left alone: a stale copy of the word costs one
      failed swap. */
  function StepsLeft(now: Status, pc: ClientPc): nat {
    match pc
    case CancelCheck(seen) => if seen == now then 10 else 12
    case CancelCas(seen) => if seen == now then 9 else 11
    case FinishCas(seen) => if seen == now then 7 else 8
    case FinishTest(_) => 6
    case WaitLoad => 5
    case WaitCas(_) => 4
    case WaitFutex(_) => 3
    case WaitReload => 2
    case Collect(_) => 1
    case _ => 0
  }

  /** Before it takes the future, a call that is left alone makes progress on every future. */
  lemma EarlyCallMoves(s: State, c: CallId)
    requires LocalInv(s, c) && BeforeTaking(s.clients[c].pc)
    ensures var k := CallMove(s.status, s.clients[c].pc);
      && ClientEnabled(s, c, k)
      && var s' := Apply(s, OfClient(c, k));
      && c in s'.clients
      && (s'.clients[c].pc.Returned? || Ongoing(s'.clients[c].pc))
      && !IsAsleep(s', c) && StepsLeft(s'.status, s'.clients[c].pc) < StepsLeft(s.status, s.clients[c].pc)
      && (s.clients[c].canceled == None && !s.clients[c].pc.FinishCas? ==>
            s'.clients[c].canceled.Some? || s'.clients[c].pc.CancelCheck? || s'.clients[c].pc.CancelCas?)
  {
  }

  /** After that, it makes progress on a resolved future unless it sleeps. */
  lemma LateCallMoves(s: State, c: CallId)
    requires LocalInv(s, c) && SleepsOnUnresolved(s.clients[c].pc) && s.status.state == Result
    requires AfterTaking(s.clients[c].pc) && !IsAsleep(s, c)
    ensures var k := CallMove(s.status, s.clients[c].pc);
      && ClientEnabled(s, c, k)
      && var s' := Apply(s, OfClient(c, k));
      && c in s'.clients
      && (s'.clients[c].pc.Returned? || AfterTaking(s'.clients[c].pc))
      && !IsAsleep(s', c) && StepsLeft(s'.status, s'.clients[c].pc) < StepsLeft(s.status, s.clients[c].pc)
  {
  }

  /** Alone, an awake call on a resolved future runs to its end, however outdated its copy of the
      word is. */
  lemma {:induction false} AwakeCallReturns(s: State, c: CallId) returns (steps: seq<Step>)
    requires Inv(s) && SilentInv(s) && s.status.state == Result && c in s.clients && !IsAsleep(s, c)
    requires Ongoing(s.clients[c].pc) || s.clients[c].pc.Returned?
    ensures CanRun(s, steps) && OfClient(c, SpuriousWake) !in steps
    ensures forall step :: step in steps ==> step.OfClient? && step.c == c
    ensures c in Run(s, steps).clients && Run(s, steps).clients[c].pc.Returned?
    decreases StepsLeft(s.status, s.clients[c].pc)
  {
    if s.clients[c].pc.Returned? {
      steps := [];
    } else {
      var first := OfClient(c, CallMove(s.status, s.clients[c].pc));
      assert LocalInv(s, c);
      if BeforeTaking(s.clients[c].pc) { EarlyCallMoves(s, c); } else { LateCallMoves(s, c); }
      StepKeepsInv(s, first);
      StepKeepsSilent(s, first);
      ResultStays(s, first);
      var rest := AwakeCallReturns(Apply(s, first), c);
      steps := [first] + rest;
      assert steps[1..] == rest;
    }
  }

  /** Alone, a cancel call comes to its answer on every future, resolved or not. */
  lemma {:induction false} CancelCallDecides(s: State, c: CallId) returns (steps: seq<Step>)
    requires Inv(s) && c in s.clients
    requires s.clients[c].pc.CancelCheck? || s.clients[c].pc.CancelCas? || s.clients[c].canceled.Some?
    ensures CanRun(s, steps) && forall step :: step in steps ==> step.OfClient? && step.c == c
    ensures c in Run(s, steps).clients && Run(s, steps).clients[c].canceled.Some?
    decreases StepsLeft(s.status, s.clients[c].pc)
  {
    if s.clients[c].canceled.Some? {
      steps := [];
    } else {
      var first := OfClient(c, CallMove(s.status, s.clients[c].pc));
      assert ClientInv(s, s.clients[c]) && LocalInv(s, c);
      EarlyCallMoves(s, c);
      StepKeepsInv(s, first);
      var rest := CancelCallDecides(Apply(s, first), c);
      steps := [first] + rest;
      assert steps[1..] == rest;
    }
  }

  /** Without a spurious return of its futex call, the call can still return. */
  ghost predicate CanReturn(s: State, c: CallId) {
    exists steps :: CanRun(s, steps) && OfClient(c, SpuriousWake) !in steps
                    && c in Run(s, steps).clients && Run(s, steps).clients[c].pc.Returned?
  }

  /** Once the future is resolved, a call that has started can return exactly if it is not asleep. */
  lemma ReturnsIffAwake(s: State, c: CallId)
    requires Reachable(s) && s.status.state == Result
    requires c in s.clients && !s.clients[c].pc.Fresh?
    ensures CanReturn(s, c) <==> !IsAsleep(s, c)
  {
    ReachableIsSilent(s);
    if IsAsleep(s, c) {
      forall steps | CanRun(s, steps) && OfClient(c, SpuriousWake) !in steps
        ensures IsAsleep(Run(s, steps), c)
      {
        SleeperIsNeverNotified(s, c, steps);
      }
    } else {
      assert ClientInv(s, s.clients[c]);
      var steps := AwakeCallReturns(s, c);
    }
  }

  /** What a lost wake-up costs: on a resolved future, a spurious return of the futex call is
      enough for a sleeping finish call to return. */
  lemma SpuriousWakeFreesSleeper(s: State, c: CallId) returns (steps: seq<Step>)
    requires Reachable(s) && s.status.state == Result && IsAsleep(s, c)
    ensures |steps| > 0 && steps[0] == OfClient(c, SpuriousWake)
    ensures CanRun(s, steps) && c in Run(s, steps).clients && Run(s, steps).clients[c].pc.Returned?
  {
    var wake := OfClient(c, SpuriousWake);
    ReachableIsSilent(s);
    StepKeepsInv(s, wake);
    StepKeepsSilent(s, wake);
    var rest := AwakeCallReturns(Apply(s, wake), c);
    steps := [wake] + rest;
    assert steps[1..] == rest;
  }

  /** The notification is for sleepers that are counted: it leaves a call asleep exactly if the
      published word counts nobody or does not ask for a wake-up by address. */
  lemma NotificationReachesCounted(s: State, c: CallId)
    requires s.worker.Notify? && IsAsleep(s, c)
    ensures IsAsleep(Apply(s, OfWorker(SendNotification)), c) <==>
      s.worker.published.downstream == 0 || !s.worker.published.notifyAddress
  {
  }

  /** udipe_finish() on a resolved future, left alone, returns with the result: the published
      payload, or the cancelation. */
  lemma FinishOfResolvedDelivers(s: State, c: CallId) returns (steps: seq<Step>)
    requires Reachable(s) && s.status.state == Result && ClientEnabled(s, c, StartFinish)
    ensures CanRun(s, steps) && |steps| > 0 && steps[0] == OfClient(c, StartFinish)
    ensures Resolved(s.worker) && c in Run(s, steps).clients
    ensures Run(s, steps).clients[c].pc.Returned?
    ensures Run(s, steps).clients[c].got ==
      match s.worker.verdict
      case ResultSet(p, _) => Some(Custom(p))
      case CancelAcknowledged => Some(Canceled)
  {
    ReachableHasInv(s);
    RunThen(s, [], OfClient(c, StartFinish));
    steps := [] + [OfClient(c, StartFinish)];
    RunThen(s, steps, OfClient(c, FinishSwap(true)));
    steps := steps + [OfClient(c, FinishSwap(true))];
    RunThen(s, steps, OfClient(c, FinishDecide));
    steps := steps + [OfClient(c, FinishDecide)];
    RunThen(s, steps, OfClient(c, CollectResult));
    steps := steps + [OfClient(c, CollectResult)];
  }

  // ----- What the caller can check -----

  lemma LateFinisherStep(s: State, c: CallId, step: Step)
    requires Inv(s) && s.status.state == Result && Enabled(s, step)
    requires c in s.clients && !Unready(s.clients[c].pc)
    ensures c in Apply(s, step).clients && !Unready(Apply(s, step).clients[c].pc)
  {
    match step
    case OfClient(d, k) =>
      ClientFrame(s, d, k);
      NewlyUnready(s, d, k);
    case _ =>
  }

  /** A call that starts to finish a resolved future never has to wait. */
  lemma {:induction false} LateFinisherNeverWaits(s: State, c: CallId, steps: seq<Step>)
    requires Inv(s) && s.status.state == Result && CanRun(s, steps)
    requires c in s.clients && !Unready(s.clients[c].pc)
    ensures c in Run(s, steps).clients && !Unready(Run(s, steps).clients[c].pc)
    decreases |steps|
  {
    if |steps| > 0 {
      StepKeepsInv(s, steps[0]);
      LateFinisherStep(s, c, steps[0]);
      ResultStays(s, steps[0]);
      LateFinisherNeverWaits(Apply(s, steps[0]), c, steps[1..]);
    }
  }

  /** What the worker does next when it is left alone: it acknowledges a cancelation that it has
      seen, and wants to set `p` otherwise. */
  function WorkerMove(s: State, p: Payload): WorkerStep
    requires !s.worker.Done? && !s.worker.Exited?
  {
    match s.worker
    case Ready(sawCancel) => if sawCancel then CallAcknowledge else CallSetResult(p, true)
    case SetLoad(_, _) => LoadStatus
    case AckLoad => LoadStatus
    case SetCheck(_, _, _, _) => Decide
    case AckCheck(_) => Decide
    case SetWrite(_, _, _) => WritePayload
    case SetCas(_, _, seen) => Swap(s.status == seen)
    case AckCas(seen) => Swap(s.status == seen)
    case Notify(_, _) => SendNotification
  }

  /** A bound on the steps of a worker that is left alone: a stale copy of the word costs one
      failed swap. */
  function WorkLeft(s: State): nat {
    match s.worker
    case Ready(_) => 20
    case SetCheck(_, _, seen, _) => if seen == s.status then 13 else 18
    case SetWrite(_, _, seen) => if seen == s.status then 12 else 17
    case SetCas(_, _, seen) => if seen == s.status then 11 else 16
    case SetLoad(_, _) => 14
    case AckLoad => 6
    case AckCheck(seen) => if seen == s.status then 5 else 9
    case AckCas(seen) => if seen == s.status then 4 else 8
    case Notify(_, _) => 2
    case _ => 0
  }

  /** Nothing keeps the worker from publishing `p` as a success. */
  predicate Publishing(s: State, p: Payload) {
    match s.worker
    case Ready(_) => s.status.state == Processing
    case SetLoad(q, ok) => s.status.state == Processing && q == p && ok
    case SetCheck(q, ok, seen, _) => s.status.state == Processing && seen == s.status && q == p && ok
    case SetWrite(q, ok, seen) => s.status.state == Processing && seen == s.status && q == p && ok
    case SetCas(q, ok, seen) => s.status.state == Processing && seen == s.status && q == p && ok
    case Notify(verdict, _) => verdict == ResultSet(p, true)
    case Done(verdict) => verdict == ResultSet(p, true)
    case _ => false
  }

  lemma WorkerMoves(s: State, p: Payload)
    requires ValidPair(s.status) && WorkerInv(s) && !s.worker.Done?
    ensures WorkerEnabled(s, WorkerMove(s, p))
    ensures var s' := Apply(s, OfWorker(WorkerMove(s, p)));
      && WorkLeft(s') < WorkLeft(s)
      && (Publishing(s, p) ==> Publishing(s', p))
  {
  }

  /** From every state, the worker alone resolves the future and is done. */
  lemma {:induction false} WorkerEnds(s: State, p: Payload) returns (steps: seq<Step>)
    requires Inv(s)
    ensures CanRun(s, steps) && forall step :: step in steps ==> step.OfWorker?
    ensures Run(s, steps).worker.Done?
    ensures Publishing(s, p) ==> Publishing(Run(s, steps), p)
    decreases WorkLeft(s)
  {
    if s.worker.Done? {
      steps := [];
    } else {
      var first := OfWorker(WorkerMove(s, p));
      WorkerMoves(s, p);
      StepKeepsInv(s, first);
      var rest := WorkerEnds(Apply(s, first), p);
      steps := [first] + rest;
      assert steps[1..] == rest;
    }
  }

  /** future_finish() on an unresolved future may go to sleep. */
  lemma FinisherFallsAsleep(s: State, c: CallId) returns (steps: seq<Step>)
    requires c in s.clients && s.clients[c].pc == FinishCas(s.status)
    requires s.status.state != Result && s.status.available && s.status.downstream == 0
    ensures CanRun(s, steps) && IsAsleep(Run(s, steps), c)
    ensures Run(s, steps).worker == s.worker
    ensures Run(s, steps).status == s.status.(available := false, notifyAddress := true)
  {
    RunThen(s, [], OfClient(c, FinishSwap(true)));
    steps := [] + [OfClient(c, FinishSwap(true))];
    RunThen(s, steps, OfClient(c, FinishDecide));
    steps := steps + [OfClient(c, FinishDecide)];
    RunThen(s, steps, OfClient(c, WaitStart));
    steps := steps + [OfClient(c, WaitStart)];
    RunThen(s, steps, OfClient(c, WaitSwap(true)));
    steps := steps + [OfClient(c, WaitSwap(true))];
    RunThen(s, steps, OfClient(c, WaitSleep));
    steps := steps + [OfClient(c, WaitSleep)];
  }

  /** The two calls that run future_finish(): udipe_finish(), and udipe_cancel() with `finish`. */
  predicate StartsFinishing(k: ClientStep) {
    k == StartFinish || k == StartCancel(true)
  }

  /** Either of them may get as far as future_finish() with an up-to-date copy of the word. */
  lemma CallReachesFinish(s: State, c: CallId, start: ClientStep) returns (steps: seq<Step>)
    requires Inv(s) && s.status.state != Result
    requires StartsFinishing(start) && ClientEnabled(s, c, start)
    ensures |steps| > 0 && steps[0] == OfClient(c, start)
    ensures CanRun(s, steps)
    ensures var e := Run(s, steps);
      && c in e.clients && e.clients[c].pc == FinishCas(e.status) && e.worker == s.worker
      && e.status.state != Result && e.status.available && e.status.downstream == 0
      && (start == StartFinish ==> e.status == s.status)
  {
    RunThen(s, [], OfClient(c, start));
    steps := [] + [OfClient(c, start)];
    if start == StartCancel(true) {
      RunThen(s, steps, OfClient(c, CancelDecide));
      steps := steps + [OfClient(c, CancelDecide)];
      if s.status.outcome == Unknown {
        RunThen(s, steps, OfClient(c, CancelSwap(true)));
        steps := steps + [OfClient(c, CancelSwap(true))];
      }
    }
  }

  /** The result is published, the worker has sent its notification and is done, and the
      finish call sleeps. */
  predicate WakeupLost(s: State, c: CallId) {
    IsAsleep(s, c) && s.status.state == Result && s.worker.Done?
  }

  /** The wake-up can be lost whenever a finishing call starts on an unresolved future,
      whatever the worker and the other calls are doing then. A worker that has not started to
      set its result can still deliver it to udipe_finish(). */
  lemma LostWakeupIsReachable(s: State, c: CallId, start: ClientStep, p: Payload)
      returns (steps: seq<Step>)
    requires Reachable(s) && s.status.state != Result
    requires StartsFinishing(start) && ClientEnabled(s, c, start)
    ensures |steps| > 0 && steps[0] == OfClient(c, start)
    ensures CanRun(s, steps) && WakeupLost(Run(s, steps), c)
    ensures start == StartFinish && s.worker.Ready? && s.status.state == Processing ==>
      Run(s, steps).worker == Done(ResultSet(p, true))
  {
    ReachableIsSilent(s);
    var called := CallReachesFinish(s, c, start);
    var asleep := FinisherFallsAsleep(Run(s, called), c);
    RunAppend(s, called, asleep);
    steps := called + asleep;
    var middle := Run(s, steps);
    RunKeepsInv(s, steps);
    RunKeepsSilent(s, steps);
    var more := WorkerEnds(middle, p);
    SleeperIsNeverNotified(middle, c, more);
    RunKeepsInv(middle, more);
    RunAppend(s, steps, more);
    steps := steps + more;
  }

  /** Making the call now may end in a lost wake-up. */
  ghost predicate MayHang(s: State, c: CallId, start: ClientStep) {
    exists steps :: CanRun(s, steps) && |steps| > 0 && steps[0] == OfClient(c, start)
                    && WakeupLost(Run(s, steps), c)
  }

  /** The exact condition, which a caller can check before the call: finishing, on its own or as
      part of a cancelation, is safe exactly on a resolved future. */
  lemma FinishMayHangIffUnresolved(s: State, c: CallId, start: ClientStep)
    requires Reachable(s) && StartsFinishing(start) && ClientEnabled(s, c, start)
    ensures MayHang(s, c, start) <==> s.status.state != Result
  {
    if s.status.state == Result {
      ReachableHasInv(s);
      forall steps | CanRun(s, steps)
        ensures !IsAsleep(Run(s, steps), c)
      {
        LateFinisherNeverWaits(s, c, steps);
      }
    } else {
      var steps := LostWakeupIsReachable(s, c, start, []);
    }
  }
}
