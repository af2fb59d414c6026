/**
  Custom futures: the status-word protocol of future.c.

  One worker thread tries to publish a result or acknowledges a cancelation, any number
  of client calls try to cancel, and one client call finishes the future, all by weak
  compare-and-swap loops on a single status word. A state holds the word, the payload
  and the program counter of every participant with its private copy of the word. Each
  step is one load, one compare-and-swap, one payload write, one futex call or one local
  decision; a weak compare-and-swap may fail for no reason.
 */
module CustomFuture {
  import opened Options

  /** future_state_t */
  datatype FutureState = Uninitialized | Waiting | Processing | Canceling | Result

  /** future_outcome_t */
  datatype Outcome = Unknown | Success | FailureDependency | FailureInternal | FailureCanceled

  /** The fields of future_status_t that change; the type of a custom future is constant,
      and the overflow and reserved fields stay zero. */
  datatype Status = Status(
    downstream: nat,
    available: bool,
    state: FutureState,
    outcome: Outcome,
    notifyAddress: bool,
    notifyEvent: bool)

  /** udipe_custom_payload_t */
  type Payload = seq<nat>

  /** udipe_result_t of a finished custom future */
  datatype FinishResult = Custom(payload: Payload) | DependencyFailed | Canceled

  /** What the worker's last call told it. */
  datatype Verdict = ResultSet(payload: Payload, successful: bool) | CancelAcknowledged

  datatype WorkerPc =
    | Ready(sawCancel: bool)
    | SetLoad(payload: Payload, successful: bool)
    | SetCheck(payload: Payload, successful: bool, seen: Status, written: bool)
    | SetWrite(payload: Payload, successful: bool, seen: Status)
    | SetCas(payload: Payload, successful: bool, seen: Status)
    | AckLoad
    | AckCheck(seen: Status)
    | AckCas(seen: Status)
    | Notify(verdict: Verdict, published: Status)
    | Done(verdict: Verdict)
    | Exited                           // an ensure() or exit_with_error() was hit

  datatype ClientPc =
    | Fresh
    | CancelCheck(seen: Status)
    | CancelCas(seen: Status)
    | FinishCas(seen: Status)
    | FinishTest(seen: Status)
    | WaitLoad
    | WaitCas(seen: Status)
    | WaitFutex(seen: Status)          // about to sleep unless the word differs from `seen`
    | Asleep(seen: Status)
    | WaitReload
    | Collect(seen: Status)
    | Returned
    | Crashed                          // a debug assertion or exit_with_error() was hit

  /** One call of udipe_cancel() or udipe_finish(). `finishes`: it runs future_finish();
      `collects`: it wants the result; `canceled`: what udipe_cancel() will return. */
  datatype Client = Client(
    pc: ClientPc, finishes: bool, collects: bool, canceled: Option<bool>, got: Option<FinishResult>)

  type CallId = nat

  datatype State = State(
    status: Status,
    payload: Option<Payload>,
    worker: WorkerPc,
    clients: map<CallId, Client>,
    swaps: nat)                        // successful compare-and-swaps of future.c so far

  datatype WorkerStep =
    | Poll                             // udipe_custom_canceled()
    | CallSetResult(payload: Payload, successful: bool)
    | CallAcknowledge
    | LoadStatus
    | Decide
    | WritePayload
    | Swap(ok: bool)
    | SendNotification

  datatype ClientStep =
    | StartCancel(finish: bool)
    | StartFinish
    | CancelDecide
    | CancelSwap(ok: bool)
    | FinishSwap(ok: bool)
    | FinishDecide
    | WaitStart
    | WaitSwap(ok: bool)
    | WaitSleep
    | SpuriousWake
    | WaitAgain
    | CollectResult

  datatype Step =
    | OfWorker(w: WorkerStep)
    | OfClient(c: CallId, k: ClientStep)
    | OfEnvironment(next: Status)      // udipe_wait() and dependent futures

  // ----- future_custom_check_canceled() -----

  datatype Checked = NotCanceled | IsCanceled | Fatal

  function CheckCanceled(status: Status): Checked {
    match status.outcome
    case Unknown => if status.state == Processing then NotCanceled else Fatal
    case FailureCanceled => if status.state == Canceling then IsCanceled else Fatal
    case _ => Fatal
  }

  // ----- future_status_debug_check() -----

  /** The debug assertions about a status of a custom future. */
  predicate DebugCheck(st: Status) {
    && (st.downstream == 0 || st.available)
    && st.downstream <= MAX_DOWNSTREAM
    && st.state != Uninitialized && st.state != Waiting
    && (st.outcome == Unknown <==> st.state == Processing)
    && (st.outcome == Success ==> st.state == Result)
    && st.outcome != FailureDependency
  }

  // ----- Steps -----

  /** A compare-and-swap may succeed only if the word still is the copy. */
  predicate SwapAllowed(now: Status, seen: Status, ok: bool) {
    ok ==> now == seen
  }

  /** MAX_DOWNSTREAM_COUNT */
  const MAX_DOWNSTREAM: nat := 0xFFFF

  /** Waiters may change their count and the notification requests, and only as long as
      nobody has taken the future. From the start of a finishing call on, nobody waits. */
  predicate EnvironmentAllowed(s: State, next: Status) {
    && s.status.available
    && next == s.status.(downstream := next.downstream, notifyAddress := next.notifyAddress,
                         notifyEvent := next.notifyEvent)
    && next.downstream <= MAX_DOWNSTREAM
    && (NobodyFinishes(s) || next.downstream == 0)
  }

  /** The duty of whoever calls udipe_finish(), or udipe_cancel() with `finish`: nobody else
      finishes the future, and every waiter has left. */
  predicate MayFinish(s: State) {
    NobodyFinishes(s) && s.status.downstream == 0
  }

  /** At most one call finishes the future. */
  predicate NobodyFinishes(s: State) {
    forall c :: c in s.clients ==> !s.clients[c].finishes
  }

  predicate WorkerEnabled(s: State, w: WorkerStep) {
    match w
    case Poll => s.worker.Ready?
    case CallSetResult(_, _) => s.worker.Ready?
    case CallAcknowledge => s.worker == Ready(true)
    case LoadStatus => s.worker.SetLoad? || s.worker.AckLoad?
    case Decide => s.worker.SetCheck? || s.worker.AckCheck?
    case WritePayload => s.worker.SetWrite?
    case Swap(ok) => (s.worker.SetCas? || s.worker.AckCas?) && SwapAllowed(s.status, s.worker.seen, ok)
    case SendNotification => s.worker.Notify?
  }

  predicate ClientEnabled(s: State, c: CallId, k: ClientStep) {
    && c in s.clients
    && var pc := s.clients[c].pc;
       match k
       case StartCancel(finish) => pc.Fresh? && (finish ==> MayFinish(s))
       case StartFinish => pc.Fresh? && MayFinish(s)
       case CancelDecide => pc.CancelCheck?
       case CancelSwap(ok) => pc.CancelCas? && SwapAllowed(s.status, pc.seen, ok)
       case FinishSwap(ok) => pc.FinishCas? && SwapAllowed(s.status, pc.seen, ok)
       case FinishDecide => pc.FinishTest?
       case WaitStart => pc.WaitLoad?
       case WaitSwap(ok) => pc.WaitCas? && (pc.seen.notifyAddress || SwapAllowed(s.status, pc.seen, ok))
       case WaitSleep => pc.WaitFutex?
       case SpuriousWake => pc.Asleep?
       case WaitAgain => pc.WaitReload?
       case CollectResult => pc.Collect?
  }

  predicate Enabled(s: State, step: Step) {
    match step
    case OfWorker(w) => WorkerEnabled(s, w)
    case OfClient(c, k) => ClientEnabled(s, c, k)
    case OfEnvironment(next) => EnvironmentAllowed(s, next)
  }

  function WorkerTo(s: State, pc: WorkerPc): State {
    s.(worker := pc)
  }

  function ClientTo(s: State, c: CallId, client: Client): State {
    s.(clients := s.clients[c := client])
  }

  function Goto(s: State, c: CallId, pc: ClientPc): State
    requires c in s.clients
  {
    ClientTo(s, c, s.clients[c].(pc := pc))
  }

  /** The worker side: udipe_custom_canceled(), udipe_custom_acknowledge_cancel(),
      udipe_custom_try_set_result(). The `successful` argument is remembered and decides
      nothing. */
  function ApplyWorker(s: State, w: WorkerStep): State
    requires WorkerEnabled(s, w)
  {
    match w
    case Poll =>
      (match CheckCanceled(s.status)
       case NotCanceled => WorkerTo(s, Ready(false))
       case IsCanceled => WorkerTo(s, Ready(true))
       case Fatal => WorkerTo(s, Exited))
    case CallSetResult(p, successful) => WorkerTo(s, SetLoad(p, successful))
    case CallAcknowledge => WorkerTo(s, AckLoad)
    case LoadStatus =>
      if s.worker.AckLoad? then WorkerTo(s, AckCheck(s.status))
      else WorkerTo(s, SetCheck(s.worker.payload, s.worker.successful, s.status, false))
    case Decide =>
      (match s.worker
       case SetCheck(p, successful, seen, written) =>
         (match CheckCanceled(seen)
          case IsCanceled => WorkerTo(s, AckLoad)
          case NotCanceled =>
            WorkerTo(s, if written then SetCas(p, successful, seen) else SetWrite(p, successful, seen))
          case Fatal => WorkerTo(s, Exited))
       case AckCheck(seen) =>
         WorkerTo(s, if CheckCanceled(seen) == IsCanceled then AckCas(seen) else Exited))
    case WritePayload =>
      s.(payload := Some(s.worker.payload),
         worker := SetCas(s.worker.payload, s.worker.successful, s.worker.seen))
    case Swap(ok) =>
      (match s.worker
       case SetCas(p, successful, seen) =>
         if ok then
           var desired := seen.(state := Result, outcome := Success);
           s.(status := desired, worker := Notify(ResultSet(p, successful), desired), swaps := s.swaps + 1)
         else WorkerTo(s, SetCheck(p, successful, s.status, true))
       case AckCas(seen) =>
         if ok then
           var desired := seen.(state := Result);
           s.(status := desired, worker := Notify(CancelAcknowledged, desired), swaps := s.swaps + 1)
         else WorkerTo(s, AckCheck(s.status)))
    case SendNotification =>
      var woken := if Wakes(s.worker.published) then WakeAll(s.clients) else s.clients;
      s.(worker := Done(s.worker.verdict), clients := woken)
  }

  /** future_notify_eager_outcome(): a futex wake is sent only if somebody is counted. */
  predicate Wakes(published: Status) {
    published.downstream != 0 && published.notifyAddress
  }

  /** wake_by_address_all() */
  function WakeAll(clients: map<CallId, Client>): map<CallId, Client> {
    map c | c in clients :: if clients[c].pc.Asleep? then clients[c].(pc := WaitReload) else clients[c]
  }

  /** The client side: udipe_cancel(), udipe_finish(), future_finish() and the address wait. */
  function ApplyClient(s: State, c: CallId, k: ClientStep): State
    requires ClientEnabled(s, c, k)
  {
    var client := s.clients[c];
    match k
    case StartCancel(finish) =>
      ClientTo(s, c, Client(CancelCheck(s.status), finish, false, None, None))
    case CancelDecide =>
      var seen := client.pc.seen;
      if seen.outcome == Unknown then
        Goto(s, c, if seen.state == Waiting || seen.state == Processing then CancelCas(seen) else Crashed)
      else CancelEnds(s, c, client, seen, false)
    case CancelSwap(ok) =>
      var seen := client.pc.seen;
      if ok then
        var desired := seen.(outcome := FailureCanceled, state := Canceling);
        CancelEnds(s.(status := desired, swaps := s.swaps + 1), c, client, desired, true)
      else Goto(s, c, CancelCheck(s.status))
    case StartFinish =>
      ClientTo(s, c, Client(FinishCas(s.status), true, true, None, None))
    case FinishSwap(ok) =>
      var seen := client.pc.seen;
      if seen.downstream != 0 || !seen.available then Goto(s, c, Crashed)
      else if ok then
        var desired := seen.(available := false);
        Goto(s.(status := desired, swaps := s.swaps + 1), c, FinishTest(desired))
      else Goto(s, c, FinishCas(s.status))
    case FinishDecide =>
      Goto(s, c, if client.pc.seen.state == Result then Collect(client.pc.seen) else WaitLoad)
    case WaitStart =>
      Goto(s, c, if s.status.state == Result then Collect(s.status) else WaitCas(s.status))
    case WaitSwap(ok) =>
      var seen := client.pc.seen;
      if seen.notifyAddress then Goto(s, c, WaitFutex(seen))
      else if ok then
        var desired := seen.(notifyAddress := true);
        Goto(s.(status := desired), c, WaitFutex(desired))
      else Goto(s, c, if s.status.state == Result then Collect(s.status) else WaitCas(s.status))
    case WaitSleep =>
      Goto(s, c, if s.status == client.pc.seen then Asleep(client.pc.seen) else WaitReload)
    case SpuriousWake => Goto(s, c, WaitReload)
    case WaitAgain =>
      Goto(s, c, if s.status.state == Result then Collect(s.status) else WaitFutex(s.status))
    case CollectResult =>
      if !client.collects then Goto(s, c, Returned)
      else
        (match client.pc.seen.outcome
         case Success => Yield(s, c, Custom(PayloadOf(s)))
         case FailureInternal => Yield(s, c, Custom(PayloadOf(s)))
         case FailureDependency => Yield(s, c, DependencyFailed)
         case FailureCanceled => Yield(s, c, Canceled)
         case Unknown => Goto(s, c, Crashed))
  }

  function Yield(s: State, c: CallId, result: FinishResult): State
    requires c in s.clients
  {
    ClientTo(s, c, s.clients[c].(pc := Returned, got := Some(result)))
  }

  /** What future->specific.custom_payload holds; never-written memory reads as empty. */
  function PayloadOf(s: State): Payload {
    if s.payload.Some? then s.payload.value else []
  }

  /** The end of udipe_cancel(): no notification for custom futures, then finish if asked to. */
  function CancelEnds(s: State, c: CallId, client: Client, latest: Status, canceled: bool): State {
    ClientTo(s, c, client.(canceled := Some(canceled),
                           pc := if client.finishes then FinishCas(latest) else Returned))
  }

  function Apply(s: State, step: Step): State
    requires Enabled(s, step)
  {
    match step
    case OfWorker(w) => ApplyWorker(s, w)
    case OfClient(c, k) => ApplyClient(s, c, k)
    case OfEnvironment(next) => s.(status := next)
  }

  /** udipe_start_custom() */
  const INITIAL_STATUS: Status := Status(0, true, Processing, Unknown, false, false)

  predicate Initial(s: State) {
    && s.status == INITIAL_STATUS && s.payload == None && s.worker == Ready(false) && s.swaps == 0
    && forall c :: c in s.clients ==> s.clients[c] == Client(Fresh, false, false, None, None)
  }

  predicate CanRun(s: State, steps: seq<Step>)
    decreases |steps|
  {
    |steps| == 0 || (Enabled(s, steps[0]) && CanRun(Apply(s, steps[0]), steps[1..]))
  }

  function Run(s: State, steps: seq<Step>): State
    requires CanRun(s, steps)
    decreases |steps|
  {
    if |steps| == 0 then s else Run(Apply(s, steps[0]), steps[1..])
  }

  lemma {:induction false} RunThen(s: State, steps: seq<Step>, step: Step)
    requires CanRun(s, steps) && Enabled(Run(s, steps), step)
    ensures CanRun(s, steps + [step])
    ensures Run(s, steps + [step]) == Apply(Run(s, steps), step)
    decreases |steps|
  {
    if |steps| == 0 {
      assert steps + [step] == [step];
      assert CanRun(Apply(s, step), [step][1..]);
    } else {
      RunThen(Apply(s, steps[0]), steps[1..], step);
      assert (steps + [step])[1..] == steps[1..] + [step];
    }
  }

  lemma {:induction false} RunAppend(s: State, steps: seq<Step>, more: seq<Step>)
    requires CanRun(s, steps) && CanRun(Run(s, steps), more)
    ensures CanRun(s, steps + more)
    ensures Run(s, steps + more) == Run(Run(s, steps), more)
    decreases |steps|
  {
    if |steps| == 0 {
      assert steps + more == more;
    } else {
      RunAppend(Apply(s, steps[0]), steps[1..], more);
      assert (steps + more)[1..] == steps[1..] + more;
    }
  }

  // ----- The packed word -----

  function StateCode(state: FutureState): nat {
    match state
    case Uninitialized => 0
    case Waiting => 1
    case Processing => 2
    case Canceling => 3
    case Result => 4
  }

  function OutcomeCode(outcome: Outcome): nat {
    match outcome
    case Unknown => 0
    case Success => 1
    case FailureDependency => 2
    case FailureInternal => 3
    case FailureCanceled => 4
  }

  function Flag(b: bool): nat {
    if b then 1 else 0
  }

  /** The 32-bit word of a status: 16 bits of count, an overflow guard, `available`, three bits
      each of state and outcome, four of type (5 is TYPE_CUSTOM), and two notification flags. */
  function Pack(st: Status): nat {
    st.downstream + 0x2_0000 * Flag(st.available) + 0x4_0000 * StateCode(st.state)
    + 0x20_0000 * OutcomeCode(st.outcome) + 0x100_0000 * 5
    + 0x1000_0000 * Flag(st.notifyAddress) + 0x2000_0000 * Flag(st.notifyEvent)
  }

  /** Comparing packed words is comparing statuses. */
  lemma PackIsInjective(a: Status, b: Status)
    requires a.downstream <= MAX_DOWNSTREAM && b.downstream <= MAX_DOWNSTREAM
    requires Pack(a) == Pack(b)
    ensures a == b
  {
    assert Flag(a.notifyEvent) == Flag(b.notifyEvent);
    assert Flag(a.notifyAddress) == Flag(b.notifyAddress);
    assert OutcomeCode(a.outcome) == OutcomeCode(b.outcome);
    assert StateCode(a.state) == StateCode(b.state);
    assert Flag(a.available) == Flag(b.available);
  }

  /** A weak compare-and-swap succeeds only on an unchanged word, and may fail on any word. */
  lemma SwapIsWeak(now: Status, seen: Status)
    ensures SwapAllowed(now, seen, false)
    ensures SwapAllowed(now, seen, true) <==> now == seen
  {
  }

  /** The word of a new custom future: available, processing, outcome unknown, type custom. */
  lemma InitialWord()
    ensures Pack(INITIAL_STATUS) == 0x050A_0000
  {
  }
}
