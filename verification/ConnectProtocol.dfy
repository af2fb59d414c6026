/**
  The connect-options pool under concurrency: connect.c, with the wait/wake contract
  of address_wait.h.

  A state holds the shared mask and, for each of any number of threads, where it is
  in its current call and which slots it holds. Each step is one atomic access to the
  mask, one futex call, or a local computation.
 */
module ConnectProtocol {
  import opened Options
  import opened Bits
  import opened ConnectPool

  type Tid = nat

  datatype Pc =
    | Idle                   // in no call
    | Load                   // about to load the mask
    | Check(seen: Mask)      // holds a copy of the mask, about to test it
    | Try(idx: nat)          // about to fetch_and slot idx
    | Asleep                 // inside wait_on_address()
    | Wake                   // liberated into an empty mask, wake call still to come

  datatype Thread = Thread(pc: Pc, holds: set<nat>)

  datatype State = State(mask: Mask, threads: map<Tid, Thread>)

  datatype Step =
    | Call(t: Tid)
    | LoadMask(t: Tid)
    | Wait(t: Tid)                          // wait_on_address() on a mask seen empty
    | Draw(t: Tid, k: nat, idx: nat)        // rand() gives rank k, which selects slot idx
    | FetchAnd(t: Tid)
    | FetchOr(t: Tid, slot: nat)
    | WakeOne(t: Tid, sleeper: Option<Tid>) // wake_by_address_single()
    | Spurious(t: Tid)                      // wait_on_address() returns for no reason
    | HandOver(t: Tid, to: Tid, slot: nat)  // the client passes its options to a worker

  /** `mask & ~(1 << idx)` */
  function ClearSlot(m: Mask, idx: nat): (r: Mask)
    requires idx < NUM_OPTIONS
    ensures forall i: nat :: Bit(r, i) <==> Bit(m, i) && i != idx
  {
    var r := And(m, Not(Shl(1, idx), NUM_OPTIONS));
    MaskIsWord(m);
    assert forall i: nat :: Bit(r, i) <==> Bit(m, i) && i != idx by {
      forall i: nat
        ensures Bit(r, i) <==> Bit(m, i) && i != idx
      {
        BitAnd(m, Not(Shl(1, idx), NUM_OPTIONS), i);
        BitNot(Shl(1, idx), NUM_OPTIONS, i);
        BitShl(1, idx, i);
        if i >= idx { BitOne(i - idx); }
      }
    }
    MaskBound(r);
    r
  }

  /** `mask | (1 << idx)` */
  function SetSlot(m: Mask, idx: nat): (r: Mask)
    requires idx < NUM_OPTIONS
    ensures forall i: nat :: Bit(r, i) <==> Bit(m, i) || i == idx
  {
    var r := Or(m, Shl(1, idx));
    MaskIsWord(m);
    assert forall i: nat :: Bit(r, i) <==> Bit(m, i) || i == idx by {
      forall i: nat
        ensures Bit(r, i) <==> Bit(m, i) || i == idx
      {
        BitOr(m, Shl(1, idx), i);
        BitShl(1, idx, i);
        if i >= idx { BitOne(i - idx); }
      }
    }
    MaskBound(r);
    r
  }

  lemma MaskBound(r: nat)
    requires forall i: nat :: i >= NUM_OPTIONS ==> !Bit(r, i)
    ensures r < 0x1_0000_0000
  {
    HighBitsClear(r, NUM_OPTIONS);
    Pow2Word();
  }

  lemma MaskExt(a: Mask, b: Mask)
    requires forall i: nat :: i < NUM_OPTIONS ==> Bit(a, i) == Bit(b, i)
    ensures a == b
  {
    Pow2Word();
    SameBits(a, b, NUM_OPTIONS);
  }

  // ----- Steps -----

  predicate At(s: State, t: Tid, pc: Pc) {
    t in s.threads && s.threads[t].pc == pc
  }

  predicate Sleeping(s: State, t: Tid) {
    At(s, t, Asleep)
  }

  predicate Enabled(s: State, step: Step) {
    match step
    case Call(t) => At(s, t, Idle)
    case LoadMask(t) => At(s, t, Load)
    case Wait(t) => At(s, t, Check(0))
    case Draw(t, k, idx) =>
      t in s.threads && s.threads[t].pc.Check? && IsTried(s.threads[t].pc.seen, k, idx)
    case FetchAnd(t) => t in s.threads && s.threads[t].pc.Try? && s.threads[t].pc.idx < NUM_OPTIONS
    case FetchOr(t, slot) => At(s, t, Idle) && slot in s.threads[t].holds && slot < NUM_OPTIONS
    case WakeOne(t, None) => At(s, t, Wake) && forall u :: u in s.threads ==> s.threads[u].pc != Asleep
    case WakeOne(t, Some(u)) => At(s, t, Wake) && Sleeping(s, u)
    case Spurious(t) => Sleeping(s, t)
    case HandOver(t, u, slot) => t in s.threads && u in s.threads && t != u && slot in s.threads[t].holds
  }

  function Goto(s: State, t: Tid, pc: Pc): State
    requires t in s.threads
  {
    s.(threads := s.threads[t := s.threads[t].(pc := pc)])
  }

  function Apply(s: State, step: Step): State
    requires Enabled(s, step)
  {
    match step
    case Call(t) => Goto(s, t, Load)
    case LoadMask(t) => Goto(s, t, Check(s.mask))
    case Wait(t) => Goto(s, t, if s.mask == 0 then Asleep else Load)
    case Draw(t, k, idx) => Goto(s, t, Try(idx))
    case FetchAnd(t) =>
      var idx := s.threads[t].pc.idx;
      var taken := Bit(s.mask, idx);
      var thread := if taken then Thread(Idle, s.threads[t].holds + {idx})
                    else Thread(Check(s.mask), s.threads[t].holds);
      State(ClearSlot(s.mask, idx), s.threads[t := thread])
    case FetchOr(t, slot) =>
      var thread := Thread(if s.mask == 0 then Wake else Idle, s.threads[t].holds - {slot});
      State(SetSlot(s.mask, slot), s.threads[t := thread])
    case WakeOne(t, None) => Goto(s, t, Idle)
    case WakeOne(t, Some(u)) => Goto(Goto(s, t, Idle), u, Load)
    case Spurious(t) => Goto(s, t, Load)
    case HandOver(t, u, slot) =>
      var giver := s.threads[t].(holds := s.threads[t].holds - {slot});
      var taker := s.threads[u].(holds := s.threads[u].holds + {slot});
      s.(threads := s.threads[t := giver][u := taker])
  }

  /** Executing `steps` from `s` is possible. */
  predicate CanRun(s: State, steps: seq<Step>)
    decreases |steps|
  {
    |steps| == 0 || (Enabled(s, steps[0]) && CanRun(Apply(s, steps[0]), steps[1..]))
  }

  /** The state after executing `steps` from `s`. */
  function Run(s: State, steps: seq<Step>): State
    requires CanRun(s, steps)
    decreases |steps|
  {
    if |steps| == 0 then s else Run(Apply(s, steps[0]), steps[1..])
  }

  lemma {:induction false} RunThen(s: State, steps: seq<Step>, step: Step)
    requires CanRun(s, steps) && Enabled(Run(s, steps), step)
    ensures CanRun(s, steps + [step])
    ensures Run(s, steps + [step]) == Apply(Run(s, steps), step)
    decreases |steps|
  {
    if |steps| == 0 {
      assert steps + [step] == [step];
      assert CanRun(Apply(s, step), [step][1..]);
    } else {
      RunThen(Apply(s, steps[0]), steps[1..], step);
      assert (steps + [step])[1..] == steps[1..] + [step];
    }
  }

  lemma {:induction false} RunAppend(s: State, steps: seq<Step>, more: seq<Step>)
    requires CanRun(s, steps) && CanRun(Run(s, steps), more)
    ensures CanRun(s, steps + more)
    ensures Run(s, steps + more) == Run(Run(s, steps), more)
    decreases |steps|
  {
    if |steps| == 0 {
      assert steps + more == more;
    } else {
      RunAppend(Apply(s, steps[0]), steps[1..], more);
      assert (steps + more)[1..] == steps[1..] + more;
    }
  }

  /** connect_options_allocator_initialize(): every slot free, no thread in a call. */
  predicate Initial(s: State) {
    s.mask == ALL_FREE && forall t :: t in s.threads ==> s.threads[t] == Thread(Idle, {})
  }

  // ----- Exclusive ownership -----

  ghost predicate Holds(s: State, t: Tid, i: nat) {
    t in s.threads && i in s.threads[t].holds
  }

  /** No slot has two holders, and the held slots are exactly the clear bits. */
  ghost predicate Exclusive(s: State) {
    && (forall t, u, i: nat :: Holds(s, t, i) && Holds(s, u, i) ==> t == u)
    && (forall t, i: nat :: Holds(s, t, i) ==> i < NUM_OPTIONS && !Bit(s.mask, i))
    && (forall i: nat :: i < NUM_OPTIONS && !Bit(s.mask, i) ==> exists t :: Holds(s, t, i))
  }

  lemma InitialIsExclusive(s: State)
    requires Initial(s)
    ensures Exclusive(s)
  {
    forall i: nat | i < NUM_OPTIONS
      ensures Bit(s.mask, i)
    {
      Pow2Word();
      BitMask(NUM_OPTIONS, i);
    }
  }

  lemma StepKeepsExclusive(s: State, step: Step)
    requires Exclusive(s) && Enabled(s, step)
    ensures Exclusive(Apply(s, step))
  {
    var s' := Apply(s, step);
    match step
    case FetchAnd(t) =>
      var idx := s.threads[t].pc.idx;
      assert forall u, i: nat :: Holds(s', u, i) <==> Holds(s, u, i) || (Bit(s.mask, idx) && u == t && i == idx);
      forall i: nat | i < NUM_OPTIONS && !Bit(s'.mask, i)
        ensures exists u :: Holds(s', u, i)
      {
        if i == idx && Bit(s.mask, idx) {
          assert Holds(s', t, i);
        } else {
          var u :| Holds(s, u, i);
          assert Holds(s', u, i);
        }
      }
    case FetchOr(t, slot) =>
      assert Holds(s, t, slot);
      assert forall u, i: nat :: Holds(s', u, i) <==> Holds(s, u, i) && !(u == t && i == slot);
      forall i: nat | i < NUM_OPTIONS && !Bit(s'.mask, i)
        ensures exists u :: Holds(s', u, i)
      {
        var u :| Holds(s, u, i);
        assert Holds(s', u, i);
      }
    case HandOver(t, u, slot) =>
      assert Holds(s, t, slot);
      assert forall v, i: nat :: i != slot ==> (Holds(s', v, i) <==> Holds(s, v, i));
      assert forall v :: Holds(s', v, slot) ==> v == u || (v != t && Holds(s, v, slot));
      assert Holds(s', u, slot);
      forall i: nat | i < NUM_OPTIONS && !Bit(s'.mask, i)
        ensures exists v :: Holds(s', v, i)
      {
        var v :| Holds(s, v, i);
        assert Holds(s', if i == slot then u else v, i);
      }
    case _ =>
      assert forall u, i: nat :: Holds(s', u, i) <==> Holds(s, u, i);
  }

  /** In every interleaving, no two threads hold the same slot and the held slots are
      exactly the clear bits, even though the slot tried need not be free. */
  lemma {:induction false} RunKeepsExclusive(s: State, steps: seq<Step>)
    requires Exclusive(s) && CanRun(s, steps)
    ensures Exclusive(Run(s, steps))
    decreases |steps|
  {
    if |steps| > 0 {
      StepKeepsExclusive(s, steps[0]);
      RunKeepsExclusive(Apply(s, steps[0]), steps[1..]);
    }
  }

  /** All slots held by some thread. */
  ghost function HeldSlots(s: State): set<nat> {
    set t, i | t in s.threads && i in s.threads[t].holds :: i
  }

  ghost function ClearBits(m: Mask, n: nat): (r: set<nat>)
    ensures forall i: nat :: i in r <==> i < n && !Bit(m, i)
    ensures |r| + Ones(m, n) == n
  {
    if n == 0 then {}
    else if Bit(m, n - 1) then ClearBits(m, n - 1)
    else ClearBits(m, n - 1) + {n - 1}
  }

  /** Conservation: free plus held is always the size of the pool. Hence the check of
      connect_options_allocator_finalize() passes exactly when nothing is held. */
  lemma FreePlusHeld(s: State)
    requires Exclusive(s)
    ensures Ones(s.mask, NUM_OPTIONS) + |HeldSlots(s)| == NUM_OPTIONS
    ensures s.mask == ALL_FREE <==> HeldSlots(s) == {}
  {
    forall i: nat
      ensures i in HeldSlots(s) <==> i in ClearBits(s.mask, NUM_OPTIONS)
    {
      if i in ClearBits(s.mask, NUM_OPTIONS) {
        var t :| Holds(s, t, i);
      }
      if i in HeldSlots(s) {
        var t :| t in s.threads && i in s.threads[t].holds;
        assert Holds(s, t, i);
      }
    }
    assert HeldSlots(s) == ClearBits(s.mask, NUM_OPTIONS);
    forall i: nat | i < NUM_OPTIONS
      ensures Bit(ALL_FREE, i)
    {
      Pow2Word();
      BitMask(NUM_OPTIONS, i);
    }
    if HeldSlots(s) == {} {
      forall i: nat | i < NUM_OPTIONS
        ensures Bit(s.mask, i)
      {
        assert i !in ClearBits(s.mask, NUM_OPTIONS);
      }
      MaskExt(s.mask, ALL_FREE);
    }
    if s.mask == ALL_FREE {
      assert ClearBits(s.mask, NUM_OPTIONS) == {};
    }
  }

  // ----- A lone caller on an isolated mask -----

  /** Steps of an allocation call of `t`. */
  predicate AllocationStep(t: Tid, step: Step) {
    step.t == t && (step.LoadMask? || step.Wait? || step.Draw? || step.FetchAnd? || step.Spurious?)
  }

  /** `t` is inside an allocation call and knows nothing but the current mask. */
  ghost predicate Trying(s: State, t: Tid) {
    && t in s.threads
    && match s.threads[t].pc
       case Load => true
       case Asleep => true
       case Check(seen) => seen == s.mask
       case Try(idx) => exists k: nat :: IsTried(s.mask, k, idx)
       case _ => false
  }

  lemma IsolatedStep(s: State, t: Tid, step: Step)
    requires Isolated(s.mask) && s.mask != 0 && Trying(s, t)
    requires AllocationStep(t, step) && Enabled(s, step)
    ensures var s' := Apply(s, step);
      s'.mask == s.mask && Trying(s', t) && s'.threads[t].holds == s.threads[t].holds
  {
    CanHitIffNotIsolated(s.mask);
    if step.FetchAnd? {
      var idx := s.threads[t].pc.idx;
      var k: nat :| IsTried(s.mask, k, idx);
      assert !Bit(s.mask, idx);
      MaskExt(ClearSlot(s.mask, idx), s.mask);
    }
  }

  /** On a nonempty isolated mask a lone caller retries for ever: however long it runs and
      whatever it draws, the mask never changes and it never gets a slot. */
  lemma {:induction false} IsolatedMaskStarvesCaller(s: State, t: Tid, steps: seq<Step>)
    requires Isolated(s.mask) && s.mask != 0 && Trying(s, t)
    requires CanRun(s, steps) && forall step :: step in steps ==> AllocationStep(t, step)
    ensures var s' := Run(s, steps);
      s'.mask == s.mask && Trying(s', t) && s'.threads[t].holds == s.threads[t].holds
    decreases |steps|
  {
    if |steps| > 0 {
      assert steps[0] in steps;
      IsolatedStep(s, t, steps[0]);
      assert forall step :: step in steps[1..] ==> step in steps;
      IsolatedMaskStarvesCaller(Apply(s, steps[0]), t, steps[1..]);
    }
  }

  lemma {:induction false} OnesOfZero(n: nat)
    ensures Ones(0, n) == 0
  {
    if n > 0 {
      OnesOfZero(n - 1);
      BitZero(n - 1);
    }
  }

  lemma FreeSlotCounts(m: Mask)
    ensures m != 0 <==> Ones(m, NUM_OPTIONS) > 0
  {
    OnesOfZero(NUM_OPTIONS);
    if Ones(m, NUM_OPTIONS) == 0 {
      forall i: nat | i < NUM_OPTIONS
        ensures Bit(m, i) == Bit(0, i)
      {
        OnesMonotone(m, i + 1, NUM_OPTIONS);
        BitZero(i);
      }
      MaskExt(m, 0);
    }
  }

  /** An awake caller never gets stuck before its next step, so what starves it is an endless
      loop. */
  lemma CallerCanStep(s: State, t: Tid) returns (step: Step)
    requires Trying(s, t) && !Sleeping(s, t)
    ensures AllocationStep(t, step) && Enabled(s, step)
  {
    match s.threads[t].pc
    case Load => step := LoadMask(t);
    case Check(seen) =>
      FreeSlotCounts(seen);
      step := if seen == 0 then Wait(t) else Draw(t, 0, 0);
    case Try(idx) => step := FetchAnd(t);
  }

  /** Without help from others, `t` can come to hold a slot that is free now. */
  ghost predicate CanBeServed(s: State, t: Tid) {
    exists steps, slot: nat :: CanRun(s, steps) && (forall step :: step in steps ==> AllocationStep(t, step))
                               && Bit(s.mask, slot) && Holds(Run(s, steps), t, slot) && !Holds(s, t, slot)
  }

  lemma HitFromCheck(s: State, t: Tid) returns (steps: seq<Step>, slot: nat)
    requires Exclusive(s) && At(s, t, Check(s.mask)) && !Isolated(s.mask)
    ensures CanRun(s, steps) && forall step :: step in steps ==> AllocationStep(t, step)
    ensures Bit(s.mask, slot) && Holds(Run(s, steps), t, slot)
  {
    CanHitIffNotIsolated(s.mask);
    var k: nat, idx: nat :| IsTried(s.mask, k, idx) && Bit(s.mask, idx);
    slot := idx;
    steps := [] + [Draw(t, k, idx)] + [FetchAnd(t)];
    RunThen(s, [], Draw(t, k, idx));
    RunThen(s, [] + [Draw(t, k, idx)], FetchAnd(t));
  }

  /** Alone, a caller gets to look at the mask, unless it was about to take a free slot. */
  lemma CallerLooks(s: State, t: Tid) returns (steps: seq<Step>)
    requires Trying(s, t) && s.mask != 0
    requires s.threads[t].pc.Try? ==> !Bit(s.mask, s.threads[t].pc.idx)
    ensures CanRun(s, steps) && forall step :: step in steps ==> AllocationStep(t, step)
    ensures Run(s, steps) == Goto(s, t, Check(s.mask))
  {
    match s.threads[t].pc
    case Check(_) =>
      steps := [];
      assert s.threads == Goto(s, t, Check(s.mask)).threads;
    case Load =>
      steps := [] + [LoadMask(t)];
      RunThen(s, [], LoadMask(t));
    case Asleep =>
      steps := [] + [Spurious(t)] + [LoadMask(t)];
      RunThen(s, [], Spurious(t));
      RunThen(s, [] + [Spurious(t)], LoadMask(t));
      assert Run(s, steps).threads == Goto(s, t, Check(s.mask)).threads;
    case Try(idx) =>
      steps := [] + [FetchAnd(t)];
      RunThen(s, [], FetchAnd(t));
      MaskExt(ClearSlot(s.mask, idx), s.mask);
      assert Run(s, steps).threads == Goto(s, t, Check(s.mask)).threads;
  }

  lemma CallerIsServed(s: State, t: Tid) returns (steps: seq<Step>, slot: nat)
    requires Exclusive(s) && Trying(s, t) && !Isolated(s.mask) && s.mask != 0
    ensures CanRun(s, steps) && forall step :: step in steps ==> AllocationStep(t, step)
    ensures Bit(s.mask, slot) && Holds(Run(s, steps), t, slot)
  {
    if s.threads[t].pc.Try? && Bit(s.mask, s.threads[t].pc.idx) {
      steps, slot := [] + [FetchAnd(t)], s.threads[t].pc.idx;
      RunThen(s, [], FetchAnd(t));
    } else {
      var look := CallerLooks(s, t);
      var middle := Run(s, look);
      RunKeepsExclusive(s, look);
      var hit;
      hit, slot := HitFromCheck(middle, t);
      RunAppend(s, look, hit);
      steps := look + hit;
    }
  }

  /** A lone caller that goes by the current mask, or that sleeps and is woken, can be served
      exactly if the free slots are not isolated. */
  lemma ServedIffNotIsolated(s: State, t: Tid)
    requires Exclusive(s) && Trying(s, t) && s.mask != 0
    ensures CanBeServed(s, t) <==> !Isolated(s.mask)
  {
    if Isolated(s.mask) {
      forall steps | CanRun(s, steps) && forall step :: step in steps ==> AllocationStep(t, step)
        ensures t in Run(s, steps).threads && Run(s, steps).threads[t].holds == s.threads[t].holds
      {
        IsolatedMaskStarvesCaller(s, t, steps);
      }
    } else {
      var steps, slot := CallerIsServed(s, t);
      assert !Holds(s, t, slot);
    }
  }

  predicate InCall(s: State, t: Tid) {
    t in s.threads && s.threads[t].pc != Idle && s.threads[t].pc != Wake
  }

  /** An allocation call ends in no other way than with a slot that was free and that nobody
      holds but its thread. */
  lemma AllocationEndsWithSlot(s: State, t: Tid, step: Step)
    requires Exclusive(s) && InCall(s, t) && Enabled(s, step)
    ensures InCall(Apply(s, step), t) ||
            (exists slot: nat :: TakesSlot(s, Apply(s, step), t, slot))
  {
    if step.FetchAnd? && step.t == t {
      var slot := s.threads[t].pc.idx;
      if Bit(s.mask, slot) {
        assert !Holds(s, t, slot);
        assert TakesSlot(s, Apply(s, step), t, slot);
      }
    }
  }

  ghost predicate TakesSlot(s: State, s': State, t: Tid, slot: nat) {
    && t in s.threads && t in s'.threads && s'.threads[t].pc == Idle
    && Bit(s.mask, slot) && !Bit(s'.mask, slot)
    && slot !in s.threads[t].holds && s'.threads[t].holds == s.threads[t].holds + {slot}
  }

  // ----- Lost wake-ups -----

  /** Somebody sleeps although a slot is free and no wake call is on its way. */
  ghost predicate Stranded(s: State) {
    && s.mask != 0
    && (exists t :: Sleeping(s, t))
    && !WakePending(s)
  }

  ghost predicate WakePending(s: State) {
    exists t :: At(s, t, Wake)
  }

  ghost predicate AtMostOneSleeper(s: State) {
    forall t, u :: Sleeping(s, t) && Sleeping(s, u) ==> t == u
  }

  lemma SetSlotNonZero(m: Mask, idx: nat)
    requires idx < NUM_OPTIONS
    ensures SetSlot(m, idx) != 0
  {
    assert Bit(SetSlot(m, idx), idx);
    BitZero(idx);
  }

  lemma ClearZero(idx: nat)
    requires idx < NUM_OPTIONS
    ensures ClearSlot(0, idx) == 0
  {
    forall i: nat ensures !Bit(0, i) { BitZero(i); }
    MaskExt(ClearSlot(0, idx), 0);
  }

  lemma StepStrandsNobody(s: State, step: Step)
    requires AtMostOneSleeper(s) && !Stranded(s) && Enabled(s, step)
    ensures !Stranded(Apply(s, step))
  {
    var s' := Apply(s, step);
    if step.WakeOne? {
      // the one sleeper, if any, is the thread being woken
      var sleeper := step.sleeper;
      assert forall t :: Sleeping(s', t) ==> Sleeping(s, t) && sleeper.Some?;
      assert forall t :: !Sleeping(s', t);
    } else if step.FetchOr? && s.mask == 0 {
      assert At(s', step.t, Wake);
    } else {
      if step.FetchAnd? && s.mask == 0 { ClearZero(s.threads[step.t].pc.idx); }
      assert s.mask != 0 ==> forall t :: Sleeping(s', t) ==> Sleeping(s, t);
      assert forall v :: At(s, v, Wake) ==> At(s', v, Wake);
    }
  }

  /** Every state of the run from `s` over `steps`, the last one excepted, has at most one sleeper. */
  ghost predicate SleepsAlone(s: State, steps: seq<Step>)
    requires CanRun(s, steps)
    decreases |steps|
  {
    |steps| == 0 || (AtMostOneSleeper(s) && SleepsAlone(Apply(s, steps[0]), steps[1..]))
  }

  /** With at most one sleeping allocator, no run leaves it asleep while a slot is free,
      unless a wake call is already on its way. */
  lemma {:induction false} LoneSleeperIsNeverStranded(s: State, steps: seq<Step>)
    requires CanRun(s, steps) && !Stranded(s) && SleepsAlone(s, steps)
    ensures !Stranded(Run(s, steps))
    decreases |steps|
  {
    if |steps| > 0 {
      StepStrandsNobody(s, steps[0]);
      LoneSleeperIsNeverStranded(Apply(s, steps[0]), steps[1..]);
    }
  }

  /** The bound of one is exact: from every state where two threads sleep on an empty mask and
      some thread holds two slots, liberating both before the woken thread runs strands the
      other, because only the liberation into an empty mask wakes anybody. */
  lemma TwoSleepersCanBeStranded(s: State, a: Tid, b: Tid, t: Tid, i: nat, j: nat)
      returns (steps: seq<Step>)
    requires s.mask == 0 && !WakePending(s)
    requires a != b && Sleeping(s, a) && Sleeping(s, b)
    requires At(s, t, Idle) && {i, j} <= s.threads[t].holds && i != j
    requires i < NUM_OPTIONS && j < NUM_OPTIONS
    ensures CanRun(s, steps) && Stranded(Run(s, steps))
  {
    var first, wake, second := FetchOr(t, i), WakeOne(t, Some(a)), FetchOr(t, j);
    var s1 := Apply(s, first);
    var s2 := Apply(s1, wake);
    SetSlotNonZero(0, i);
    var s3 := Apply(s2, second);
    SetSlotNonZero(s2.mask, j);
    assert Sleeping(s3, b);
    forall u
      ensures !At(s3, u, Wake)
    {
      assert !At(s, u, Wake);
    }
    steps := [] + [first];
    RunThen(s, [], first);
    RunThen(s, steps, wake);
    steps := steps + [wake];
    RunThen(s, steps, second);
    steps := steps + [second];
  }

  // ----- Both failures are reachable -----

  lemma {:induction false} OnesOfMask(j: nat, n: nat)
    ensures Ones(Pow2(j) - 1, n) == if j <= n then j else n
  {
    if n > 0 {
      OnesOfMask(j, n - 1);
      BitMask(j, n - 1);
    }
  }

  lemma LowMaskFits(j: nat)
    requires j <= NUM_OPTIONS
    ensures Pow2(j) - 1 < 0x1_0000_0000
  {
    Pow2Word();
    Pow2Monotone(j, NUM_OPTIONS);
  }

  lemma TopIsTried(m: Mask, j: nat)
    requires 0 < j <= NUM_OPTIONS && m == Pow2(j) - 1
    ensures IsTried(m, j - 1, j - 1) && Bit(m, j - 1)
  {
    OnesOfMask(j, NUM_OPTIONS);
    BitMask(j, j - 1);
    if j > 1 {
      OnesOfMask(j, j - 2);
      BitMask(j, j - 2);
      assert IsNthFree(m, j - 2, j - 2);
    }
  }

  lemma TopCleared(m: Mask, j: nat)
    requires 0 < j <= NUM_OPTIONS && m == Pow2(j) - 1
    ensures ClearSlot(m, j - 1) == Pow2(j - 1) - 1
  {
    LowMaskFits(j - 1);
    var cleared, expected := ClearSlot(m, j - 1), Pow2(j - 1) - 1;
    forall i: nat | i < NUM_OPTIONS
      ensures Bit(cleared, i) == Bit(expected, i)
    {
      BitMask(j, i);
      BitMask(j - 1, i);
    }
    MaskExt(cleared, expected);
  }

  /** One successful allocation: with slots [0, j) free, drawing rank j - 1 takes slot j - 1. */
  lemma AllocateTop(s: State, t: Tid, j: nat) returns (steps: seq<Step>)
    requires 0 < j <= NUM_OPTIONS && s.mask == Pow2(j) - 1 && At(s, t, Idle)
    ensures CanRun(s, steps)
    ensures Run(s, steps) == State(Run(s, steps).mask, s.threads[t := Thread(Idle, s.threads[t].holds + {j - 1})])
    ensures Run(s, steps).mask == Pow2(j - 1) - 1
  {
    TopIsTried(s.mask, j);
    TopCleared(s.mask, j);
    RunThen(s, [], Call(t));
    RunThen(s, [] + [Call(t)], LoadMask(t));
    RunThen(s, [] + [Call(t)] + [LoadMask(t)], Draw(t, j - 1, j - 1));
    RunThen(s, [] + [Call(t)] + [LoadMask(t)] + [Draw(t, j - 1, j - 1)], FetchAnd(t));
    steps := [] + [Call(t)] + [LoadMask(t)] + [Draw(t, j - 1, j - 1)] + [FetchAnd(t)];
    assert Run(s, steps).threads == s.threads[t := Thread(Idle, s.threads[t].holds + {j - 1})];
  }

  /** A single thread can take the whole pool. */
  lemma {:induction false} AllocateAll(s: State, t: Tid, j: nat) returns (steps: seq<Step>)
    requires j <= NUM_OPTIONS && s.mask == Pow2(j) - 1 && At(s, t, Idle)
    ensures CanRun(s, steps) && Run(s, steps).mask == 0
    ensures At(Run(s, steps), t, Idle)
    ensures forall i: nat :: i < j || i in s.threads[t].holds ==> i in Run(s, steps).threads[t].holds
    ensures Run(s, steps).threads.Keys == s.threads.Keys
    ensures forall u :: u in s.threads && u != t ==> Run(s, steps).threads[u] == s.threads[u]
    decreases j
  {
    if j == 0 {
      steps := [];
    } else {
      steps := AllocateTop(s, t, j);
      var s' := Run(s, steps);
      var more := AllocateAll(s', t, j - 1);
      RunAppend(s, steps, more);
      steps := steps + more;
    }
  }

  /** The mask 0b10 is reachable, and with it a caller that can never be served. */
  lemma StarvationIsReachable(s: State, t: Tid, u: Tid) returns (steps: seq<Step>)
    requires Initial(s) && t in s.threads && u in s.threads
    ensures CanRun(s, steps)
    ensures var s' := Run(s, steps); Isolated(s'.mask) && s'.mask != 0 && Trying(s', u)
  {
    Pow2Word();
    steps := AllocateAll(s, t, NUM_OPTIONS);
    var full := Run(s, steps);
    var s1 := Apply(full, FetchOr(t, 1));
    SetSlotNonZero(0, 1);
    forall i: nat ensures !Bit(0, i) { BitZero(i); }
    RunThen(s, steps, FetchOr(t, 1));
    steps := steps + [FetchOr(t, 1)];
    RunThen(s, steps, WakeOne(t, None));
    steps := steps + [WakeOne(t, None)];
    RunThen(s, steps, Call(u));
    steps := steps + [Call(u)];
  }

  /** Putting an idle thread to sleep on an empty mask. */
  lemma FallAsleep(s: State, a: Tid) returns (steps: seq<Step>)
    requires s.mask == 0 && At(s, a, Idle)
    ensures CanRun(s, steps)
    ensures Run(s, steps) == Goto(s, a, Asleep)
  {
    RunThen(s, [], Call(a));
    RunThen(s, [] + [Call(a)], LoadMask(a));
    RunThen(s, [] + [Call(a)] + [LoadMask(a)], Wait(a));
    steps := [] + [Call(a)] + [LoadMask(a)] + [Wait(a)];
    assert Run(s, steps).threads == Goto(s, a, Asleep).threads;
  }

  /** A stranded sleeper is reachable from the initial state, with three threads. */
  lemma StrandingIsReachable(s: State, t: Tid, a: Tid, b: Tid) returns (steps: seq<Step>)
    requires Initial(s) && t in s.threads && a in s.threads && b in s.threads
    requires t != a && t != b && a != b
    ensures CanRun(s, steps) && Stranded(Run(s, steps))
  {
    Pow2Word();
    steps := AllocateAll(s, t, NUM_OPTIONS);
    var full := Run(s, steps);
    var more := FallAsleep(full, a);
    RunAppend(s, steps, more);
    steps := steps + more;
    more := FallAsleep(Run(s, steps), b);
    RunAppend(s, steps, more);
    steps := steps + more;
    var asleep := Run(s, steps);
    forall u ensures !At(asleep, u, Wake) {}
    more := TwoSleepersCanBeStranded(asleep, a, b, t, 0, 1);
    RunAppend(s, steps, more);
    steps := steps + more;
  }

  // ----- How many threads it takes -----

  /** Two sleepers out of at most two threads: everybody sleeps. */
  lemma EverybodySleeps(s: State, t: Tid)
    requires |s.threads| <= 2 && !AtMostOneSleeper(s) && t in s.threads
    ensures Sleeping(s, t)
  {
    var a, b :| Sleeping(s, a) && Sleeping(s, b) && a != b;
    assert |s.threads.Keys| == |s.threads|;
    if t != a && t != b { ThreeMembers(s.threads.Keys, a, b, t); }
  }

  lemma ThreeMembers(keys: set<Tid>, a: Tid, b: Tid, t: Tid)
    requires {a, b, t} <= keys && a != b && t != a && t != b
    ensures |keys| >= 3
  {
    assert |keys - {a} - {b} - {t}| == |keys| - 3;
  }

  lemma StepKeepsThreads(s: State, step: Step)
    requires Enabled(s, step)
    ensures Apply(s, step).threads.Keys == s.threads.Keys
    ensures |Apply(s, step).threads| == |s.threads|
  {
    var s' := Apply(s, step);
    assert s'.threads.Keys == s.threads.Keys;
    assert |s'.threads.Keys| == |s'.threads| && |s.threads.Keys| == |s.threads|;
  }

  lemma PairStrandsNobody(s: State, step: Step)
    requires |s.threads| <= 2 && !Stranded(s) && Enabled(s, step)
    ensures !Stranded(Apply(s, step))
  {
    if AtMostOneSleeper(s) {
      StepStrandsNobody(s, step);
    } else {
      forall t | t in s.threads ensures Sleeping(s, t) { EverybodySleeps(s, t); }
      assert !WakePending(s) && s.mask == 0;
      assert step.Spurious? || step.HandOver?;
    }
  }

  lemma {:induction false} PairIsNeverStranded(s: State, steps: seq<Step>)
    requires |s.threads| <= 2 && !Stranded(s) && CanRun(s, steps)
    ensures !Stranded(Run(s, steps))
    decreases |steps|
  {
    if |steps| > 0 {
      PairStrandsNobody(s, steps[0]);
      StepKeepsThreads(s, steps[0]);
      PairIsNeverStranded(Apply(s, steps[0]), steps[1..]);
    }
  }

  lemma ThreeThreads(s: State) returns (t: Tid, a: Tid, b: Tid)
    requires |s.threads| >= 3
    ensures t in s.threads && a in s.threads && b in s.threads && t != a && t != b && a != b
  {
    var keys := s.threads.Keys;
    assert |keys| == |s.threads|;
    t :| t in keys;
    assert |keys - {t}| >= 2;
    a :| a in keys - {t};
    assert |keys - {t} - {a}| >= 1;
    b :| b in keys - {t} - {a};
  }

  /** Some run leaves a thread asleep with a slot free and no wake call on its way. */
  ghost predicate MayStrand(s: State) {
    exists steps :: CanRun(s, steps) && Stranded(Run(s, steps))
  }

  /** The exact condition for a lost wake-up, which depends on nothing but the number of
      threads that share the pool. */
  lemma StrandsIffThreeThreads(s: State)
    requires Initial(s)
    ensures MayStrand(s) <==> |s.threads| >= 3
  {
    if |s.threads| >= 3 {
      var t, a, b := ThreeThreads(s);
      var steps := StrandingIsReachable(s, t, a, b);
    } else {
      forall steps | CanRun(s, steps)
        ensures !Stranded(Run(s, steps))
      {
        PairIsNeverStranded(s, steps);
      }
    }
  }
}
