/**
  The reference-counted thread-specific storage key: refcounted_tss.c.

  One word packs the number of live slots with a reachability bit. Slots are created
  and released by any number of threads; one discard clears the bit. Whoever brings
  the word to zero deletes the key. Each step below is one atomic access to the word,
  one use of the key, or the deletion.
 */
module RefcountedTss {
  import opened Bits

  /** REFCOUNTED_TSS_REACHABLE */
  const REACHABLE: Word := 0x8000_0000_0000_0000

  type Tid = nat

  datatype Slot =
    | Absent
    | Building   // counted, constructor running, TLS not set yet
    | Present

  /** `deleting`: inside the release or discard call that has to delete the key. */
  datatype Thread = Thread(slot: Slot, deleting: bool)

  datatype State = State(
    word: Word,
    threads: map<Tid, Thread>,
    discarded: bool,     // refcounted_tss_discard() has done its fetch_and
    deletions: nat,      // calls of tss_delete()
    trueResults: nat)    // release or discard calls that returned true

  datatype Step =
    | Create(t: Tid)     // fetch_add of refcounted_tss_create_slot()
    | Install(t: Tid)    // its constructor and tss_set()
    | Release(t: Tid)    // fetch_sub of refcounted_tss_release()
    | Discard(t: Tid)    // fetch_and of refcounted_tss_discard()
    | Delete(t: Tid)     // tss_delete() and return true

  /** C arithmetic on size_t wraps around. */
  function Wrap(x: int): Word {
    x % WORD_LIMIT
  }

  /** `word & ~REFCOUNTED_TSS_REACHABLE` */
  function ClearReachable(w: Word): Word {
    WordAnd(w, WordNot(REACHABLE))
  }

  ghost function Holders(s: State): set<Tid> {
    set t | t in s.threads && s.threads[t].slot != Absent
  }

  ghost function Deleters(s: State): set<Tid> {
    set t | t in s.threads && s.threads[t].deleting
  }

  /** The rules of use: a thread creates a slot only while it has none, slots are
      counted only before discard, each slot is released once, by its thread, and discard is
      called once. Nothing is demanded of the word itself, and a constructor may still be
      running when discard happens, although the header forbids that. */
  ghost predicate Enabled(s: State, step: Step) {
    && step.t in s.threads
    && var thread := s.threads[step.t];
       match step
       case Create(t) => thread == Thread(Absent, false) && !s.discarded
       case Install(t) => thread == Thread(Building, false)
       case Release(t) => thread == Thread(Present, false)
       case Discard(t) => !thread.deleting && !s.discarded
       case Delete(t) => thread.deleting
  }

  function Set(s: State, t: Tid, thread: Thread): State {
    s.(threads := s.threads[t := thread])
  }

  function Apply(s: State, step: Step): State
    requires Enabled(s, step)
  {
    var t := step.t;
    var before := s.word;
    match step
    case Create(_) => Set(s, t, Thread(Building, false)).(word := Wrap(before + 1))
    case Install(_) => Set(s, t, Thread(Present, false))
    case Release(_) => Set(s, t, Thread(Absent, !(before > 1))).(word := Wrap(before - 1))
    case Discard(_) =>
      Set(s, t, Thread(s.threads[t].slot, before == REACHABLE)).(word := ClearReachable(before), discarded := true)
    case Delete(_) =>
      Set(s, t, Thread(s.threads[t].slot, false)).(deletions := s.deletions + 1, trueResults := s.trueResults + 1)
  }

  /** refcounted_tss_initialize(). The number of threads is what keeps the count from
      running into the reachability bit. */
  ghost predicate Initial(s: State) {
    && s.word == REACHABLE && !s.discarded && s.deletions == 0 && s.trueResults == 0
    && |s.threads| < REACHABLE
    && forall t :: t in s.threads ==> s.threads[t] == Thread(Absent, false)
  }

  ghost predicate CanRun(s: State, steps: seq<Step>)
    decreases |steps|
  {
    |steps| == 0 || (Enabled(s, steps[0]) && CanRun(Apply(s, steps[0]), steps[1..]))
  }

  ghost function Run(s: State, steps: seq<Step>): State
    requires CanRun(s, steps)
    decreases |steps|
  {
    if |steps| == 0 then s else Run(Apply(s, steps[0]), steps[1..])
  }

  // ----- The invariant -----

  ghost predicate Inv(s: State) {
    && |s.threads| < REACHABLE
    && s.word == (if s.discarded then 0 else REACHABLE) + |Holders(s)|
    && s.trueResults == s.deletions
    && |Deleters(s)| + s.deletions == (if s.discarded && Holders(s) == {} then 1 else 0)
  }

  lemma HoldersBound(s: State)
    ensures |Holders(s)| <= |s.threads|
  {
    assert Holders(s) <= s.threads.Keys;
    SubsetSize(Holders(s), s.threads.Keys);
  }

  lemma {:induction false} SubsetSize<T>(a: set<T>, b: set<T>)
    requires a <= b
    ensures |a| <= |b|
  {
    if a != {} {
      var x :| x in a;
      SubsetSize(a - {x}, b - {x});
    }
  }

  lemma ReachableBit()
    ensures REACHABLE == Pow2(63) && Pow2(63) == Shl(1, 63)
  {
    Pow2Word();
    assert Pow2(64) == 2 * Pow2(63);
  }

  lemma ClearsReachable(n: nat)
    requires n < REACHABLE
    ensures ClearReachable(REACHABLE + n) == n
  {
    ReachableBit();
    var w: Word := REACHABLE + n;
    forall i: nat | i < WORD_BITS
      ensures Bit(ClearReachable(w), i) == Bit(n, i)
    {
      BitConcat(n, 1, 63, i);
      BitShl(1, 63, i);
      BitOne(0);
      if i == 63 { BitAbove(n, 63, 63); }
    }
    WordExt(ClearReachable(w), n);
  }

  lemma WrapIsExact(x: int)
    requires 0 <= x < WORD_LIMIT
    ensures Wrap(x) == x
  {
  }

  lemma InitialHasInv(s: State)
    requires Initial(s)
    ensures Inv(s)
  {
    assert Holders(s) == {} && Deleters(s) == {};
  }

  lemma CreateKeepsInv(s: State, t: Tid)
    requires Inv(s) && Enabled(s, Create(t))
    ensures Inv(Apply(s, Create(t)))
  {
    var s' := Apply(s, Create(t));
    SameSize(s, s');
    assert Holders(s') == Holders(s) + {t};
    HoldersBound(s');
    WrapIsExact(s.word + 1);
    assert Deleters(s') == Deleters(s);
  }

  lemma InstallKeepsInv(s: State, t: Tid)
    requires Inv(s) && Enabled(s, Install(t))
    ensures Inv(Apply(s, Install(t)))
  {
    var s' := Apply(s, Install(t));
    SameSize(s, s');
    assert Holders(s') == Holders(s);
    assert Deleters(s') == Deleters(s);
  }

  lemma ReleaseKeepsInv(s: State, t: Tid)
    requires Inv(s) && Enabled(s, Release(t))
    ensures Inv(Apply(s, Release(t)))
  {
    var s' := Apply(s, Release(t));
    SameSize(s, s');
    HoldersBound(s);
    assert t in Holders(s) && t !in Deleters(s);
    assert Holders(s') == Holders(s) - {t};
    WrapIsExact(s.word - 1);
    assert Deleters(s') == if s.word > 1 then Deleters(s) else Deleters(s) + {t};
  }

  lemma DiscardKeepsInv(s: State, t: Tid)
    requires Inv(s) && Enabled(s, Discard(t))
    ensures Inv(Apply(s, Discard(t)))
  {
    var s' := Apply(s, Discard(t));
    SameSize(s, s');
    HoldersBound(s);
    ClearsReachable(|Holders(s)|);
    assert t !in Deleters(s);
    assert Holders(s') == Holders(s);
    assert Deleters(s') == if s.word == REACHABLE then Deleters(s) + {t} else Deleters(s);
  }

  lemma DeleteKeepsInv(s: State, t: Tid)
    requires Inv(s) && Enabled(s, Delete(t))
    ensures Inv(Apply(s, Delete(t)))
  {
    var s' := Apply(s, Delete(t));
    SameSize(s, s');
    assert t in Deleters(s);
    assert Holders(s') == Holders(s);
    assert Deleters(s') == Deleters(s) - {t};
  }

  lemma StepKeepsInv(s: State, step: Step)
    requires Inv(s) && Enabled(s, step)
    ensures Inv(Apply(s, step))
  {
    match step
    case Create(t) => CreateKeepsInv(s, t);
    case Install(t) => InstallKeepsInv(s, t);
    case Release(t) => ReleaseKeepsInv(s, t);
    case Discard(t) => DiscardKeepsInv(s, t);
    case Delete(t) => DeleteKeepsInv(s, t);
  }

  lemma SameSize(s: State, s': State)
    requires s'.threads.Keys == s.threads.Keys
    ensures |s'.threads| == |s.threads|
  {
    assert |s.threads| == |s.threads.Keys| && |s'.threads| == |s'.threads.Keys|;
  }

  lemma {:induction false} RunKeepsInv(s: State, steps: seq<Step>)
    requires Inv(s) && CanRun(s, steps)
    ensures Inv(Run(s, steps))
    decreases |steps|
  {
    if |steps| > 0 {
      StepKeepsInv(s, steps[0]);
      RunKeepsInv(Apply(s, steps[0]), steps[1..]);
    }
  }

  // ----- What every run guarantees -----

  /** In every run the word is the reachability bit plus the number of outstanding slots; the
      key is deleted at most once, only after discard and once no slot remains; and as many
      calls return true as deletions happen. */
  lemma WordCountsSlots(s: State, steps: seq<Step>)
    requires Initial(s) && CanRun(s, steps)
    ensures var e := Run(s, steps);
      && e.word == (if e.discarded then 0 else REACHABLE) + |Holders(e)|
      && e.deletions <= 1 && e.trueResults == e.deletions
      && (e.deletions == 1 ==> e.discarded && Holders(e) == {})
  {
    InitialHasInv(s);
    RunKeepsInv(s, steps);
  }

  /** Once discard has happened, every slot is released and every call has returned, exactly
      one call returned true and the key was deleted exactly once. */
  lemma ExactlyOneCallReturnsTrue(s: State, steps: seq<Step>)
    requires Initial(s) && CanRun(s, steps)
    requires var e := Run(s, steps); e.discarded && Holders(e) == {} && Deleters(e) == {}
    ensures Run(s, steps).trueResults == 1 && Run(s, steps).deletions == 1
  {
    InitialHasInv(s);
    RunKeepsInv(s, steps);
  }

  /** From the moment one call decides to delete the key, that deletion is the only access to
      the object that can still happen, and after it there is none: the caller may free it. */
  lemma DeletionIsLastAccess(s: State, steps: seq<Step>, step: Step)
    requires Initial(s) && CanRun(s, steps) && Enabled(Run(s, steps), step)
    ensures var e := Run(s, steps);
      && e.deletions == 0
      && forall t :: t in Deleters(e) ==> step == Delete(t)
  {
    InitialHasInv(s);
    RunKeepsInv(s, steps);
    var e := Run(s, steps);
    if step.Delete? {
      assert step.t in Deleters(e);
    } else if step.Release? || step.Install? {
      assert step.t in Holders(e);
    }
    forall t | t in Deleters(e)
      ensures step == Delete(t)
    {
      assert {t} <= Deleters(e);
      SubsetSize({t}, Deleters(e));
      if step.Delete? && step.t != t {
        SubsetSize({t, step.t}, Deleters(e));
      }
    }
  }

  /** The life of a slot: counted from the start, releasable only once it is installed, and then
      its release puts the word back. */
  lemma SlotLifeCycle(s: State, t: Tid)
    requires Inv(s) && Enabled(s, Create(t))
    ensures var s1 := Apply(s, Create(t));
      && t in Holders(s1) && !Enabled(s1, Release(t)) && Enabled(s1, Install(t))
      && var s2 := Apply(s1, Install(t));
      && Enabled(s2, Release(t)) && Apply(s2, Release(t)).word == s.word
  {
    var s1 := Apply(s, Create(t));
    CreateKeepsInv(s, t);
    assert Holders(s1) == Holders(s) + {t};
    HoldersBound(s1);
    SameSize(s, s1);
    WrapIsExact(s.word + 1);
    WrapIsExact(s.word);
  }

  // ----- The object can always be torn down -----

  ghost function Constructing(s: State): set<Tid> {
    set t | t in s.threads && s.threads[t].slot == Building
  }

  /** The next step towards releasing the slot of `t`. */
  ghost function TeardownStep(s: State, t: Tid): Step
    requires t in s.threads
  {
    if s.threads[t].slot == Building then Install(t) else Release(t)
  }

  ghost function SlotWork(s: State): nat {
    |Holders(s)| + |Constructing(s)|
  }

  lemma InstallMoves(s: State, t: Tid)
    requires Enabled(s, Install(t))
    ensures SlotWork(Apply(s, Install(t))) < SlotWork(s)
  {
    var s' := Apply(s, Install(t));
    assert t in Constructing(s);
    assert Holders(s') == Holders(s) && Constructing(s') == Constructing(s) - {t};
  }

  lemma ReleaseMoves(s: State, t: Tid)
    requires Enabled(s, Release(t))
    ensures SlotWork(Apply(s, Release(t))) < SlotWork(s)
  {
    var s' := Apply(s, Release(t));
    assert t in Holders(s);
    assert Holders(s') == Holders(s) - {t} && Constructing(s') == Constructing(s);
  }

  lemma TeardownMoves(s: State, t: Tid)
    requires Inv(s) && t in Holders(s)
    ensures Enabled(s, TeardownStep(s, t)) && SlotWork(Apply(s, TeardownStep(s, t))) < SlotWork(s)
  {
    assert |Deleters(s)| == 0;
    assert t !in Deleters(s);
    if s.threads[t].slot == Building { InstallMoves(s, t); } else { ReleaseMoves(s, t); }
  }

  /** Every slot, whether its constructor is still running or not, can be released. */
  lemma {:induction false} SlotsCanBeReleased(s: State) returns (steps: seq<Step>)
    requires Inv(s)
    ensures CanRun(s, steps) && Inv(Run(s, steps)) && Holders(Run(s, steps)) == {}
    ensures Run(s, steps).threads.Keys == s.threads.Keys
    decreases SlotWork(s)
  {
    if Holders(s) == {} {
      steps := [];
    } else {
      var t :| t in Holders(s);
      var first := TeardownStep(s, t);
      TeardownMoves(s, t);
      StepKeepsInv(s, first);
      var rest := SlotsCanBeReleased(Apply(s, first));
      steps := [first] + rest;
      assert steps[1..] == rest;
    }
  }

  /** Without slots, the discard that may be missing and the deletion that may be missing can
      happen. */
  lemma KeyCanBeDeleted(s: State) returns (steps: seq<Step>)
    requires Inv(s) && Holders(s) == {} && |s.threads| > 0
    ensures CanRun(s, steps) && Inv(Run(s, steps))
    ensures var e := Run(s, steps); e.discarded && Holders(e) == {} && Deleters(e) == {}
  {
    if !s.discarded {
      assert |s.threads.Keys| > 0;
      var t :| t in s.threads;
      assert Deleters(s) == {} && t !in Deleters(s);
      var discarded := Apply(s, Discard(t));
      StepKeepsInv(s, Discard(t));
      assert Holders(discarded) == {};
      var rest := DeletionCanHappen(discarded);
      steps := [Discard(t)] + rest;
      assert steps[1..] == rest;
    } else {
      steps := DeletionCanHappen(s);
    }
  }

  lemma DeletionCanHappen(s: State) returns (steps: seq<Step>)
    requires Inv(s) && s.discarded && Holders(s) == {}
    ensures CanRun(s, steps) && Inv(Run(s, steps))
    ensures var e := Run(s, steps); e.discarded && Holders(e) == {} && Deleters(e) == {}
  {
    if Deleters(s) == {} {
      steps := [];
    } else {
      var t :| t in Deleters(s);
      StepKeepsInv(s, Delete(t));
      var s' := Apply(s, Delete(t));
      assert Holders(s') == {};
      assert |Deleters(s)| >= 1 && s'.deletions >= 1 && |Deleters(s')| == 0;
      steps := [Delete(t)];
      assert steps[1..] == [];
    }
  }

  /** From every state of every run, some continuation releases all slots, discards the object and
      deletes the key, and then exactly one call has returned true. */
  lemma CanAlwaysBeTornDown(s: State, before: seq<Step>) returns (after: seq<Step>)
    requires Initial(s) && CanRun(s, before) && |s.threads| > 0
    ensures CanRun(Run(s, before), after)
    ensures var e := Run(Run(s, before), after);
      e.discarded && Holders(e) == {} && e.word == 0 && e.deletions == 1 && e.trueResults == 1
  {
    InitialHasInv(s);
    RunKeepsInv(s, before);
    RunKeepsThreads(s, before);
    var middle := Run(s, before);
    var release := SlotsCanBeReleased(middle);
    SameSize(s, Run(middle, release));
    var delete := KeyCanBeDeleted(Run(middle, release));
    RunAppend(middle, release, delete);
    after := release + delete;
  }

  lemma {:induction false} RunKeepsThreads(s: State, steps: seq<Step>)
    requires CanRun(s, steps)
    ensures Run(s, steps).threads.Keys == s.threads.Keys
    decreases |steps|
  {
    if |steps| > 0 {
      assert Apply(s, steps[0]).threads.Keys == s.threads.Keys;
      RunKeepsThreads(Apply(s, steps[0]), steps[1..]);
    }
  }

  lemma {:induction false} RunAppend(s: State, steps: seq<Step>, more: seq<Step>)
    requires CanRun(s, steps) && CanRun(Run(s, steps), more)
    ensures CanRun(s, steps + more)
    ensures Run(s, steps + more) == Run(Run(s, steps), more)
    decreases |steps|
  {
    if |steps| == 0 {
      assert steps + more == more;
    } else {
      RunAppend(Apply(s, steps[0]), steps[1..], more);
      assert (steps + more)[1..] == steps[1..] + more;
    }
  }

  // ----- Assertions of the source -----

  /** The assertions on the word that the source makes hold in every run that follows the rules:
      creation sees the bit set before and after, release sees a nonzero word, discard sees the bit. */
  lemma AssertionsHold(s: State, steps: seq<Step>, step: Step)
    requires Initial(s) && CanRun(s, steps) && Enabled(Run(s, steps), step)
    ensures var e := Run(s, steps);
      && (step.Create? ==> Bit(e.word, 63) && Bit(Wrap(e.word + 1), 63))
      && (step.Release? ==> e.word > 0)
      && (step.Discard? ==> Bit(e.word, 63))
  {
    InitialHasInv(s);
    RunKeepsInv(s, steps);
    var e := Run(s, steps);
    HoldersBound(e);
    if step.Release? {
      assert step.t in Holders(e);
    } else if !e.discarded {
      TopBit(|Holders(e)|);
      if step.Create? {
        assert step.t !in Holders(e);
        assert Holders(e) + {step.t} <= e.threads.Keys;
        SubsetSize(Holders(e) + {step.t}, e.threads.Keys);
        WrapIsExact(e.word + 1);
        TopBit(|Holders(e)| + 1);
      }
    }
  }

  lemma TopBit(n: nat)
    requires n < REACHABLE
    ensures Bit(REACHABLE + n, 63)
  {
    ReachableBit();
    BitConcat(n, 1, 63, 63);
    BitOne(0);
  }
}
