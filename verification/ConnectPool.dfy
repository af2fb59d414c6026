/**
  The lock-free pool of connection options: connect.c.

  Thirty-two slots are tracked by one atomic 32-bit mask, a set bit meaning a free
  slot. Client threads allocate with fetch_and, worker threads liberate with
  fetch_or, and clients that see an empty mask sleep on the mask's address.

  This is the slot selection of one call; ConnectProtocol has the interleavings.
 */
module ConnectPool {
  import opened Bits

  /** NUM_CONNECT_OPTIONS */
  const NUM_OPTIONS: nat := 32

  type Mask = m: nat | m < 0x1_0000_0000

  /** initial_availability_mask() */
  const ALL_FREE: Mask := 0xFFFF_FFFF

  // ----- Slot selection -----

  /** Slot `i` is free and exactly `k` free slots lie below it. */
  predicate IsNthFree(m: Mask, k: nat, i: nat) {
    i < NUM_OPTIONS && Bit(m, i) && Ones(m, i) == k
  }

  /** The slot that connect_options_allocate() goes for when it drew rank `k`: not the
      k-th free slot but the one after the free slot before it. */
  predicate IsTried(m: Mask, k: nat, idx: nat) {
    && k < Ones(m, NUM_OPTIONS)
    && idx < NUM_OPTIONS
    && (k == 0 ==> idx == 0)
    && (k > 0 ==> idx > 0 && IsNthFree(m, k - 1, idx - 1))
  }

  lemma {:induction false} OnesMonotone(m: nat, a: nat, b: nat)
    requires a <= b
    ensures Ones(m, a) <= Ones(m, b)
  {
    if a < b { OnesMonotone(m, a, b - 1); }
  }

  /** The (k+1)-th free slot exists, and the slot tried is never above it. */
  lemma {:induction false} TriedBelowFree(m: Mask, k: nat, idx: nat, n: nat) returns (i: nat)
    requires k < Ones(m, n) && n <= NUM_OPTIONS
    requires k == 0 ==> idx == 0
    requires k > 0 ==> idx > 0 && IsNthFree(m, k - 1, idx - 1)
    ensures idx <= i < n && IsNthFree(m, k, i)
  {
    if k < Ones(m, n - 1) {
      i := TriedBelowFree(m, k, idx, n - 1);
    } else {
      i := n - 1;
      if k > 0 && idx > i {
        OnesMonotone(m, n - 1, idx - 1);
        assert false;
      }
    }
  }

  lemma TriedIsUnique(m: Mask, k: nat, a: nat, b: nat)
    requires IsTried(m, k, a) && IsTried(m, k, b)
    ensures a == b
  {
    if k > 0 {
      if a < b { OnesMonotone(m, a, b - 1); }
      if b < a { OnesMonotone(m, b, a - 1); }
    }
  }

  lemma MaskIsWord(m: Mask)
    ensures m < WORD_LIMIT
    ensures forall i: nat :: i >= NUM_OPTIONS ==> !Bit(m, i)
  {
    Pow2Word();
    forall i: nat | i >= NUM_OPTIONS
      ensures !Bit(m, i)
    {
      BitAbove(m, NUM_OPTIONS, i);
    }
  }

  /** The selection loop of connect_options_allocate(). Every shift of the 32-bit mask is
      by less than 32. */
  method Select(availability: Mask, k: nat) returns (idx: nat)
    requires k < Ones(availability, NUM_OPTIONS)
    ensures IsTried(availability, k, idx)
  {
    idx := 0;
    MaskIsWord(availability);
    var rest: Word := availability;
    for i := 0 to k
      invariant forall j: nat :: Bit(rest, j) <==> Bit(availability, idx + j)
      invariant Ones(availability, idx) == i && idx < NUM_OPTIONS
      invariant if i == 0 then idx == 0 else idx > 0 && Bit(availability, idx - 1)
    {
      ghost var next := TriedBelowFree(availability, i, idx, NUM_OPTIONS);
      assert Bit(rest, next - idx);
      BitZero(next - idx);
      var zeros := CountTrailingZeros(rest);
      assert idx + zeros < NUM_OPTIONS;
      forall j: nat | idx <= j < idx + zeros
        ensures !Bit(availability, j)
      {
        assert !Bit(rest, j - idx);
      }
      OnesAboveGap(availability, idx, idx + zeros);
      assert Ones(availability, idx + zeros + 1) == i + 1;
      assert zeros + 1 < NUM_OPTIONS && idx + zeros + 1 < NUM_OPTIONS;
      rest := ShiftRight(rest, zeros + 1);
      idx := idx + (zeros + 1);
    }
  }

  /** Some draw makes the selection go for a free slot. */
  ghost predicate CanHit(m: Mask) {
    exists k: nat, idx: nat :: IsTried(m, k, idx) && Bit(m, idx)
  }

  /** No free slot has its lower neighbour free, and slot 0 is taken. */
  ghost predicate Isolated(m: Mask) {
    !Bit(m, 0) && forall i: nat :: i + 1 < NUM_OPTIONS && Bit(m, i) ==> !Bit(m, i + 1)
  }

  /** The selection can hit a free slot exactly when the free slots are not isolated. A
      caller cannot make progress on an isolated mask, whatever rand() returns. */
  lemma CanHitIffNotIsolated(m: Mask)
    ensures CanHit(m) <==> !Isolated(m)
  {
    if CanHit(m) {
      var k: nat, idx: nat :| IsTried(m, k, idx) && Bit(m, idx);
      if k > 0 {
        var i := idx - 1;
        assert Bit(m, i) && Bit(m, i + 1);
      }
    }
    if !Isolated(m) {
      if Bit(m, 0) {
        OnesMonotone(m, 1, NUM_OPTIONS);
        assert Ones(m, 1) == 1;
        assert IsTried(m, 0, 0);
      } else {
        var i: nat :| i + 1 < NUM_OPTIONS && Bit(m, i) && Bit(m, i + 1);
        NeighbourIsTried(m, i);
      }
    }
  }

  lemma NeighbourIsTried(m: Mask, i: nat)
    requires i + 1 < NUM_OPTIONS && Bit(m, i) && Bit(m, i + 1)
    ensures IsTried(m, Ones(m, i + 1), i + 1)
  {
    OnesMonotone(m, i + 2, NUM_OPTIONS);
    assert Ones(m, i + 2) == Ones(m, i + 1) + 1;
    assert Ones(m, i + 1) == Ones(m, i) + 1;
  }
}
