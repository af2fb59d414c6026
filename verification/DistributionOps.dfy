/**
  Distributions made from other distributions (distribution.c). rand() is an
  arbitrary stream of draws.
 */
module Operations {
  import opened Histogram
  import opened Builders
  import opened Queries

  type Draws = nat -> nat

  // ----- Sampling -----

  /** A draw counts through the list again and again: whatever number of full turns it makes, it
      picks the element where it stops. */
  ghost predicate Picks(list: seq<int>, draw: nat, value: int) {
    exists turns: nat, r: nat :: r < |list| && StopsAt(list, draw, turns, r) && value == list[r]
  }

  predicate StopsAt(list: seq<int>, draw: nat, turns: nat, r: nat) {
    draw == turns * |list| + r
  }

  /** There is only one place to stop. */
  lemma StopsOnce(list: seq<int>, draw: nat, p: nat, r: nat, q: nat, t: nat)
    requires StopsAt(list, draw, p, r) && StopsAt(list, draw, q, t) && r < |list| && t < |list|
    ensures r == t
  {
    assert p < q ==> (p + 1) * |list| <= q * |list|;
    assert q < p ==> (q + 1) * |list| <= p * |list|;
  }

  /** The laws of sampling: a draw below the length picks the element of that rank, so the draws
      0, 1, 2, ... pick the whole list in order, and a full turn changes nothing. */
  lemma DrawsEnumerateList(list: seq<int>, draw: nat, value: int)
    requires |list| > 0 && Picks(list, draw, value)
    ensures draw < |list| ==> value == list[draw]
    ensures Picks(list, draw + |list|, value)
  {
    var turns: nat, r: nat :| r < |list| && StopsAt(list, draw, turns, r) && value == list[r];
    assert StopsAt(list, draw + |list|, turns + 1, r) by {
      assert (turns + 1) * |list| == turns * |list| + |list|;
    }
    if draw < |list| {
      assert StopsAt(list, draw, 0, draw);
      StopsOnce(list, draw, turns, r, 0, draw);
    }
  }

  /** The value of `list` that a draw selects. */
  function DrawFrom(list: seq<int>, draw: nat): int
    requires |list| > 0
  {
    list[draw % |list|]
  }

  lemma DrawPicks(list: seq<int>, draw: nat)
    requires |list| > 0
    ensures Picks(list, draw, DrawFrom(list, draw))
  {
    assert StopsAt(list, draw, draw / |list|, draw % |list|) by {
      assert draw == (draw / |list|) * |list| + draw % |list|;
    }
  }

  /** distribution_choose(), on one draw */
  method Choose(d: Distribution, draw: nat) returns (value: int)
    requires Valid(d)
    ensures Picks(Values(d), draw, value)
    ensures value == DrawFrom(Values(d), draw)
  {
    value := Nth(d, draw % Len(d));
    DrawPicks(Values(d), draw);
  }

  /** The list that distribution_resample() records. */
  function Resampled(list: seq<int>, rand: Draws): (r: seq<int>)
    requires |list| > 0
  {
    seq(|list|, (i: nat) => DrawFrom(list, rand(i)))
  }

  lemma WholePrefix(samples: seq<int>, n: nat)
    requires n == |samples|
    ensures samples[..n] == samples
  {
  }

  /** Inserting sample `i` after the samples before it. */
  method InsertSample(builder: Builder, value: int, ghost samples: seq<int>, ghost i: nat)
    requires builder.Valid() && i < |samples| && value == samples[i]
    requires builder.inserted == multiset(samples[..i])
    modifies builder, builder.values, builder.counts
    ensures builder.Valid() && builder.inserted == multiset(samples[..i + 1])
    ensures builder.values == old(builder.values) || fresh(builder.values)
    ensures builder.counts == old(builder.counts) || fresh(builder.counts)
  {
    builder.Insert(value, 1);
    assert samples[..i + 1] == samples[..i] + [samples[i]];
  }

  /** distribution_resample() keeps the number of values and invents none. */
  method Resample(builder: Builder, d: Distribution, rand: Draws) returns (r: Distribution)
    requires builder.Valid() && builder.inserted == multiset{} && Valid(d)
    modifies builder, builder.values, builder.counts
    ensures Valid(r) && Len(r) == Len(d)
    ensures multiset(Values(r)) == multiset(Resampled(Values(d), rand))
    ensures forall i: nat :: i < Len(d) ==> Picks(Values(d), rand(i), Resampled(Values(d), rand)[i])
    ensures forall x :: x in Values(r) ==> x in Values(d)
  {
    ghost var list := Values(d);
    ghost var samples := Resampled(list, rand);
    var len := Len(d);
    for i := 0 to len
      invariant builder.Valid() && builder.inserted == multiset(samples[..i])
      invariant builder.values == old(builder.values) || fresh(builder.values)
      invariant builder.counts == old(builder.counts) || fresh(builder.counts)
    {
      var value := Choose(d, rand(i));
      assert samples[i] == DrawFrom(list, rand(i));
      InsertSample(builder, value, samples, i);
    }
    WholePrefix(samples, len);
    r := BuildSamples(builder, samples);
    NoValueInvented(list, rand, Values(r));
    forall i: nat | i < len ensures Picks(list, rand(i), samples[i]) { DrawPicks(list, rand(i)); }
  }

  /** Resampling only repeats values that are there. */
  lemma NoValueInvented(list: seq<int>, rand: Draws, result: seq<int>)
    requires |list| > 0 && multiset(result) == multiset(Resampled(list, rand))
    ensures forall x :: x in result ==> x in list
  {
    var samples := Resampled(list, rand);
    forall x | x in result ensures x in list {
      assert x in multiset(result) && x in multiset(samples);
      var i: nat :| i < |samples| && samples[i] == x;
    }
  }

  /** Building a builder that holds the samples. */
  method BuildSamples(builder: Builder, ghost samples: seq<int>) returns (r: Distribution)
    requires builder.Valid() && builder.inserted == multiset(samples) && |samples| > 0
    modifies builder, builder.counts
    ensures Valid(r) && multiset(Values(r)) == multiset(samples) && Len(r) == |samples|
  {
    assert samples[0] in multiset(samples);
    NonEmptyBins(builder.values[..builder.numBins], builder.counts[..builder.numBins], builder.inserted, samples[0]);
    var storage;
    r, storage := builder.Build();
    assert |multiset(Values(r))| == |Values(r)| && |multiset(samples)| == |samples|;
  }

  // ----- distribution_sub() -----

  /** Sample `i` of distribution_sub(): the value of rank `i` on the shorter side against a
      drawn value of the longer side, as minuend minus subtrahend. */
  function DifferenceAt(minuend: seq<int>, subtrahend: seq<int>, rand: Draws, i: nat): int
    requires i < |minuend| && i < |subtrahend|
  {
    if |minuend| <= |subtrahend| then minuend[i] - DrawFrom(subtrahend, rand(i))
    else DrawFrom(minuend, rand(i)) - subtrahend[i]
  }

  function Differences(minuend: seq<int>, subtrahend: seq<int>, rand: Draws): (r: seq<int>) {
    var n := if |minuend| <= |subtrahend| then |minuend| else |subtrahend|;
    seq(n, (i: nat) requires i < n => DifferenceAt(minuend, subtrahend, rand, i))
  }

  ghost predicate IsDifference(minuend: seq<int>, subtrahend: seq<int>, x: int) {
    exists m, s :: m in minuend && s in subtrahend && x == m - s
  }

  /** Every sample is a difference of a value of the minuend and one of the subtrahend. */
  lemma DifferencesAreDifferences(minuend: seq<int>, subtrahend: seq<int>, rand: Draws, x: int)
    requires |minuend| > 0 && |subtrahend| > 0 && x in Differences(minuend, subtrahend, rand)
    ensures IsDifference(minuend, subtrahend, x)
  {
    var i: nat :| i < |Differences(minuend, subtrahend, rand)| && x == Differences(minuend, subtrahend, rand)[i];
    if |minuend| <= |subtrahend| {
      var m, s := minuend[i], DrawFrom(subtrahend, rand(i));
      assert m in minuend && s in subtrahend && x == m - s;
    } else {
      var m, s := DrawFrom(minuend, rand(i)), subtrahend[i];
      assert m in minuend && s in subtrahend && x == m - s;
    }
  }

  /** `diff_sign * (short_value - drawn)` */
  function SignedDifference(sign: bool, value: int, drawn: int): int {
    (if sign then 1 else -1) * (value - drawn)
  }

  ghost predicate SampleAgainst(samples: seq<int>, value: int, sign: bool, longer: Distribution, rand: Draws, i: nat)
    requires Valid(longer) && i < |samples|
  {
    samples[i] == SignedDifference(sign, value, DrawFrom(Values(longer), rand(i)))
  }

  /** Samples [first, end) compare `value` with draws from `longer`. */
  ghost predicate SamplesAgainst(samples: seq<int>, value: int, sign: bool, longer: Distribution, rand: Draws,
                                 first: nat, end: nat)
    requires Valid(longer) && end <= |samples|
  {
    forall i: nat :: first <= i < end ==> SampleAgainst(samples, value, sign, longer, rand, i)
  }

  /** One sample: draw from the longer side and insert the difference. */
  method InsertDifference(builder: Builder, value: int, sign: bool, longer: Distribution, draw: nat,
                          ghost samples: seq<int>, ghost i: nat)
    requires builder.Valid() && Valid(longer) && i < |samples|
    requires builder.inserted == multiset(samples[..i])
    requires samples[i] == SignedDifference(sign, value, DrawFrom(Values(longer), draw))
    modifies builder, builder.values, builder.counts
    ensures builder.Valid() && builder.inserted == multiset(samples[..i + 1])
    ensures builder.values == old(builder.values) || fresh(builder.values)
    ensures builder.counts == old(builder.counts) || fresh(builder.counts)
  {
    var drawn := Choose(longer, draw);
    InsertSample(builder, SignedDifference(sign, value, drawn), samples, i);
  }

  /** The inner loop of distribution_sub(): one sample for each occurrence of a bin's value. */
  method InsertBin(builder: Builder, value: int, sign: bool, longer: Distribution, rand: Draws,
                   first: nat, end: nat, ghost samples: seq<int>)
    requires builder.Valid() && Valid(longer) && first <= end <= |samples|
    requires builder.inserted == multiset(samples[..first])
    requires SamplesAgainst(samples, value, sign, longer, rand, first, end)
    modifies builder, builder.values, builder.counts
    ensures builder.Valid() && builder.inserted == multiset(samples[..end])
    ensures builder.values == old(builder.values) || fresh(builder.values)
    ensures builder.counts == old(builder.counts) || fresh(builder.counts)
  {
    for i := first to end
      invariant builder.Valid() && builder.inserted == multiset(samples[..i])
      invariant builder.values == old(builder.values) || fresh(builder.values)
      invariant builder.counts == old(builder.counts) || fresh(builder.counts)
    {
      assert SampleAgainst(samples, value, sign, longer, rand, i);
      InsertDifference(builder, value, sign, longer, rand(i), samples, i);
    }
  }

  /** `samples` belongs to the two sides; `sign` tells that the shorter one is the minuend. */
  ghost predicate AreDifferences(samples: seq<int>, shorter: Distribution, longer: Distribution, sign: bool,
                                 rand: Draws)
    requires Valid(shorter) && Valid(longer)
  {
    if sign then Len(shorter) <= Len(longer) && samples == Differences(Values(shorter), Values(longer), rand)
    else Len(shorter) < Len(longer) && samples == Differences(Values(longer), Values(shorter), rand)
  }

  /** The samples of one bin of the shorter side, in either orientation. */
  lemma SamplesOfBin(shorter: Distribution, longer: Distribution, sign: bool, rand: Draws,
                     samples: seq<int>, bin: nat)
    requires Valid(shorter) && Valid(longer) && bin < |shorter.values|
    requires AreDifferences(samples, shorter, longer, sign, rand)
    ensures shorter.endRanks[bin] <= |samples|
    ensures SamplesAgainst(samples, shorter.values[bin], sign, longer, rand,
                           StartRank(shorter.endRanks, bin), shorter.endRanks[bin])
  {
    RanksMonotone(shorter.endRanks, bin + 1, |shorter.endRanks|);
    forall i: nat | StartRank(shorter.endRanks, bin) <= i < shorter.endRanks[bin]
      ensures SampleAgainst(samples, shorter.values[bin], sign, longer, rand, i)
    {
      ExpandAt(shorter.values, shorter.endRanks, bin, i);
    }
  }

  /** Every bin of the shorter side has its samples. */
  ghost predicate SamplesPerBin(samples: seq<int>, shorter: Distribution, longer: Distribution, sign: bool, rand: Draws)
    requires Valid(shorter) && Valid(longer)
  {
    && |samples| == StartRank(shorter.endRanks, |shorter.values|)
    && forall bin: nat :: bin < |shorter.values| ==>
         && shorter.endRanks[bin] <= |samples|
         && SamplesAgainst(samples, shorter.values[bin], sign, longer, rand,
                           StartRank(shorter.endRanks, bin), shorter.endRanks[bin])
  }

  lemma DifferencesPerBin(shorter: Distribution, longer: Distribution, sign: bool, rand: Draws,
                          samples: seq<int>)
    requires Valid(shorter) && Valid(longer) && AreDifferences(samples, shorter, longer, sign, rand)
    ensures SamplesPerBin(samples, shorter, longer, sign, rand)
  {
    forall bin: nat | bin < |shorter.values|
      ensures shorter.endRanks[bin] <= |samples|
      ensures SamplesAgainst(samples, shorter.values[bin], sign, longer, rand,
                             StartRank(shorter.endRanks, bin), shorter.endRanks[bin])
    {
      SamplesOfBin(shorter, longer, sign, rand, samples, bin);
    }
  }

  /** The main loop of distribution_sub(): iterate over the bins of the shorter side. */
  method InsertAllBins(builder: Builder, shorter: Distribution, longer: Distribution, sign: bool, rand: Draws,
                       ghost samples: seq<int>)
    requires builder.Valid() && builder.inserted == multiset{} && Valid(shorter) && Valid(longer)
    requires SamplesPerBin(samples, shorter, longer, sign, rand)
    modifies builder, builder.values, builder.counts
    ensures builder.Valid() && builder.inserted == multiset(samples)
    ensures builder.values == old(builder.values) || fresh(builder.values)
    ensures builder.counts == old(builder.counts) || fresh(builder.counts)
  {
    var previousEnd := 0;
    for bin := 0 to |shorter.values|
      invariant previousEnd == StartRank(shorter.endRanks, bin) <= |samples|
      invariant builder.Valid() && builder.inserted == multiset(samples[..previousEnd])
      invariant builder.values == old(builder.values) || fresh(builder.values)
      invariant builder.counts == old(builder.counts) || fresh(builder.counts)
    {
      var end := shorter.endRanks[bin];
      InsertBin(builder, shorter.values[bin], sign, longer, rand, previousEnd, end, samples);
      previousEnd := end;
    }
    WholePrefix(samples, previousEnd);
  }

  /** distribution_sub() */
  method Sub(builder: Builder, minuend: Distribution, subtrahend: Distribution, rand: Draws)
      returns (r: Distribution)
    requires builder.Valid() && builder.inserted == multiset{} && Valid(minuend) && Valid(subtrahend)
    modifies builder, builder.values, builder.counts
    ensures Valid(r)
    ensures Len(r) == if Len(minuend) <= Len(subtrahend) then Len(minuend) else Len(subtrahend)
    ensures multiset(Values(r)) == multiset(Differences(Values(minuend), Values(subtrahend), rand))
    ensures forall i: nat :: i < Len(r) ==> IsSample(Values(minuend), Values(subtrahend), rand(i), i,
                                                     Differences(Values(minuend), Values(subtrahend), rand)[i])
    ensures forall x :: x in Values(r) ==> IsDifference(Values(minuend), Values(subtrahend), x)
  {
    ghost var samples := Differences(Values(minuend), Values(subtrahend), rand);
    if Len(minuend) <= Len(subtrahend) {
      DifferencesPerBin(minuend, subtrahend, true, rand, samples);
      InsertAllBins(builder, minuend, subtrahend, true, rand, samples);
    } else {
      DifferencesPerBin(subtrahend, minuend, false, rand, samples);
      InsertAllBins(builder, subtrahend, minuend, false, rand, samples);
    }
    r := BuildSamples(builder, samples);
    OnlyDifferences(Values(minuend), Values(subtrahend), rand, Values(r));
    forall i: nat | i < |samples|
      ensures IsSample(Values(minuend), Values(subtrahend), rand(i), i, samples[i])
    {
      SamplesArePicked(Values(minuend), Values(subtrahend), rand, i);
    }
  }

  /** Sample `i` subtracts: the element of rank `i` of the side with fewer values, the minuend on a
      tie, is paired with the element of the other side that the draw picks. */
  ghost predicate IsSample(minuend: seq<int>, subtrahend: seq<int>, draw: nat, i: nat, x: int) {
    && i < |minuend| && i < |subtrahend|
    && if |minuend| <= |subtrahend| then Picks(subtrahend, draw, minuend[i] - x)
       else Picks(minuend, draw, x + subtrahend[i])
  }

  lemma SamplesArePicked(minuend: seq<int>, subtrahend: seq<int>, rand: Draws, i: nat)
    requires i < |Differences(minuend, subtrahend, rand)|
    ensures IsSample(minuend, subtrahend, rand(i), i, Differences(minuend, subtrahend, rand)[i])
  {
    if |minuend| <= |subtrahend| { DrawPicks(subtrahend, rand(i)); } else { DrawPicks(minuend, rand(i)); }
  }

  lemma OnlyDifferences(minuend: seq<int>, subtrahend: seq<int>, rand: Draws, result: seq<int>)
    requires |minuend| > 0 && |subtrahend| > 0
    requires multiset(result) == multiset(Differences(minuend, subtrahend, rand))
    ensures forall x :: x in result ==> IsDifference(minuend, subtrahend, x)
  {
    forall x | x in result
      ensures IsDifference(minuend, subtrahend, x)
    {
      assert x in multiset(result) && x in multiset(Differences(minuend, subtrahend, rand));
      DifferencesAreDifferences(minuend, subtrahend, rand, x);
    }
  }

  // ----- distribution_scale() -----

  function ScaleSeq(list: seq<int>, factor: int): (r: seq<int>)
    ensures |r| == |list| && forall i :: 0 <= i < |list| ==> r[i] == factor * list[i]
  {
    seq(|list|, i requires 0 <= i < |list| => factor * list[i])
  }

  function Reversed<T>(s: seq<T>): (r: seq<T>)
    ensures |r| == |s|
  {
    seq(|s|, i requires 0 <= i < |s| => s[|s| - 1 - i])
  }

  lemma ReversedStep<T>(s: seq<T>)
    requires |s| > 0
    ensures Reversed(s) == [s[|s| - 1]] + Reversed(s[..|s| - 1])
  {
  }

  /** The counts behind end ranks. */
  function BinCounts(ranks: seq<nat>): (r: seq<nat>)
    requires ValidRanks(ranks)
    ensures RunningSums(r, ranks) && Positive(r)
  {
    seq(|ranks|, (i: nat) requires i < |ranks| => ranks[i] - StartRank(ranks, i))
  }

  /** Scaling commutes with expanding. */
  lemma ExpandScaled(values: seq<int>, ranks: seq<nat>, factor: int)
    requires |values| == |ranks| && ValidRanks(ranks)
    ensures Expand(ScaleSeq(values, factor), ranks) == ScaleSeq(Expand(values, ranks), factor)
  {
    var scaled, list := ScaleSeq(values, factor), Expand(values, ranks);
    forall r | 0 <= r < |list|
      ensures Expand(scaled, ranks)[r] == factor * list[r]
    {
      var i := BinOfRank(ranks, r);
      ExpandAt(values, ranks, i, r);
      ExpandAt(scaled, ranks, i, r);
    }
  }

  lemma {:induction false} CountReversed(values: seq<int>, counts: seq<nat>, x: int)
    requires |values| == |counts|
    ensures CountIn(Reversed(values), Reversed(counts), x) == CountIn(values, counts, x)
    decreases |values|
  {
    if |values| > 0 {
      var n := |values| - 1;
      CountReversed(values[..n], counts[..n], x);
      ReversedStep(values);
      ReversedStep(counts);
      CountSplit([values[n]], [counts[n]], Reversed(values[..n]), Reversed(counts[..n]), x);
    }
  }

  /** Bin order is kept by a positive factor and flipped by a negative one. */
  function Oriented<T>(s: seq<T>, factor: int): seq<T> {
    if factor > 0 then s else Reversed(s)
  }

  lemma ScaledIncreasing(values: seq<int>, factor: int)
    requires Increasing(values) && factor != 0
    ensures Increasing(Oriented(ScaleSeq(values, factor), factor))
  {
    var scaled := ScaleSeq(values, factor);
    forall i, j | 0 <= i < j < |values|
      ensures if factor > 0 then scaled[i] < scaled[j] else scaled[j] < scaled[i]
    {
      ScaleOrder(factor, values[i], values[j]);
    }
  }

  lemma OrientedPositive(counts: seq<nat>, factor: int)
    requires Positive(counts)
    ensures Positive(Oriented(counts, factor))
  {
  }

  /** The bins that distribution_scale() writes record exactly the scaled values, in strictly
      increasing order. */
  lemma ScaledBinsRecorded(d: Distribution, factor: int)
    requires Valid(d) && factor != 0
    ensures Recorded(Oriented(ScaleSeq(d.values, factor), factor), Oriented(BinCounts(d.endRanks), factor),
                     multiset(ScaleSeq(Values(d), factor)))
  {
    var scaled, plain := ScaleSeq(d.values, factor), BinCounts(d.endRanks);
    ScaledIncreasing(d.values, factor);
    OrientedPositive(plain, factor);
    ExpandScaled(d.values, d.endRanks, factor);
    forall x
      ensures CountIn(Oriented(scaled, factor), Oriented(plain, factor), x)
           == multiset(ScaleSeq(Values(d), factor))[x]
    {
      ExpandCount(scaled, plain, d.endRanks, x);
      CountReversed(scaled, plain, x);
    }
  }

  lemma ScaleOrder(factor: int, a: int, b: int)
    requires factor != 0 && a < b
    ensures if factor > 0 then factor * a < factor * b else factor * b < factor * a
  {
    assert factor > 0 ==> factor * (b - a) > 0;
    assert factor < 0 ==> factor * (b - a) < 0;
  }

  /** Has position `k` been written after `i` of `n` bins? */
  predicate Written(factor: int, n: nat, i: nat, k: int) {
    if factor > 0 then 0 <= k < i else n - i <= k < n
  }

  /** The loop of distribution_scale() over the input bins. */
  method WriteScaled(values: array<int>, counts: array<nat>, d: Distribution, factor: int)
    requires Valid(d) && factor != 0 && |d.values| <= values.Length == counts.Length
    requires values as object != counts
    modifies values, counts
    ensures values[..|d.values|] == Oriented(ScaleSeq(d.values, factor), factor)
    ensures counts[..|d.values|] == Oriented(BinCounts(d.endRanks), factor)
  {
    var n := |d.values|;
    ghost var outValues := Oriented(ScaleSeq(d.values, factor), factor);
    ghost var outCounts := Oriented(BinCounts(d.endRanks), factor);
    var previousEnd := 0;
    for i := 0 to n
      invariant previousEnd == StartRank(d.endRanks, i)
      invariant forall k :: 0 <= k < n && Written(factor, n, i, k) ==> values[k] == outValues[k]
      invariant forall k :: 0 <= k < n && Written(factor, n, i, k) ==> counts[k] == outCounts[k]
    {
      var scaledValue := factor * d.values[i];
      var end := d.endRanks[i];
      var count := end - previousEnd;
      previousEnd := end;
      var pos := if factor > 0 then i else n - i - 1;
      assert outValues[pos] == scaledValue && outCounts[pos] == count;
      values[pos] := scaledValue;
      counts[pos] := count;
    }
    assert forall k :: 0 <= k < n ==> Written(factor, n, n, k);
  }

  /** distribution_scale(); `capacity` is the capacity of the input's storage. */
  method Scale(builder: Builder, factor: int, d: Distribution, capacity: nat) returns (r: Distribution)
    requires builder.Valid() && builder.inserted == multiset{} && builder.numBins == 0
    requires Valid(d) && |d.values| <= capacity
    modifies builder, builder.values, builder.counts
    ensures Valid(r) && Len(r) == Len(d)
    ensures multiset(Values(r)) == multiset(ScaleSeq(Values(d), factor))
  {
    ghost var samples := ScaleSeq(Values(d), factor);
    if factor == 0 {
      builder.values[0] := 0;
      builder.counts[0] := Len(d);
      builder.numBins := 1;
      assert builder.values[..1] == [0] && builder.counts[..1] == [Len(d)];
      assert samples == Repeat(0, Len(d));
      forall x ensures CountIn([0], [Len(d)], x) == multiset(samples)[x] {
        CountRepeat(0, Len(d), x);
      }
    } else {
      var n := |d.values|;
      if builder.values.Length < n {
        builder.values := new int[capacity];
        builder.counts := new nat[capacity];
      }
      WriteScaled(builder.values, builder.counts, d, factor);
      builder.numBins := n;
      ScaledBinsRecorded(d, factor);
    }
    builder.inserted := multiset(samples);
    r := BuildSamples(builder, samples);
  }

  /** The simple form that distribution_scale() is documented to agree with: insert
      `factor * distribution_nth(i)` for every rank, then build. */
  method ScaleByInsertion(builder: Builder, factor: int, d: Distribution) returns (r: Distribution)
    requires builder.Valid() && builder.inserted == multiset{} && Valid(d)
    modifies builder, builder.values, builder.counts
    ensures Valid(r)
    ensures multiset(Values(r)) == multiset(ScaleSeq(Values(d), factor))
  {
    ghost var samples := ScaleSeq(Values(d), factor);
    for i := 0 to Len(d)
      invariant builder.Valid() && builder.inserted == multiset(samples[..i])
      invariant builder.values == old(builder.values) || fresh(builder.values)
      invariant builder.counts == old(builder.counts) || fresh(builder.counts)
    {
      var value := Nth(d, i);
      var scaledValue := factor * value;
      assert scaledValue == samples[i];
      InsertSample(builder, scaledValue, samples, i);
    }
    assert samples[..Len(d)] == samples;
    r := BuildSamples(builder, samples);
  }

  /** Both forms give the very same distribution, bin for bin. */
  method ScaleBothWays(factor: int, d: Distribution, capacity: nat) returns (fast: Distribution, simple: Distribution)
    requires Valid(d) && |d.values| <= capacity
    ensures fast == simple && Valid(fast)
    ensures multiset(Values(fast)) == multiset(ScaleSeq(Values(d), factor))
  {
    var b1 := new Builder(capacity);
    fast := Scale(b1, factor, d, capacity);
    var b2 := new Builder(capacity);
    simple := ScaleByInsertion(b2, factor, d);
    SameValuesSameDistribution(fast, simple);
  }
}
