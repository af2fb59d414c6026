/**
  Reading a built distribution: rank lookup, counting and quantiles (distribution.h).

  Everything is specified on `Values(d)`, the sorted list that the bins compress.
 */
module Queries {
  import opened Histogram
  import opened Builders

  /** distribution_len() */
  function Len(d: Distribution): nat
    requires Valid(d)
  {
    d.endRanks[|d.endRanks| - 1]
  }

  // ----- Ranks -----

  /** distribution_bin_by_rank() */
  method BinByRank(d: Distribution, rank: nat) returns (bin: nat)
    requires Valid(d) && rank < Len(d)
    ensures bin < |d.values| && StartRank(d.endRanks, bin) <= rank < d.endRanks[bin]
  {
    if rank < d.endRanks[0] {
      return 0;
    }
    var below, above := 0, |d.values| - 1;
    while above - below > 1
      invariant 0 <= below < above < |d.values|
      invariant d.endRanks[below] <= rank < d.endRanks[above]
    {
      var middle := below + (above - below) / 2;
      if d.endRanks[middle] > rank {
        above := middle;
      } else {
        below := middle;
      }
    }
    bin := above;
  }

  /** distribution_nth() */
  method Nth(d: Distribution, rank: nat) returns (value: int)
    requires Valid(d) && rank < Len(d)
    ensures value == Values(d)[rank]
  {
    var bin := BinByRank(d, rank);
    ExpandAt(d.values, d.endRanks, bin, rank);
    value := d.values[bin];
  }

  /** Insert the values of `xs` one by one into an empty builder, and build. */
  method Record(builder: Builder, xs: seq<int>) returns (d: Distribution, storage: Storage)
    requires builder.Valid() && builder.inserted == multiset{} && |xs| > 0
    modifies builder, builder.values, builder.counts
    ensures Valid(d) && multiset(Values(d)) == multiset(xs)
    ensures storage.Usable() && d == storage.View()
    ensures storage.values == old(builder.values) || fresh(storage.values)
    ensures storage.endRanks == old(builder.counts) || fresh(storage.endRanks)
  {
    for i := 0 to |xs|
      invariant builder.Valid() && builder.inserted == multiset(xs[..i])
      invariant builder.values == old(builder.values) || fresh(builder.values)
      invariant builder.counts == old(builder.counts) || fresh(builder.counts)
    {
      builder.Insert(xs[i], 1);
      assert xs[..i + 1] == xs[..i] + [xs[i]];
    }
    assert xs[..|xs|] == xs;
    NonEmptyBins(builder.values[..builder.numBins], builder.counts[..builder.numBins], builder.inserted, xs[0]);
    d, storage := builder.Build();
  }

  /** Read every rank. */
  method ReadAll(d: Distribution) returns (list: seq<int>)
    requires Valid(d)
    ensures list == Values(d) && Sorted(list)
  {
    list := [];
    for r := 0 to Len(d)
      invariant list == Values(d)[..r]
    {
      var value := Nth(d, r);
      list := list + [value];
    }
    assert Values(d)[..Len(d)] == Values(d);
    ExpandSorted(d.values, d.endRanks);
  }

  /** Record `xs`, build, and read every rank back: the result is `xs`, sorted. This is the
      whole life cycle, through any number of shifts and reallocations. */
  method RecordAndReadBack(xs: seq<int>, capacity: nat) returns (list: seq<int>)
    requires |xs| > 0 && capacity >= 1
    ensures Sorted(list) && multiset(list) == multiset(xs) && |list| == |xs|
  {
    var builder := new Builder(capacity);
    var d, storage := Record(builder, xs);
    list := ReadAll(d);
    assert |multiset(list)| == |list| && |multiset(xs)| == |xs|;
  }

  /** Recycling the memory of a distribution forgets everything it held: what is read back
      after a reset is what was recorded since. */
  method RecycleAndReadBack(xs: seq<int>, ys: seq<int>, capacity: nat) returns (list: seq<int>)
    requires |xs| > 0 && |ys| > 0 && capacity >= 1
    ensures Sorted(list) && multiset(list) == multiset(ys) && |list| == |ys|
  {
    var builder := new Builder(capacity);
    var d, storage := Record(builder, xs);
    builder, storage := Reset(storage);
    d, storage := Record(builder, ys);
    list := ReadAll(d);
    assert |multiset(list)| == |list| && |multiset(ys)| == |ys|;
  }

  lemma NonEmptyBins(values: seq<int>, counts: seq<nat>, inserted: multiset<int>, x: int)
    requires Recorded(values, counts, inserted) && x in inserted
    ensures |values| > 0
  {
    assert CountIn(values, counts, x) == inserted[x];
  }

  /** Whatever sorted list holds the inserted values, it is the one that is read back. */
  lemma ReadBackIsUnique(list: seq<int>, xs: seq<int>, sorted: seq<int>)
    requires Sorted(list) && multiset(list) == multiset(xs)
    requires Sorted(sorted) && multiset(sorted) == multiset(xs)
    ensures list == sorted
  {
    SortedUnique(list, sorted);
  }

  // ----- Counting -----

  predicate Counted(v: int, x: int, includeEqual: bool) {
    v < x || (includeEqual && v == x)
  }

  /** `r` values of the list are below `x`: they are the first `r`. */
  ghost predicate CountsBelow(list: seq<int>, x: int, includeEqual: bool, r: nat) {
    && r <= |list|
    && forall i :: 0 <= i < |list| ==> (i < r <==> Counted(list[i], x, includeEqual))
  }

  /** How many values of the list, in whatever order, are below `x`. */
  function NumBelow(list: seq<int>, x: int, includeEqual: bool): nat {
    if |list| == 0 then 0
    else
      var n := |list| - 1;
      NumBelow(list[..n], x, includeEqual) + (if Counted(list[n], x, includeEqual) then 1 else 0)
  }

  /** If the first `k` values of a list are below `x` there are at least `k`, and if only those
      are there are at most `k`. */
  lemma {:induction false} NumBelowBounds(list: seq<int>, x: int, includeEqual: bool, k: nat, n: nat)
    requires k <= |list| && n <= |list|
    ensures (forall i :: 0 <= i < k ==> Counted(list[i], x, includeEqual)) && k <= n ==>
      NumBelow(list[..n], x, includeEqual) >= k
    ensures (forall i :: k <= i < |list| ==> !Counted(list[i], x, includeEqual)) ==>
      NumBelow(list[..n], x, includeEqual) <= k
    ensures NumBelow(list[..n], x, includeEqual) <= n
    decreases n, k
  {
    if n > 0 {
      assert list[..n][..n - 1] == list[..n - 1];
      NumBelowBounds(list, x, includeEqual, k, n - 1);
      if k == n { NumBelowBounds(list, x, includeEqual, k - 1, n - 1); }
    }
  }

  lemma CountIsNumBelow(list: seq<int>, x: int, includeEqual: bool, r: nat)
    requires CountsBelow(list, x, includeEqual, r)
    ensures NumBelow(list, x, includeEqual) == r
  {
    NumBelowBounds(list, x, includeEqual, r, |list|);
    assert list[..|list|] == list;
  }

  /** distribution_count_below() */
  method CountBelow(d: Distribution, value: int, includeEqual: bool) returns (r: nat)
    requires Valid(d)
    ensures CountsBelow(Values(d), value, includeEqual, r)
    ensures r == NumBelow(Values(d), value, includeEqual)
  {
    r := CountBins(d, value, includeEqual);
    CountIsNumBelow(Values(d), value, includeEqual, r);
  }

  method CountBins(d: Distribution, value: int, includeEqual: bool) returns (r: nat)
    requires Valid(d)
    ensures CountsBelow(Values(d), value, includeEqual, r)
  {
    var pos := BinByValue(d.values, value, BinBelow);
    if pos == BeforeAll {
      CountsAtBin(d, value, includeEqual, 0);
      return 0;
    }
    var i := pos.index;
    if d.values[i] < value || includeEqual {
      CountsAtBin(d, value, includeEqual, i + 1);
      return d.endRanks[i];
    } else {
      CountsAtBin(d, value, includeEqual, i);
      return if i == 0 then 0 else d.endRanks[i - 1];
    }
  }

  /** If exactly the first `n` bins are below `value`, their end rank is the count. */
  lemma CountsAtBin(d: Distribution, value: int, includeEqual: bool, n: nat)
    requires Valid(d) && n <= |d.values|
    requires forall j :: 0 <= j < |d.values| ==> (j < n <==> Counted(d.values[j], value, includeEqual))
    ensures CountsBelow(Values(d), value, includeEqual, StartRank(d.endRanks, n))
  {
    RanksMonotone(d.endRanks, n, |d.values|);
    forall r | 0 <= r < |Values(d)|
      ensures r < StartRank(d.endRanks, n) <==> Counted(Values(d)[r], value, includeEqual)
    {
      var j := BinOfRank(d.endRanks, r);
      ExpandAt(d.values, d.endRanks, j, r);
      if j < n { RanksMonotone(d.endRanks, j + 1, n); } else { RanksMonotone(d.endRanks, n, j); }
    }
  }

  // ----- Quantiles, with the probability as a real number -----

  function Ceil(x: real): int {
    -((-x).Floor)
  }

  lemma CeilBounds(x: real)
    ensures x <= Ceil(x) as real < x + 1.0
  {
  }

  lemma CeilLeast(x: real, n: int)
    ensures n as real >= x <==> n >= Ceil(x)
  {
    CeilBounds(x);
  }

  /** The rank that distribution_quantile() looks up. */
  function QuantileRank(len: nat, probability: real): int {
    var minValuesBelow := Ceil(probability * len as real);
    if minValuesBelow == 0 then 0 else minValuesBelow - 1
  }

  lemma QuantileRankInRange(len: nat, probability: real)
    requires len >= 1 && 0.0 <= probability <= 1.0
    ensures 0 <= QuantileRank(len, probability) < len
  {
    var x := probability * len as real;
    assert 0.0 <= x <= len as real by {
      assert (1.0 - probability) * len as real >= 0.0;
    }
    CeilLeast(x, len);
    CeilBounds(x);
  }

  /** The documented quantile: the lowest value of the list such that the fraction of values up
      to it is at least the probability. */
  ghost predicate IsQuantile(list: seq<int>, probability: real, value: int) {
    && value in list
    && NumBelow(list, value, true) as real >= probability * |list| as real
    && forall x :: x in list && x < value ==> (NumBelow(list, x, true) as real) < probability * |list| as real
  }

  lemma RankIsQuantile(list: seq<int>, probability: real)
    requires Sorted(list) && |list| >= 1 && 0.0 <= probability <= 1.0
    ensures 0 <= QuantileRank(|list|, probability) < |list|
    ensures IsQuantile(list, probability, list[QuantileRank(|list|, probability)])
  {
    var need := probability * |list| as real;
    QuantileRankInRange(|list|, probability);
    var rank := QuantileRank(|list|, probability);
    var value := list[rank];
    assert list[..|list|] == list;
    NumBelowBounds(list, value, true, rank + 1, |list|);
    CeilLeast(need, rank + 1);
    forall x | x in list && x < value
      ensures (NumBelow(list, x, true) as real) < need
    {
      assert list[0] <= x;
      NumBelowBounds(list, x, true, rank, |list|);
      CeilLeast(need, NumBelow(list, x, true));
    }
  }

  /** distribution_quantile() */
  method Quantile(d: Distribution, probability: real) returns (value: int)
    requires Valid(d) && 0.0 <= probability <= 1.0
    ensures IsQuantile(Values(d), probability, value)
    ensures probability == 0.0 ==> value == Values(d)[0]
  {
    var len := Len(d);
    ExpandSorted(d.values, d.endRanks);
    RankIsQuantile(Values(d), probability);
    var rank := QuantileRank(len, probability);
    value := Nth(d, rank);
    if probability == 0.0 { LowestQuantile(Values(d), value); }
  }

  lemma LowestQuantile(list: seq<int>, value: int)
    requires Sorted(list) && |list| >= 1 && IsQuantile(list, 0.0, value)
    ensures value == list[0]
  {
    assert 0.0 * |list| as real == 0.0;
    assert list[0] in list && NumBelow(list, list[0], true) as real >= 0.0;
  }

  lemma {:induction false} NumBelowMonotone(list: seq<int>, x: int, y: int)
    requires x <= y
    ensures NumBelow(list, x, true) <= NumBelow(list, y, true)
    decreases |list|
  {
    if |list| > 0 { NumBelowMonotone(list[..|list| - 1], x, y); }
  }

  /** The largest value up to `x` has as many values up to it as `x`. */
  lemma {:induction false} LargestUpTo(list: seq<int>, x: int) returns (y: int)
    requires NumBelow(list, x, true) > 0
    ensures y in list && y <= x && NumBelow(list, y, true) == NumBelow(list, x, true)
    decreases |list|
  {
    var n := |list| - 1;
    var init, last := list[..n], list[n];
    if NumBelow(init, x, true) == 0 {
      y := last;
    } else {
      var below := LargestUpTo(init, x);
      y := if below < last <= x then last else below;
      NumBelowMonotone(init, below, y);
    }
    NumBelowMonotone(init, y, x);
  }

  /** Quantile and counting are dual: for a positive probability, the quantile is at most `x`
      exactly when the fraction of values up to `x` reaches the probability. */
  lemma QuantileDuality(list: seq<int>, probability: real, value: int, x: int)
    requires |list| > 0 && 0.0 < probability <= 1.0 && IsQuantile(list, probability, value)
    ensures value <= x <==> NumBelow(list, x, true) as real >= probability * |list| as real
  {
    var need := probability * |list| as real;
    assert need > 0.0;
    if value <= x {
      NumBelowMonotone(list, value, x);
    } else if NumBelow(list, x, true) > 0 {
      var y := LargestUpTo(list, x);
    }
  }

  /** Every rank lies between the two counts of its own value. */
  lemma RankBetweenCounts(list: seq<int>, rank: nat)
    requires Sorted(list) && rank < |list|
    ensures NumBelow(list, list[rank], false) <= rank < NumBelow(list, list[rank], true)
  {
    NumBelowBounds(list, list[rank], false, rank, |list|);
    NumBelowBounds(list, list[rank], true, rank + 1, |list|);
    assert list[..|list|] == list;
  }
}
