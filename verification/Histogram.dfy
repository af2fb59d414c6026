/**
  What a sparse histogram stands for.

  A builder holds strictly increasing values, each with a positive count; a built
  distribution holds the same values with the running sums of the counts, its end
  ranks. The simple thing behind both is the sorted list of all inserted values.
 */
module Histogram {

  predicate Increasing(s: seq<int>) {
    forall i, j :: 0 <= i < j < |s| ==> s[i] < s[j]
  }

  predicate Sorted(s: seq<int>) {
    forall i, j :: 0 <= i < j < |s| ==> s[i] <= s[j]
  }

  predicate Positive(counts: seq<nat>) {
    forall i :: 0 <= i < |counts| ==> counts[i] > 0
  }

  // ----- Builders -----

  /** How many copies of `x` the bins stand for. */
  function CountIn(values: seq<int>, counts: seq<nat>, x: int): nat
    requires |values| == |counts|
  {
    if |values| == 0 then 0
    else
      var n := |values| - 1;
      CountIn(values[..n], counts[..n], x) + (if values[n] == x then counts[n] else 0)
  }

  /** Bins may be cut anywhere. */
  lemma {:induction false} CountSplit(v1: seq<int>, c1: seq<nat>, v2: seq<int>, c2: seq<nat>, x: int)
    requires |v1| == |c1| && |v2| == |c2|
    ensures CountIn(v1 + v2, c1 + c2, x) == CountIn(v1, c1, x) + CountIn(v2, c2, x)
    decreases |v2|
  {
    if |v2| == 0 {
      assert v1 + v2 == v1 && c1 + c2 == c1;
    } else {
      var n := |v2| - 1;
      CountSplit(v1, c1, v2[..n], c2[..n], x);
      assert (v1 + v2)[..|v1| + n] == v1 + v2[..n];
      assert (c1 + c2)[..|v1| + n] == c1 + c2[..n];
    }
  }

  function InsertAt<T>(s: seq<T>, pos: nat, x: T): seq<T>
    requires pos <= |s|
  {
    s[..pos] + [x] + s[pos..]
  }

  /** A new bin adds its copies. */
  lemma CountInsert(values: seq<int>, counts: seq<nat>, pos: nat, value: int, count: nat, x: int)
    requires |values| == |counts| && pos <= |values|
    ensures CountIn(InsertAt(values, pos, value), InsertAt(counts, pos, count), x)
         == CountIn(values, counts, x) + (if value == x then count else 0)
  {
    CountSplit(values[..pos], counts[..pos], [value], [count], x);
    CountSplit(values[..pos] + [value], counts[..pos] + [count], values[pos..], counts[pos..], x);
    CountSplit(values[..pos], counts[..pos], values[pos..], counts[pos..], x);
    assert values[..pos] + values[pos..] == values && counts[..pos] + counts[pos..] == counts;
  }

  /** Raising a count adds copies. */
  lemma {:induction false} CountBump(values: seq<int>, counts: seq<nat>, pos: nat, count: nat, x: int)
    requires |values| == |counts| && pos < |values|
    ensures CountIn(values, counts[pos := counts[pos] + count], x)
         == CountIn(values, counts, x) + (if values[pos] == x then count else 0)
    decreases |values|
  {
    var n := |values| - 1;
    var bumped := counts[pos := counts[pos] + count];
    if pos < n {
      CountBump(values[..n], counts[..n], pos, count, x);
      assert bumped[..n] == counts[..n][pos := counts[pos] + count];
    } else {
      assert bumped[..n] == counts[..n];
    }
  }

  // ----- Built distributions -----

  /** The rank before bin `i`, that is the number of values in the bins before it. */
  function StartRank(ranks: seq<nat>, i: nat): nat
    requires i <= |ranks|
  {
    if i == 0 then 0 else ranks[i - 1]
  }

  /** `ranks` are the running sums of `counts`. */
  predicate RunningSums(counts: seq<nat>, ranks: seq<nat>) {
    && |ranks| == |counts|
    && forall i: nat {:trigger counts[i]} :: i < |counts| ==> ranks[i] == StartRank(ranks, i) + counts[i]
  }

  predicate ValidRanks(ranks: seq<nat>) {
    && (forall i :: 0 <= i < |ranks| ==> ranks[i] > 0)
    && (forall i, j :: 0 <= i < j < |ranks| ==> ranks[i] < ranks[j])
  }

  /** distribution_t: at least one bin, increasing values, increasing end ranks. */
  datatype Distribution = Distribution(values: seq<int>, endRanks: seq<nat>)

  predicate Valid(d: Distribution) {
    |d.values| == |d.endRanks| && |d.values| >= 1 && Increasing(d.values) && ValidRanks(d.endRanks)
  }

  function Repeat(value: int, count: nat): (r: seq<int>)
    ensures |r| == count && forall i :: 0 <= i < count ==> r[i] == value
  {
    seq(count, i => value)
  }

  /** The list of all values that the bins stand for. */
  function Expand(values: seq<int>, ranks: seq<nat>): (r: seq<int>)
    requires |values| == |ranks| && ValidRanks(ranks)
    ensures |r| == StartRank(ranks, |ranks|)
  {
    if |values| == 0 then []
    else
      var n := |values| - 1;
      RanksPrefix(ranks, n);
      Expand(values[..n], ranks[..n]) + Repeat(values[n], ranks[n] - StartRank(ranks, n))
  }

  lemma RanksPrefix(ranks: seq<nat>, n: nat)
    requires ValidRanks(ranks) && n <= |ranks|
    ensures ValidRanks(ranks[..n])
    ensures forall i: nat :: i <= n ==> StartRank(ranks[..n], i) == StartRank(ranks, i)
  {
  }

  /** The sorted list of values of a distribution. */
  function Values(d: Distribution): (r: seq<int>)
    requires Valid(d)
    ensures |r| == d.endRanks[|d.endRanks| - 1] >= 1
  {
    Expand(d.values, d.endRanks)
  }

  lemma RanksMonotone(ranks: seq<nat>, i: nat, j: nat)
    requires ValidRanks(ranks) && i <= j <= |ranks|
    ensures StartRank(ranks, i) <= StartRank(ranks, j)
    ensures i < j ==> StartRank(ranks, i) < StartRank(ranks, j)
  {
  }

  lemma ExpandStep(values: seq<int>, ranks: seq<nat>)
    requires |values| == |ranks| > 0 && ValidRanks(ranks)
    ensures var n := |values| - 1;
      && ValidRanks(ranks[..n])
      && StartRank(ranks, n) < ranks[n]
      && Expand(values, ranks) ==
           Expand(values[..n], ranks[..n]) + Repeat(values[n], ranks[n] - StartRank(ranks, n))
  {
    RanksPrefix(ranks, |values| - 1);
  }

  /** The values of bin `i` have the ranks from its start to its end. */
  lemma {:induction false} ExpandAt(values: seq<int>, ranks: seq<nat>, i: nat, r: nat)
    requires |values| == |ranks| && ValidRanks(ranks) && i < |values|
    requires StartRank(ranks, i) <= r < ranks[i]
    ensures r < |Expand(values, ranks)| && Expand(values, ranks)[r] == values[i]
    decreases |values|
  {
    var n := |values| - 1;
    ExpandStep(values, ranks);
    if i < n {
      ExpandAt(values[..n], ranks[..n], i, r);
    }
  }

  /** Every rank belongs to a bin. */
  lemma {:induction false} BinOfRank(ranks: seq<nat>, r: nat) returns (i: nat)
    requires ValidRanks(ranks) && r < StartRank(ranks, |ranks|)
    ensures i < |ranks| && StartRank(ranks, i) <= r < ranks[i]
    decreases |ranks|
  {
    var n := |ranks| - 1;
    if r >= StartRank(ranks, n) {
      i := n;
    } else {
      i := BinOfRank(ranks[..n], r);
    }
  }

  lemma ExpandSorted(values: seq<int>, ranks: seq<nat>)
    requires |values| == |ranks| && ValidRanks(ranks) && Increasing(values)
    ensures Sorted(Expand(values, ranks))
  {
    var list := Expand(values, ranks);
    forall r, q | 0 <= r < q < |list|
      ensures list[r] <= list[q]
    {
      var i := BinOfRank(ranks, r);
      var j := BinOfRank(ranks, q);
      ExpandAt(values, ranks, i, r);
      ExpandAt(values, ranks, j, q);
      if j < i { RanksMonotone(ranks, j + 1, i); }
    }
  }

  lemma {:induction false} SumsIncrease(counts: seq<nat>, ranks: seq<nat>, i: nat, j: nat)
    requires Positive(counts) && RunningSums(counts, ranks) && i < j <= |ranks|
    ensures StartRank(ranks, i) < StartRank(ranks, j)
    decreases j
  {
    assert counts[j - 1] > 0;
    if i < j - 1 { SumsIncrease(counts, ranks, i, j - 1); }
  }

  lemma SumsAreRanks(counts: seq<nat>, ranks: seq<nat>)
    requires Positive(counts) && RunningSums(counts, ranks)
    ensures ValidRanks(ranks)
  {
    forall i | 0 <= i < |ranks| ensures ranks[i] > 0 { SumsIncrease(counts, ranks, 0, i + 1); }
    forall i, j | 0 <= i < j < |ranks| ensures ranks[i] < ranks[j] { SumsIncrease(counts, ranks, i + 1, j + 1); }
  }

  lemma SumsPrefix(counts: seq<nat>, ranks: seq<nat>, n: nat)
    requires RunningSums(counts, ranks) && n <= |counts|
    ensures RunningSums(counts[..n], ranks[..n])
  {
    forall i: nat | i < n
      ensures ranks[..n][i] == StartRank(ranks[..n], i) + counts[..n][i]
    {
      assert counts[i] == counts[..n][i];
    }
  }

  lemma {:induction false} CountRepeat(value: int, count: nat, x: int)
    ensures multiset(Repeat(value, count))[x] == if value == x then count else 0
  {
    if count > 0 {
      CountRepeat(value, count - 1, x);
      assert Repeat(value, count) == Repeat(value, count - 1) + [value];
    }
  }

  lemma CountConcat(a: seq<int>, b: seq<int>, x: int)
    ensures multiset(a + b)[x] == multiset(a)[x] + multiset(b)[x]
  {
    assert multiset(a + b) == multiset(a) + multiset(b);
  }

  lemma ExpandLast(values: seq<int>, counts: seq<nat>, ranks: seq<nat>)
    requires |values| == |counts| > 0 && RunningSums(counts, ranks) && ValidRanks(ranks)
    ensures var n := |values| - 1;
      && ValidRanks(ranks[..n])
      && Expand(values, ranks) == Expand(values[..n], ranks[..n]) + Repeat(values[n], counts[n])
  {
    assert ranks[|values| - 1] - StartRank(ranks, |values| - 1) == counts[|values| - 1];
    ExpandStep(values, ranks);
  }

  /** Turning counts into end ranks keeps the values, each with its count. */
  lemma {:induction false} ExpandCount(values: seq<int>, counts: seq<nat>, ranks: seq<nat>, x: int)
    requires |values| == |counts| && Positive(counts)
    requires RunningSums(counts, ranks) && ValidRanks(ranks)
    ensures multiset(Expand(values, ranks))[x] == CountIn(values, counts, x)
    decreases |values|
  {
    if |values| > 0 {
      var n := |values| - 1;
      SumsPrefix(counts, ranks, n);
      ExpandLast(values, counts, ranks);
      ExpandCount(values[..n], counts[..n], ranks[..n], x);
      CountRepeat(values[n], counts[n], x);
      CountConcat(Expand(values[..n], ranks[..n]), Repeat(values[n], counts[n]), x);
    }
  }

  // ----- Uniqueness -----

  lemma LastIsLargest(a: seq<int>, x: int)
    requires Sorted(a) && x in multiset(a)
    ensures |a| > 0 && x <= a[|a| - 1]
  {
    assert x in a;
  }

  lemma WithoutLast(a: seq<int>)
    requires |a| > 0
    ensures multiset(a[..|a| - 1]) == multiset(a) - multiset{a[|a| - 1]}
  {
    assert a == a[..|a| - 1] + [a[|a| - 1]];
  }

  lemma SameLast(a: seq<int>, b: seq<int>)
    requires Sorted(a) && Sorted(b) && multiset(a) == multiset(b) && |a| > 0
    ensures |a| == |b| && a[|a| - 1] == b[|b| - 1]
  {
    assert |multiset(a)| == |a| && |multiset(b)| == |b|;
    var n := |a| - 1;
    assert a[n] in multiset(a) && b[n] in multiset(b);
    LastIsLargest(b, a[n]);
    LastIsLargest(a, b[n]);
  }

  lemma SortedPrefix(a: seq<int>, n: nat)
    requires Sorted(a) && n <= |a|
    ensures Sorted(a[..n])
  {
  }

  lemma SameFromParts(a: seq<int>, b: seq<int>)
    requires |a| == |b| > 0 && a[|a| - 1] == b[|a| - 1] && a[..|a| - 1] == b[..|a| - 1]
    ensures a == b
  {
    assert a == a[..|a| - 1] + [a[|a| - 1]];
    assert b == b[..|a| - 1] + [b[|a| - 1]];
  }

  /** A sorted list is determined by its multiset. */
  lemma {:induction false} SortedUnique(a: seq<int>, b: seq<int>)
    requires Sorted(a) && Sorted(b) && multiset(a) == multiset(b)
    ensures a == b
    decreases |a|
  {
    if |a| == 0 {
      assert |multiset(b)| == |b|;
    } else {
      var n := |a| - 1;
      SameLast(a, b);
      WithoutLast(a);
      WithoutLast(b);
      SortedPrefix(a, n);
      SortedPrefix(b, n);
      SortedUnique(a[..n], b[..n]);
      SameFromParts(a, b);
    }
  }

  lemma IncreasingPrefix(a: seq<int>)
    requires Increasing(a) && |a| > 0
    ensures var n := |a| - 1;
      Increasing(a[..n]) && forall x :: x in a[..n] <==> x in a && x != a[n]
  {
    var n := |a| - 1;
    assert a == a[..n] + [a[n]];
  }

  lemma SameLargest(a: seq<int>, b: seq<int>)
    requires Increasing(a) && Increasing(b) && |a| > 0
    requires forall x :: x in a <==> x in b
    ensures |b| > 0 && a[|a| - 1] == b[|b| - 1]
  {
    assert a[|a| - 1] in a;
    assert b[|b| - 1] in b;
  }

  lemma {:induction false} IncreasingUnique(a: seq<int>, b: seq<int>)
    requires Increasing(a) && Increasing(b)
    requires forall x :: x in a <==> x in b
    ensures a == b
    decreases |a|
  {
    if |a| == 0 {
      if |b| > 0 { SameLargest(b, a); }
    } else {
      var n, m := |a| - 1, |b| - 1;
      SameLargest(a, b);
      IncreasingPrefix(a);
      IncreasingPrefix(b);
      IncreasingUnique(a[..n], b[..m]);
      assert a == a[..n] + [a[n]] && b == b[..m] + [b[m]];
    }
  }

  lemma ValuesInExpand(values: seq<int>, ranks: seq<nat>, x: int)
    requires |values| == |ranks| && ValidRanks(ranks)
    ensures x in Expand(values, ranks) <==> x in values
  {
    var list := Expand(values, ranks);
    if x in values {
      var i: nat :| i < |values| && values[i] == x;
      ExpandAt(values, ranks, i, StartRank(ranks, i));
    }
    if x in list {
      var r: nat :| r < |list| && list[r] == x;
      var i := BinOfRank(ranks, r);
      ExpandAt(values, ranks, i, r);
    }
  }

  lemma SameCut(list: seq<int>, x: int, a: nat, b: nat)
    requires a <= |list| && b <= |list|
    requires forall r :: 0 <= r < |list| ==> (r < a <==> list[r] <= x)
    requires forall r :: 0 <= r < |list| ==> (r < b <==> list[r] <= x)
    ensures a == b
  {
    var m := if a < b then a else b;
    if m < |list| {
      var probe := list[m];
    }
  }

  /** The compressed form is canonical: distributions of the same values are the same. */
  lemma SameValuesSameDistribution(d: Distribution, e: Distribution)
    requires Valid(d) && Valid(e) && multiset(Values(d)) == multiset(Values(e))
    ensures d == e
  {
    ExpandSorted(d.values, d.endRanks);
    ExpandSorted(e.values, e.endRanks);
    SortedUnique(Values(d), Values(e));
    forall x ensures x in d.values <==> x in e.values {
      ValuesInExpand(d.values, d.endRanks, x);
      ValuesInExpand(e.values, e.endRanks, x);
    }
    IncreasingUnique(d.values, e.values);
    forall i: nat | i < |d.values|
      ensures d.endRanks[i] == e.endRanks[i]
    {
      EndRankFromList(d, i);
      EndRankFromList(e, i);
      SameCut(Values(d), d.values[i], d.endRanks[i], e.endRanks[i]);
    }
  }

  /** An end rank is where the list first exceeds the value of its bin. */
  lemma EndRankFromList(d: Distribution, i: nat)
    requires Valid(d) && i < |d.values|
    ensures d.endRanks[i] <= |Values(d)|
    ensures forall r :: 0 <= r < |Values(d)| ==> (r < d.endRanks[i] <==> Values(d)[r] <= d.values[i])
  {
    RanksMonotone(d.endRanks, i + 1, |d.values|);
    forall r | 0 <= r < |Values(d)|
      ensures r < d.endRanks[i] <==> Values(d)[r] <= d.values[i]
    {
      var j := BinOfRank(d.endRanks, r);
      ExpandAt(d.values, d.endRanks, j, r);
      if j <= i { RanksMonotone(d.endRanks, j + 1, i + 1); } else { RanksMonotone(d.endRanks, i + 1, j); }
    }
  }
}
