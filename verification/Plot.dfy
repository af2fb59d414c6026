/**
  The histogram plot of distribution_log.c: choosing bin boundaries by integer division
  and counting the values between them.
 */
module Plot {
  import opened Histogram
  import opened Queries

  /** axis_len_t */
  datatype AxisLen = AxisLen(abscissa: nat, ordinate: nat)

  // ----- Boundaries -----

  /** Boundaries run from `first` to `last`, and strictly increase after the first pair. */
  predicate GoodAxis(axis: seq<int>, first: int, last: int) {
    && |axis| >= 2
    && axis[0] == first <= axis[1]
    && axis[|axis| - 1] == last
    && forall i, j :: 1 <= i < j < |axis| ==> axis[i] < axis[j]
  }

  /** The `|axis| - 1` bins share the values of [first, last] evenly: boundary `i` leaves the part
      of the values that belongs to the bins after it, rounded down. */
  predicate EvenBoundary(axis: seq<int>, first: int, last: int, i: nat)
    requires i < |axis|
  {
    var n, l := last - first + 1, |axis| - 1;
    (last - axis[i]) * l <= n * (l - i) < (last - axis[i] + 1) * l
  }

  ghost predicate EvenAxis(axis: seq<int>, first: int, last: int) {
    forall i: nat :: 1 <= i < |axis| ==> EvenBoundary(axis, first, last, i)
  }

  /** How many different values bin `o` covers. Only the first bin includes its left end. */
  function Width(axis: seq<int>, o: nat): int
    requires o + 1 < |axis|
  {
    axis[o + 1] - axis[o] + (if o == 0 then 1 else 0)
  }

  lemma WidthBounds(axis: seq<int>, first: int, last: int, o: nat)
    requires GoodAxis(axis, first, last) && EvenAxis(axis, first, last) && o + 1 < |axis|
    ensures var n, l := last - first + 1, |axis| - 1; n - l < Width(axis, o) * l < n + l
  {
    var n, l := last - first + 1, |axis| - 1;
    var before := if o == 0 then n else last - axis[o];
    var after := last - axis[o + 1];
    assert EvenBoundary(axis, first, last, o + 1);
    assert o > 0 ==> EvenBoundary(axis, first, last, o);
    assert before * l <= n * (l - o) < (before + 1) * l;
    assert n * (l - o) == n * (l - (o + 1)) + n;
    assert Width(axis, o) == before - after;
    assert (before - after) * l == before * l - after * l;
    assert (before + 1) * l == before * l + l && (after + 1) * l == after * l + l;
  }

  /** Any two bins cover the same number of values, give or take one. */
  lemma WidthsAgree(axis: seq<int>, first: int, last: int, o: nat, p: nat)
    requires GoodAxis(axis, first, last) && EvenAxis(axis, first, last) && o + 1 < |axis| && p + 1 < |axis|
    ensures Width(axis, o) - Width(axis, p) <= 1
  {
    WidthBounds(axis, first, last, o);
    WidthBounds(axis, first, last, p);
    CloseMultiples(Width(axis, o), Width(axis, p), last - first + 1, |axis| - 1);
  }

  lemma CloseMultiples(a: int, b: int, n: int, l: int)
    requires l > 0 && a * l < n + l && n - l < b * l
    ensures a - b <= 1
  {
    assert a >= b + 2 ==> a * l >= (b + 2) * l;
    assert (b + 2) * l == b * l + 2 * l;
  }

  lemma QuotientAtLeast(x: nat, l: nat, q: nat)
    requires l > 0 && x >= q * l
    ensures x / l >= q
  {
    var p, r := x / l, x % l;
    assert x == p * l + r;
    assert p < q ==> (p + 1) * l <= q * l;
  }

  lemma QuotientBelow(x: nat, l: nat, q: nat)
    requires l > 0 && x < q * l
    ensures x / l < q
  {
    var p, r := x / l, x % l;
    assert x == p * l + r;
    assert p >= q ==> p * l >= q * l;
  }

  /** num_abscissa_after with `k` boundaries still to come, of `n` values over `l` bins. */
  function After(n: nat, l: nat, k: nat): nat
    requires l > 0
  {
    n * k / l
  }

  lemma AfterStep(n: nat, l: nat, k: nat)
    requires n >= l > 0
    ensures After(n, l, k) < After(n, l, k + 1)
  {
    var q := n * k / l;
    assert q * l <= n * k;
    assert n * (k + 1) == n * k + n;
    assert (q + 1) * l == q * l + l;
    QuotientAtLeast(n * (k + 1), l, q + 1);
  }

  lemma {:induction false} AfterMonotone(n: nat, l: nat, j: nat, k: nat)
    requires n >= l > 0 && j < k
    ensures After(n, l, j) < After(n, l, k)
    decreases k
  {
    AfterStep(n, l, k - 1);
    if j < k - 1 { AfterMonotone(n, l, j, k - 1); }
  }

  lemma AfterBound(n: nat, l: nat)
    requires n >= 1 && l >= 1
    ensures After(n, l, 0) == 0 && After(n, l, l - 1) < n
  {
    assert n * (l - 1) < n * l;
    QuotientBelow(n * (l - 1), l, n);
    assert n * 0 == 0;
  }

  lemma AfterRoundsDown(n: nat, l: nat, k: nat)
    requires l > 0
    ensures After(n, l, k) * l <= n * k < (After(n, l, k) + 1) * l
  {
    var x := n * k;
    assert x == x / l * l + x % l;
    assert (x / l + 1) * l == x / l * l + l;
  }

  /** plot_compute_abscissa(), histogram case. `len` shrinks so that no boundary repeats. */
  method ComputeAbscissa(abscissa: array<int>, first: int, last: int, len: AxisLen) returns (shrunk: AxisLen)
    requires first <= last
    requires 2 <= len.abscissa <= abscissa.Length && len.abscissa == len.ordinate + 1
    modifies abscissa
    ensures 2 <= shrunk.abscissa <= len.abscissa && shrunk.abscissa == shrunk.ordinate + 1
    ensures shrunk.abscissa == if len.abscissa > last - first + 2 then last - first + 2 else len.abscissa
    ensures GoodAxis(abscissa[..shrunk.abscissa], first, last)
    ensures EvenAxis(abscissa[..shrunk.abscissa], first, last)
  {
    var distinct := last - first + 1;
    var maxDisplayed := distinct + 1;
    shrunk := len;
    if len.abscissa > maxDisplayed {
      var excess := len.abscissa - maxDisplayed;
      shrunk := AxisLen(len.abscissa - excess, len.ordinate - excess);
    }
    abscissa[0] := first;
    var lastA := shrunk.abscissa - 1;
    for a := 1 to lastA + 1
      invariant abscissa[0] == first
      invariant forall i :: 1 <= i < a ==> abscissa[i] == last - After(distinct, lastA, lastA - i)
    {
      var numAfter := distinct * (lastA - a) / lastA;
      abscissa[a] := last - numAfter;
    }
    AfterBound(distinct, lastA);
    ghost var axis := abscissa[..shrunk.abscissa];
    forall i, j | 1 <= i < j < |axis| ensures axis[i] < axis[j] {
      AfterMonotone(distinct, lastA, lastA - j, lastA - i);
    }
    forall i: nat | 1 <= i < |axis| ensures EvenBoundary(axis, first, last, i) {
      AfterRoundsDown(distinct, lastA, lastA - i);
    }
  }

  // ----- Counts between boundaries -----

  predicate Within(v: int, lo: int, hi: int, leftInclusive: bool) {
    (lo < v || (leftInclusive && lo == v)) && v <= hi
  }

  /** How many values of the list lie in the interval. */
  function CountWithin(list: seq<int>, lo: int, hi: int, leftInclusive: bool): nat {
    if |list| == 0 then 0
    else
      var n := |list| - 1;
      CountWithin(list[..n], lo, hi, leftInclusive) + (if Within(list[n], lo, hi, leftInclusive) then 1 else 0)
  }

  /** The part of [a, b) below `n`. */
  function Overlap(a: int, b: int, n: int): int {
    if n <= a then 0 else if n <= b then n - a else b - a
  }

  lemma {:induction false} CountWithinPrefix(list: seq<int>, lo: int, hi: int, leftInclusive: bool,
                                             a: nat, b: nat, n: nat)
    requires n <= |list| && a <= b
    requires forall i :: 0 <= i < |list| ==> (a <= i < b <==> Within(list[i], lo, hi, leftInclusive))
    ensures CountWithin(list[..n], lo, hi, leftInclusive) == Overlap(a, b, n)
  {
    if n > 0 {
      CountWithinPrefix(list, lo, hi, leftInclusive, a, b, n - 1);
      assert list[..n][..n - 1] == list[..n - 1];
      assert a <= n - 1 < b <==> Within(list[n - 1], lo, hi, leftInclusive);
    }
  }

  /** The difference of two counts is the number of values in between. */
  lemma CountDifference(list: seq<int>, lo: int, hi: int, leftInclusive: bool, a: nat, b: nat)
    requires lo <= hi
    requires CountsBelow(list, lo, !leftInclusive, a) && CountsBelow(list, hi, true, b)
    ensures a <= b && CountWithin(list, lo, hi, leftInclusive) == b - a
  {
    var m := if a < b then a else b;
    if m < |list| {
      var probe := list[m];
    }
    forall i | 0 <= i < |list|
      ensures a <= i < b <==> Within(list[i], lo, hi, leftInclusive)
    {
      assert i < a <==> Counted(list[i], lo, !leftInclusive);
      assert i < b <==> Counted(list[i], hi, true);
    }
    CountWithinPrefix(list, lo, hi, leftInclusive, a, b, |list|);
    assert list[..|list|] == list;
  }

  /** What the ordinates of a plot are: interval counts, or a repetition where a boundary
      after the first pair repeats. */
  ghost predicate OrdinatesFit(list: seq<int>, axis: seq<int>, ordinate: seq<nat>) {
    && |ordinate| < |axis|
    && forall o: nat :: o < |ordinate| ==>
         if o == 0 || axis[o + 1] > axis[o]
         then ordinate[o] == CountWithin(list, axis[o], axis[o + 1], o == 0)
         else ordinate[o] == ordinate[o - 1]
  }

  /** plot_compute_ordinate(), histogram case, on boundaries in increasing order. */
  method ComputeOrdinate(d: Distribution, abscissa: seq<int>, ordinate: array<nat>, len: AxisLen)
    requires Valid(d) && Sorted(abscissa)
    requires len.abscissa == len.ordinate + 1 && len.abscissa <= |abscissa| && len.ordinate <= ordinate.Length
    modifies ordinate
    ensures OrdinatesFit(Values(d), abscissa, ordinate[..len.ordinate])
  {
    ghost var list := Values(d);
    var startRank := CountBelow(d, abscissa[0], false);
    for o := 0 to len.ordinate
      invariant CountsBelow(list, abscissa[o], o > 0, startRank)
      invariant OrdinatesFit(list, abscissa, ordinate[..o])
    {
      var endRank := CountBelow(d, abscissa[o + 1], true);
      ghost var done := ordinate[..o];
      CountDifference(list, abscissa[o], abscissa[o + 1], o == 0, startRank, endRank);
      if abscissa[o + 1] > abscissa[o] || o == 0 {
        ordinate[o] := endRank - startRank;
      } else {
        ordinate[o] := ordinate[o - 1];
      }
      startRank := endRank;
      assert ordinate[..o + 1] == done + [ordinate[o]];
    }
  }

  // ----- Conservation -----

  function Sum(s: seq<nat>): nat {
    if |s| == 0 then 0 else Sum(s[..|s| - 1]) + s[|s| - 1]
  }

  /** Neighbouring intervals join. */
  lemma {:induction false} JoinIntervals(list: seq<int>, lo: int, mid: int, hi: int)
    requires lo <= mid <= hi
    ensures CountWithin(list, lo, mid, true) + CountWithin(list, mid, hi, false) == CountWithin(list, lo, hi, true)
    decreases |list|
  {
    if |list| > 0 { JoinIntervals(list[..|list| - 1], lo, mid, hi); }
  }

  lemma {:induction false} PrefixSum(list: seq<int>, axis: seq<int>, ordinate: seq<nat>, n: nat)
    requires |axis| >= 2 && GoodAxis(axis, axis[0], axis[|axis| - 1]) && OrdinatesFit(list, axis, ordinate)
    requires 1 <= n <= |ordinate|
    ensures Sum(ordinate[..n]) == CountWithin(list, axis[0], axis[n], true)
  {
    assert ordinate[..n][..n - 1] == ordinate[..n - 1];
    if n > 1 {
      PrefixSum(list, axis, ordinate, n - 1);
      assert axis[0] <= axis[n - 1] < axis[n];
      JoinIntervals(list, axis[0], axis[n - 1], axis[n]);
    }
  }

  lemma {:induction false} AllWithin(list: seq<int>, lo: int, hi: int)
    requires forall i :: 0 <= i < |list| ==> lo <= list[i] <= hi
    ensures CountWithin(list, lo, hi, true) == |list|
    decreases |list|
  {
    if |list| > 0 { AllWithin(list[..|list| - 1], lo, hi); }
  }

  lemma ListWithinRange(d: Distribution)
    requires Valid(d)
    ensures forall r :: 0 <= r < |Values(d)| ==> d.values[0] <= Values(d)[r] <= d.values[|d.values| - 1]
  {
    forall r | 0 <= r < |Values(d)|
      ensures d.values[0] <= Values(d)[r] <= d.values[|d.values| - 1]
    {
      var i := BinOfRank(d.endRanks, r);
      ExpandAt(d.values, d.endRanks, i, r);
    }
  }

  /** The histogram part of log_plot(): full-scale range, boundaries, counts. No value is lost
      or counted twice, and the branch for repeated boundaries is never taken. */
  method PlotHistogram(d: Distribution, maxLen: AxisLen) returns (axis: seq<int>, counts: seq<nat>)
    requires Valid(d) && maxLen.abscissa >= 2 && maxLen.abscissa == maxLen.ordinate + 1
    ensures GoodAxis(axis, d.values[0], d.values[|d.values| - 1])
    ensures EvenAxis(axis, d.values[0], d.values[|d.values| - 1])
    ensures forall o: nat, p: nat :: o + 1 < |axis| && p + 1 < |axis| ==> Width(axis, o) - Width(axis, p) <= 1
    ensures |counts| == |axis| - 1
    ensures forall o: nat :: o < |counts| ==> counts[o] == CountWithin(Values(d), axis[o], axis[o + 1], o == 0)
    ensures Sum(counts) == Len(d)
  {
    var first, last := d.values[0], d.values[|d.values| - 1];
    var abscissa := new int[maxLen.abscissa];
    var len := ComputeAbscissa(abscissa, first, last, maxLen);
    axis := abscissa[..len.abscissa];
    var ordinate := new nat[maxLen.ordinate];
    ComputeOrdinate(d, axis, ordinate, len);
    counts := ordinate[..len.ordinate];
    PrefixSum(Values(d), axis, counts, |counts|);
    assert counts[..|counts|] == counts;
    ListWithinRange(d);
    AllWithin(Values(d), first, last);
    forall o: nat, p: nat | o + 1 < |axis| && p + 1 < |axis| ensures Width(axis, o) - Width(axis, p) <= 1 {
      WidthsAgree(axis, first, last, o, p);
    }
  }
}
