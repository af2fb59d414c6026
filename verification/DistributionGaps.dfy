/**
  The smallest difference between the values of two distributions
  (distribution_min_difference_with() in distribution.c) or of one
  (distribution_min_difference() in distribution.h).

  Both are documented to find the smallest nonzero difference. The latter only measures from
  the smallest value. The former looks at the neighbours of each value of the distribution
  with fewer bins, except that a value equal to the smallest one of the other distribution is
  skipped altogether.
 */
module Gaps {
  import opened Options
  import opened Histogram
  import opened Builders

  /** `s` and `l` are different values of the two sides. */
  predicate Pair(short: seq<int>, long: seq<int>, s: int, l: int) {
    s in short && l in long && s != l
  }

  /** The pairs that the code looks at: `s` is not the smallest value of the longer side. */
  predicate SeenPair(short: seq<int>, long: seq<int>, s: int, l: int) {
    Pair(short, long, s, l) && s != long[0]
  }

  /** `r` is the smallest distance over the seen pairs; None, which stands for UINT64_MAX, if
      there is none. */
  ghost predicate IsSmallestSeen(short: seq<int>, long: seq<int>, r: Option<nat>) {
    && (forall s, l :: SeenPair(short, long, s, l) ==> r.Some? && r.value <= Distance(s, l))
    && (r.Some? ==> r.value > 0 && exists s, l :: SeenPair(short, long, s, l) && r.value == Distance(s, l))
  }

  /** The documented result: the smallest distance over all pairs. */
  ghost predicate IsSmallest(short: seq<int>, long: seq<int>, r: Option<nat>) {
    && (forall s, l :: Pair(short, long, s, l) ==> r.Some? && r.value <= Distance(s, l))
    && (r.Some? ==> exists s, l :: Pair(short, long, s, l) && r.value == Distance(s, l))
  }

  /** Which argument is iterated over: the one with fewer bins, the first on a tie. */
  function ShortSide(v1: seq<int>, v2: seq<int>): (r: seq<int>)
    ensures (r == v1 || r == v2) && |r| <= |v1| && |r| <= |v2|
    ensures |v1| == |v2| ==> r == v1
  {
    if |v2| < |v1| then v2 else v1
  }

  function LongSide(v1: seq<int>, v2: seq<int>): (r: seq<int>)
    ensures multiset{r, ShortSide(v1, v2)} == multiset{v1, v2}
  {
    if |v2| < |v1| then v1 else v2
  }

  /** The body of the loop: the distance from `s` to its nearest different neighbour, or 0 to
      skip `s`. */
  method NearestGap(long: seq<int>, s: int) returns (difference: int)
    requires Increasing(long) && |long| > 0
    ensures difference >= 0
    ensures difference == 0 <==> s == long[0] || long == [s]
    ensures difference > 0 ==> exists l :: l in long && l != s && difference == Distance(s, l)
    ensures difference > 0 ==> forall l :: l in long && l != s ==> difference <= Distance(s, l)
  {
    var bin := BinByValue(long, s, BinNearest);
    var i := bin.index;
    difference := s - long[i];
    if difference == 0 {
      if i > 0 {
        difference := s - long[i - 1];
        assert long[i - 1] in long;
      }
      if i + 1 < |long| {
        var candidate := long[i + 1] - s;
        if candidate < difference {
          difference := candidate;
          assert long[i + 1] in long;
        }
      }
      assert forall j :: 0 <= j < i ==> long[j] <= long[i - 1];
      assert forall j :: i < j < |long| ==> long[i + 1] <= long[j];
    } else if difference < 0 {
      difference := -difference;
    }
    assert long[i] in long;
  }

  /** distribution_min_difference_with(), on the values of two distributions or builders. */
  method MinDifferenceWith(v1: seq<int>, v2: seq<int>) returns (r: Option<nat>)
    requires Increasing(v1) && Increasing(v2)
    ensures |v1| > 0 && |v2| > 0 ==> IsSmallestSeen(ShortSide(v1, v2), LongSide(v1, v2), r)
    ensures |v1| == 0 || |v2| == 0 ==> r == None
  {
    r := None;
    if |v1| == 0 || |v2| == 0 {
      return;
    }
    var short, long := ShortSide(v1, v2), LongSide(v1, v2);
    for i := 0 to |short|
      invariant IsSmallestSeen(short[..i], long, r)
    {
      var difference := NearestGap(long, short[i]);
      ghost var before := r;
      if difference != 0 && (r == None || difference < r.value) {
        r := Some(difference);
      }
      SmallestStep(short, long, i, before, difference, r);
    }
    assert short[..|short|] == short;
  }

  lemma SmallestStep(short: seq<int>, long: seq<int>, i: nat, before: Option<nat>,
                     difference: int, r: Option<nat>)
    requires i < |short| && |long| > 0 && IsSmallestSeen(short[..i], long, before)
    requires difference >= 0
    requires difference == 0 <==> short[i] == long[0] || long == [short[i]]
    requires difference > 0 ==> exists l :: l in long && l != short[i] && difference == Distance(short[i], l)
    requires difference > 0 ==> forall l :: l in long && l != short[i] ==> difference <= Distance(short[i], l)
    requires r == if difference != 0 && (before == None || difference < before.value) then Some(difference) else before
    ensures IsSmallestSeen(short[..i + 1], long, r)
  {
    var old', new' := short[..i], short[..i + 1];
    assert new' == old' + [short[i]];
    forall s, l | SeenPair(new', long, s, l)
      ensures r.Some? && r.value <= Distance(s, l)
    {
      if s in old' { assert SeenPair(old', long, s, l); }
    }
    if r.Some? {
      if r == before {
        var s, l :| SeenPair(old', long, s, l) && r.value == Distance(s, l);
        assert SeenPair(new', long, s, l);
      } else {
        var l :| l in long && l != short[i] && difference == Distance(short[i], l);
        assert SeenPair(new', long, short[i], l);
      }
    }
  }

  // ----- Against the documentation -----

  /** The result is never below the documented one: every reported distance is a real one. */
  lemma NeverUndershoots(short: seq<int>, long: seq<int>, r: Option<nat>, smallest: Option<nat>)
    requires |long| > 0 && IsSmallestSeen(short, long, r) && IsSmallest(short, long, smallest)
    ensures r.Some? ==> smallest.Some? && smallest.value <= r.value
  {
    if r.Some? {
      var s, l :| SeenPair(short, long, s, l) && r.value == Distance(s, l);
      assert Pair(short, long, s, l);
    }
  }

  /** Some value other than the smallest of the longer side is at most `gap` away from a
      different value of the longer side. */
  ghost predicate OtherPairWithin(short: seq<int>, long: seq<int>, gap: int) {
    exists s, l :: SeenPair(short, long, s, l) && Distance(s, l) <= gap
  }

  /** Exactly when the code meets its documentation: the skipped value does not occur, or it
      has no other partner, or some other pair is at least as close as its only possible gap. */
  ghost predicate Exact(short: seq<int>, long: seq<int>)
    requires |long| > 0
  {
    long[0] !in short || |long| == 1 || OtherPairWithin(short, long, long[1] - long[0])
  }

  lemma ExactIff(short: seq<int>, long: seq<int>, r: Option<nat>)
    requires Increasing(short) && Increasing(long) && |long| > 0 && IsSmallestSeen(short, long, r)
    ensures IsSmallest(short, long, r) <==> Exact(short, long)
  {
    if Exact(short, long) {
      forall s, l | Pair(short, long, s, l)
        ensures r.Some? && r.value <= Distance(s, l)
      {
        if s == long[0] {
          SkippedGap(long, l);
          var s', l' :| SeenPair(short, long, s', l') && Distance(s', l') <= long[1] - long[0];
        } else {
          assert SeenPair(short, long, s, l);
        }
      }
      if r.Some? {
        var s, l :| SeenPair(short, long, s, l) && r.value == Distance(s, l);
        assert Pair(short, long, s, l);
      }
    }
    if IsSmallest(short, long, r) && long[0] in short && |long| > 1 {
      assert long[1] in long;
      assert Pair(short, long, long[0], long[1]);
      var s, l :| SeenPair(short, long, s, l) && r.value == Distance(s, l);
    }
  }

  /** From the smallest value of a list, the next one is the nearest. */
  lemma SkippedGap(long: seq<int>, l: int)
    requires Increasing(long) && |long| > 0 && l in long && l != long[0]
    ensures |long| > 1 && long[1] - long[0] <= Distance(long[0], l)
  {
    var j :| 0 <= j < |long| && long[j] == l;
  }

  /** A failing input: {0} against {0, 1} has a difference of 1, which the code misses. */
  lemma MissesSmallestDifference(r: Option<nat>)
    requires IsSmallestSeen([0], [0, 1], r)
    ensures r == None && !IsSmallest([0], [0, 1], r)
  {
    assert Pair([0], [0, 1], 0, 1);
  }

  // ----- One distribution -----

  /** distribution_min_difference(), on the values of a distribution or builder. `previous` is
      never updated, so what is found is the first gap. */
  method MinDifference(values: seq<int>) returns (r: Option<nat>)
    requires Increasing(values)
    ensures r == FirstGap(values)
  {
    r := None;
    if |values| == 0 {
      return;
    }
    var previous := values[0];
    for bin := 1 to |values|
      invariant r == FirstGap(values[..bin])
    {
      var difference := values[bin] - previous;
      if r == None || difference < r.value {
        r := Some(difference);
      }
    }
    assert values[..|values|] == values;
  }

  function FirstGap(values: seq<int>): Option<nat>
    requires Increasing(values)
  {
    if |values| < 2 then None else Some(values[1] - values[0])
  }

  /** Neighbours are at least `gap` apart, hence all values are. */
  lemma NeighboursBoundPairs(values: seq<int>, gap: int, i: nat, j: nat)
    requires Increasing(values) && i < j < |values|
    requires forall k :: 0 <= k && k + 1 < |values| ==> gap <= values[k + 1] - values[k]
    ensures gap <= values[j] - values[i]
  {
    assert gap <= values[i + 1] - values[i];
  }

  /** No two later neighbours are closer to each other than the first two values. */
  predicate FirstGapIsLeast(values: seq<int>) {
    forall k :: 0 < k && k + 1 < |values| ==> values[1] - values[0] <= values[k + 1] - values[k]
  }

  lemma LeastGapBoundsPairs(values: seq<int>, s: int, l: int)
    requires Increasing(values) && FirstGapIsLeast(values) && Pair(values, values, s, l)
    ensures |values| >= 2 && values[1] - values[0] <= Distance(s, l)
  {
    var i: nat :| i < |values| && values[i] == s;
    var j: nat :| j < |values| && values[j] == l;
    var gap := values[1] - values[0];
    if i < j { NeighboursBoundPairs(values, gap, i, j); } else { NeighboursBoundPairs(values, gap, j, i); }
  }

  /** The documented result is found exactly if the first gap is the least one. */
  lemma FirstGapExactIff(values: seq<int>)
    requires Increasing(values)
    ensures IsSmallest(values, values, FirstGap(values)) <==> FirstGapIsLeast(values)
  {
    var r := FirstGap(values);
    if FirstGapIsLeast(values) {
      if |values| >= 2 {
        assert Pair(values, values, values[0], values[1]) && r.value == Distance(values[0], values[1]);
      }
      forall s, l | Pair(values, values, s, l)
        ensures r.Some? && r.value <= Distance(s, l)
      {
        LeastGapBoundsPairs(values, s, l);
      }
    } else {
      var k :| 0 < k && k + 1 < |values| && values[1] - values[0] > values[k + 1] - values[k];
      assert Pair(values, values, values[k], values[k + 1]);
    }
  }

  /** A failing input: in {0, 2, 3} the smallest difference is 1, and 2 is returned. */
  lemma FirstGapMisses()
    ensures FirstGap([0, 2, 3]) == Some(2) && !IsSmallest([0, 2, 3], [0, 2, 3], Some(2))
  {
    assert Pair([0, 2, 3], [0, 2, 3], 2, 3);
  }
}
