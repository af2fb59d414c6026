/**
  Recording values: the binary search of distribution.h and the builder of
  distribution.c, with its in-place shifting and its reallocation by doubling.
 */
module Builders {
  import opened Histogram

  // ----- distribution_bin_by_value() -----

  /** bin_direction_t */
  datatype Direction = BinBelow | BinNearest | BinAbove

  /** A bin index, or one of the sentinels PTRDIFF_MIN and PTRDIFF_MAX. */
  datatype BinPos = Bin(index: nat) | BeforeAll | AfterAll

  function Distance(a: int, b: int): nat {
    if a < b then b - a else a - b
  }

  /** What the documentation of distribution_bin_by_value() asks for. A tie between two
      nearest bins goes to the lower one. */
  ghost predicate IsBin(values: seq<int>, value: int, direction: Direction, r: BinPos) {
    match r
    case Bin(i) =>
      && i < |values|
      && (value in values ==> values[i] == value)
      && (match direction
          case BinBelow => values[i] <= value && forall j :: 0 <= j < |values| && values[j] <= value ==> j <= i
          case BinAbove => value <= values[i] && forall j :: 0 <= j < |values| && value <= values[j] ==> i <= j
          case BinNearest =>
            && (forall j :: 0 <= j < |values| ==> Distance(value, values[i]) <= Distance(value, values[j]))
            && (forall j :: 0 <= j < i ==> Distance(value, values[i]) < Distance(value, values[j])))
    case BeforeAll =>
      && (direction == BinBelow || (direction == BinNearest && values == []))
      && forall j :: 0 <= j < |values| ==> value < values[j]
    case AfterAll => direction == BinAbove && forall j :: 0 <= j < |values| ==> values[j] < value
  }

  /** distribution_bin_by_value() */
  method BinByValue(values: seq<int>, value: int, direction: Direction) returns (r: BinPos)
    requires Increasing(values)
    ensures IsBin(values, value, direction, r)
  {
    if |values| == 0 {
      return if direction == BinAbove then AfterAll else BeforeAll;
    }
    var last := |values| - 1;
    if value > values[last] {
      return if direction == BinAbove then AfterAll else Bin(last);
    } else if value == values[last] {
      return Bin(last);
    }
    if value < values[0] {
      return if direction == BinBelow then BeforeAll else Bin(0);
    } else if value == values[0] {
      return Bin(0);
    }
    r := SearchBin(values, value, direction);
  }

  /** The binary search proper, on a value strictly between the first and the last. */
  method SearchBin(values: seq<int>, value: int, direction: Direction) returns (r: BinPos)
    requires Increasing(values) && |values| >= 2 && values[0] < value < values[|values| - 1]
    ensures IsBin(values, value, direction, r)
  {
    var below, above := 0, |values| - 1;
    while above - below > 1
      invariant 0 <= below < above < |values|
      invariant values[below] < value < values[above]
    {
      var middle := below + (above - below) / 2;
      if values[middle] > value {
        above := middle;
      } else if values[middle] < value {
        below := middle;
      } else {
        return Bin(middle);
      }
    }
    assert forall j :: 0 <= j < |values| ==>
      (j <= below && values[j] <= values[below]) || (j >= above && values[j] >= values[above]);
    match direction
    case BinBelow => r := Bin(below);
    case BinAbove => r := Bin(above);
    case BinNearest => r := Bin(if value - values[below] <= values[above] - value then below else above);
  }

  // ----- Memory moves -----

  /** Element by element, `after` is `before` with `x` inserted at `pos`. */
  ghost predicate Inserted<T>(before: seq<T>, after: seq<T>, pos: nat, x: T)
    requires pos <= |before|
  {
    && |after| == |before| + 1
    && (forall i :: 0 <= i < pos ==> after[i] == before[i])
    && after[pos] == x
    && (forall i :: pos < i < |after| ==> after[i] == before[i - 1])
  }

  lemma InsertedIsInsertAt<T>(before: seq<T>, after: seq<T>, pos: nat, x: T)
    requires pos <= |before| && Inserted(before, after, pos, x)
    ensures after == InsertAt(before, pos, x)
  {
  }

  lemma InsertAtInserts<T>(before: seq<T>, pos: nat, x: T)
    requires pos <= |before|
    ensures Inserted(before, InsertAt(before, pos, x), pos, x)
  {
  }

  /** The loop of distribution_create_bin() that shifts the later bins up in place; `v` and `c`
      are what the arrays shall hold in the end. */
  method ShiftUp(values: array<int>, counts: array<nat>, numBins: nat, pos: nat, value: int, count: nat,
                 ghost v: seq<int>, ghost c: seq<nat>)
    requires pos < numBins < values.Length == counts.Length && values as object != counts
    requires |v| == |c| == numBins + 1 && v[pos] == value && c[pos] == count
    requires forall i :: 0 <= i < pos ==> values[i] == v[i] && counts[i] == c[i]
    requires forall i :: pos <= i < numBins ==> values[i] == v[i + 1] && counts[i] == c[i + 1]
    modifies values, counts
    ensures forall i :: 0 <= i <= numBins ==> values[i] == v[i] && counts[i] == c[i]
  {
    var nextValue, nextCount := values[pos], counts[pos];
    values[pos], counts[pos] := value, count;
    var dst := pos + 1;
    while dst < numBins
      invariant pos < dst <= numBins
      invariant nextValue == v[dst] && nextCount == c[dst]
      invariant forall i :: 0 <= i < dst ==> values[i] == v[i]
      invariant forall i :: 0 <= i < dst ==> counts[i] == c[i]
      invariant forall i :: dst <= i < numBins ==> values[i] == v[i + 1]
      invariant forall i :: dst <= i < numBins ==> counts[i] == c[i + 1]
    {
      var tmpValue, tmpCount := values[dst], counts[dst];
      values[dst], counts[dst] := nextValue, nextCount;
      nextValue, nextCount := tmpValue, tmpCount;
      dst := dst + 1;
    }
    values[numBins], counts[numBins] := nextValue, nextCount;
  }

  /** distribution_create_bin() as long as there is room: append, or shift. */
  method ShiftIn(values: array<int>, counts: array<nat>, numBins: nat, pos: nat, value: int, count: nat)
    requires pos <= numBins < values.Length == counts.Length && values as object != counts
    modifies values, counts
    ensures values[..numBins + 1] == InsertAt(old(values[..numBins]), pos, value)
    ensures counts[..numBins + 1] == InsertAt(old(counts[..numBins]), pos, count)
  {
    ghost var v, c := InsertAt(values[..numBins], pos, value), InsertAt(counts[..numBins], pos, count);
    if pos == numBins {
      values[numBins] := value;
      counts[numBins] := count;
    } else {
      InsertAtInserts(values[..numBins], pos, value);
      InsertAtInserts(counts[..numBins], pos, count);
      assert forall i :: pos <= i < numBins ==> values[i] == v[i + 1] && counts[i] == c[i + 1];
      ShiftUp(values, counts, numBins, pos, value, count, v, c);
    }
    assert values[..numBins + 1] == v && counts[..numBins + 1] == c;
  }

  /** distribution_create_bin() when the capacity is exhausted: move to twice the storage. */
  method Reallocate(values: array<int>, counts: array<nat>, pos: nat, value: int, count: nat)
      returns (newValues: array<int>, newCounts: array<nat>)
    requires pos <= values.Length == counts.Length && values.Length >= 1
    ensures fresh(newValues) && fresh(newCounts)
    ensures newValues.Length == newCounts.Length == 2 * values.Length
    ensures newValues[..values.Length + 1] == InsertAt(values[..], pos, value)
    ensures newCounts[..values.Length + 1] == InsertAt(counts[..], pos, count)
  {
    var numBins := values.Length;
    newValues, newCounts := new int[2 * numBins], new nat[2 * numBins];
    for bin := 0 to pos
      invariant forall i :: 0 <= i < bin ==> newValues[i] == values[i]
      invariant forall i :: 0 <= i < bin ==> newCounts[i] == counts[i]
    {
      newValues[bin], newCounts[bin] := values[bin], counts[bin];
    }
    newValues[pos], newCounts[pos] := value, count;
    for src := pos to numBins
      invariant newValues[pos] == value && newCounts[pos] == count
      invariant forall i :: 0 <= i < pos ==> newValues[i] == values[i]
      invariant forall i :: 0 <= i < pos ==> newCounts[i] == counts[i]
      invariant forall i :: pos < i <= src ==> newValues[i] == values[i - 1]
      invariant forall i :: pos < i <= src ==> newCounts[i] == counts[i - 1]
    {
      newValues[src + 1], newCounts[src + 1] := values[src], counts[src];
    }
    InsertedIsInsertAt(values[..], newValues[..numBins + 1], pos, value);
    InsertedIsInsertAt(counts[..], newCounts[..numBins + 1], pos, count);
  }

  /** The loop of distribution_build(): counts become end ranks in place. */
  method Accumulate(counts: array<nat>, numBins: nat)
    requires numBins <= counts.Length
    modifies counts
    ensures RunningSums(old(counts[..numBins]), counts[..numBins])
  {
    ghost var before := counts[..numBins];
    var endRank := 0;
    for bin := 0 to numBins
      invariant endRank == StartRank(counts[..bin], bin)
      invariant forall i :: bin <= i < numBins ==> counts[i] == before[i]
      invariant RunningSums(before[..bin], counts[..bin])
    {
      ghost var sums := counts[..bin];
      endRank := endRank + counts[bin];
      counts[bin] := endRank;
      SumsSnoc(before[..bin], sums, before[bin]);
      assert counts[..bin + 1] == sums + [endRank];
      assert before[..bin + 1] == before[..bin] + [before[bin]];
    }
    assert before[..numBins] == before;
  }

  // ----- distribution_builder_t -----

  /** The bins stand for exactly the multiset `inserted`. */
  ghost predicate Recorded(values: seq<int>, counts: seq<nat>, inserted: multiset<int>) {
    && |values| == |counts|
    && Increasing(values)
    && Positive(counts)
    && forall x :: CountIn(values, counts, x) == inserted[x]
  }

  function Add(inserted: multiset<int>, value: int, count: nat): multiset<int> {
    inserted[value := inserted[value] + count]
  }

  lemma NewBinIncreasing(v: seq<int>, pos: nat, value: int)
    requires Increasing(v) && pos <= |v|
    requires pos > 0 ==> v[pos - 1] < value
    requires pos < |v| ==> value < v[pos]
    ensures Increasing(InsertAt(v, pos, value))
  {
  }

  lemma NewBinPositive(c: seq<nat>, pos: nat, count: nat)
    requires Positive(c) && pos <= |c| && count > 0
    ensures Positive(InsertAt(c, pos, count))
  {
  }

  /** Inserting a bin between its neighbours keeps the order and adds its copies. */
  lemma NewBinRecorded(v: seq<int>, c: seq<nat>, inserted: multiset<int>, pos: nat,
                       value: int, count: nat)
    requires Recorded(v, c, inserted) && pos <= |v| && count > 0
    requires pos > 0 ==> v[pos - 1] < value
    requires pos < |v| ==> value < v[pos]
    ensures Recorded(InsertAt(v, pos, value), InsertAt(c, pos, count), Add(inserted, value, count))
  {
    NewBinIncreasing(v, pos, value);
    NewBinPositive(c, pos, count);
    var v', c' := InsertAt(v, pos, value), InsertAt(c, pos, count);
    forall x
      ensures CountIn(v', c', x) == Add(inserted, value, count)[x]
    {
      CountInsert(v, c, pos, value, count, x);
      assert CountIn(v, c, x) == inserted[x];
    }
  }

  lemma BumpRecorded(v: seq<int>, c: seq<nat>, inserted: multiset<int>, pos: nat, count: nat)
    requires Recorded(v, c, inserted) && pos < |v|
    ensures Recorded(v, c[pos := c[pos] + count], Add(inserted, v[pos], count))
  {
    forall x
      ensures CountIn(v, c[pos := c[pos] + count], x) == Add(inserted, v[pos], count)[x]
    {
      CountBump(v, c, pos, count, x);
    }
  }

  /** distribution_t as memory: the two halves of its allocation and the bins in use. */
  datatype Storage = Storage(values: array<int>, endRanks: array<nat>, numBins: nat) {
    predicate Usable() {
      values.Length == endRanks.Length >= 1 && values as object != endRanks && numBins <= values.Length
    }

    /** The distribution that the memory holds now. */
    function View(): Distribution
      reads values, endRanks
      requires Usable()
    {
      Distribution(values[..numBins], endRanks[..numBins])
    }
  }

  class Builder {
    /** The two halves of the allocation; their common length is the capacity. */
    var values: array<int>
    var counts: array<nat>
    var numBins: nat

    /** Everything inserted since the builder was set up. */
    ghost var inserted: multiset<int>

    ghost predicate Valid()
      reads this, values, counts
    {
      && values.Length == counts.Length >= 1 && values as object != counts
      && numBins <= values.Length
      && Recorded(values[..numBins], counts[..numBins], inserted)
    }

    /** distribution_initialize(); the capacity is a page divided by the bin size. */
    constructor (capacity: nat)
      requires capacity >= 1
      ensures Valid() && fresh(values) && fresh(counts)
      ensures inserted == multiset{} && numBins == 0 && values.Length == capacity
    {
      values := new int[capacity];
      counts := new nat[capacity];
      numBins := 0;
      inserted := multiset{};
    }

    /** distribution_create_bin() */
    method CreateBin(pos: nat, value: int, count: nat)
      requires Valid() && pos <= numBins && count > 0
      requires pos > 0 ==> values[pos - 1] < value
      requires pos < numBins ==> value < values[pos]
      modifies this, values, counts
      ensures Valid()
      ensures values == old(values) || fresh(values)
      ensures counts == old(counts) || fresh(counts)
      ensures inserted == Add(old(inserted), value, count)
    {
      ghost var v, c := values[..numBins], counts[..numBins];
      if numBins < values.Length {
        ShiftIn(values, counts, numBins, pos, value, count);
      } else {
        assert v == values[..] && c == counts[..];
        values, counts := Reallocate(values, counts, pos, value, count);
      }
      NewBinRecorded(v, c, inserted, pos, value, count);
      numBins := numBins + 1;
      assert values[..numBins] == InsertAt(v, pos, value);
      assert counts[..numBins] == InsertAt(c, pos, count);
      inserted := Add(inserted, value, count);
    }

    /** distribution_insert_copies(); distribution_insert() is the case of one copy. */
    method Insert(value: int, count: nat)
      requires Valid() && (count > 0 || value in values[..numBins])
      modifies this, values, counts
      ensures Valid()
      ensures values == old(values) || fresh(values)
      ensures counts == old(counts) || fresh(counts)
      ensures inserted == Add(old(inserted), value, count)
    {
      var bin := BinByValue(values[..numBins], value, BinAbove);
      if bin == AfterAll {
        CreateBin(numBins, value, count);
        return;
      }
      var pos := bin.index;
      if values[pos] == value {
        ghost var v, c := values[..numBins], counts[..numBins];
        counts[pos] := counts[pos] + count;
        assert counts[..numBins] == c[pos := c[pos] + count];
        BumpRecorded(v, c, inserted, pos, count);
        inserted := Add(inserted, value, count);
      } else {
        CreateBin(pos, value, count);
      }
    }

    /** distribution_build(): the counts become end ranks in the same memory, which the
        distribution takes over, and the builder is poisoned. */
    method Build() returns (dist: Distribution, storage: Storage)
      requires Valid() && numBins > 0
      modifies this, counts
      ensures numBins == 0 && values.Length == 0 && counts.Length == 0
      ensures storage == Storage(old(values), old(counts), old(numBins)) && storage.Usable()
      ensures dist == storage.View()
      ensures Histogram.Valid(dist)
      ensures multiset(Values(dist)) == old(inserted)
      ensures dist.values == old(values[..numBins])
    {
      ghost var before := counts[..numBins];
      Accumulate(counts, numBins);
      dist := Distribution(values[..numBins], counts[..numBins]);
      storage := Storage(values, counts, numBins);
      BuiltIsValid(dist, before, inserted);
      values, counts, numBins := new int[0], new nat[0], 0;
    }

    /** An empty builder in the memory of a distribution. */
    constructor Reusing(storage: Storage)
      requires storage.Usable()
      ensures Valid() && inserted == multiset{} && numBins == 0
      ensures values == storage.values && counts == storage.endRanks
    {
      values, counts, numBins := storage.values, storage.endRanks, 0;
      inserted := multiset{};
    }
  }

  /** distribution_reset(): the builder reuses the memory, and the distribution, whose new state
      is `poisoned`, loses it. */
  method Reset(storage: Storage) returns (builder: Builder, poisoned: Storage)
    requires storage.Usable()
    ensures fresh(builder) && builder.Valid() && builder.inserted == multiset{} && builder.numBins == 0
    ensures builder.values == storage.values && builder.counts == storage.endRanks
    ensures poisoned.values.Length == 0 && poisoned.endRanks.Length == 0 && poisoned.numBins == 0
  {
    builder := new Builder.Reusing(storage);
    var noValues, noRanks := new int[0], new nat[0];
    poisoned := Storage(noValues, noRanks, 0);
  }

  lemma SumsSnoc(counts: seq<nat>, ranks: seq<nat>, count: nat)
    requires RunningSums(counts, ranks)
    ensures RunningSums(counts + [count], ranks + [StartRank(ranks, |ranks|) + count])
  {
  }

  lemma BuiltIsValid(d: Distribution, counts: seq<nat>, inserted: multiset<int>)
    requires |d.values| > 0 && Recorded(d.values, counts, inserted)
    requires RunningSums(counts, d.endRanks)
    ensures Histogram.Valid(d) && multiset(Values(d)) == inserted
  {
    SumsAreRanks(counts, d.endRanks);
    forall x ensures multiset(Values(d))[x] == inserted[x] {
      ExpandCount(d.values, counts, d.endRanks, x);
    }
  }
}
