/**
  Bit arrays packed into machine words: bit_array.h.

  The simple thing a bit array stands for is a sequence of booleans. `At` reads
  that sequence out of the words; every operation is specified through it. Bits
  at or above `length` in the last word are padding and may hold anything.
 */
module BitArrays {
  import opened Bits

  /** bit_pos_t, with NO_BIT_POS as a constructor of its own. */
  datatype BitPos = Pos(word: nat, offset: nat) | NoPos

  predicate ValidPos(p: BitPos) {
    p.Pos? && p.offset < WORD_BITS
  }

  /** bit_pos_to_index() */
  function ToIndex(p: BitPos): nat
    requires ValidPos(p)
  {
    p.word * WORD_BITS + p.offset
  }

  /** index_to_bit_pos(), which is also bit_array_end() */
  function ToPos(index: nat): (r: BitPos)
    ensures ValidPos(r)
    ensures r.word * WORD_BITS + r.offset == index
  {
    Pos(index / WORD_BITS, index % WORD_BITS)
  }

  /** BIT_ARRAY_WORDS() */
  function WordsFor(length: nat): (r: nat)
    ensures length <= r * WORD_BITS < length + WORD_BITS
  {
    DivCeil(length, WORD_BITS)
  }

  /** Which words of a bit array hold bits, and how many. */
  lemma WordOfArray(length: nat, w: nat)
    ensures w < WordsFor(length) <==>
      w < length / WORD_BITS || (w == length / WORD_BITS && length % WORD_BITS != 0)
    ensures w < length / WORD_BITS ==> (w + 1) * WORD_BITS <= length
    ensures w == length / WORD_BITS ==> w * WORD_BITS + length % WORD_BITS == length
  {
  }

  /** The part of its word that a valid position of the array belongs to. */
  lemma PartOfWord(length: nat, p: BitPos)
    requires ValidPos(p) && ToIndex(p) < length
    ensures var bits := if p.word == length / WORD_BITS then length % WORD_BITS else WORD_BITS;
      && p.offset < bits
      && p.word * WORD_BITS + bits <= length
      && (p.word == length / WORD_BITS ==> p.word * WORD_BITS + bits == length)
  {
  }

  lemma PosOf(w: nat, o: nat)
    requires o < WORD_BITS
    ensures ToPos(w * WORD_BITS + o) == Pos(w, o)
  {
  }

  /** The two index conversions are inverse to each other. */
  lemma IndexRoundTrip(p: BitPos, index: nat)
    requires ValidPos(p)
    ensures ToPos(ToIndex(p)) == p
    ensures ToIndex(ToPos(index)) == index
  {
    PosOf(p.word, p.offset);
  }

  /** Bit `i` of the sequence of booleans that `words` stands for. */
  predicate At(words: seq<Word>, i: nat)
    requires i < |words| * WORD_BITS
  {
    Bit(words[i / WORD_BITS], i % WORD_BITS)
  }

  predicate Holds(words: seq<Word>, length: nat) {
    length <= |words| * WORD_BITS
  }

  lemma AtPos(words: seq<Word>, w: nat, o: nat)
    requires w < |words| && o < WORD_BITS
    ensures w * WORD_BITS + o < |words| * WORD_BITS
    ensures At(words, w * WORD_BITS + o) == Bit(words[w], o)
  {
    assert (w * WORD_BITS + o) / WORD_BITS == w;
  }

  // ----- Single bits -----

  /** bit_array_get() */
  predicate Get(words: seq<Word>, length: nat, bit: BitPos)
    requires Holds(words, length) && ValidPos(bit) && ToIndex(bit) < length
    ensures Get(words, length, bit) == At(words, ToIndex(bit))
  {
    var probe := WordAnd(words[bit.word], ShiftLeft(1, bit.offset));
    assert (probe != 0) == At(words, ToIndex(bit)) by {
      ProbeBit(words[bit.word], bit.offset);
      AtPos(words, bit.word, bit.offset);
    }
    probe != 0
  }

  lemma ProbeBit(w: Word, k: nat)
    requires k < WORD_BITS
    ensures (WordAnd(w, ShiftLeft(1, k)) != 0) == Bit(w, k)
  {
    var probe := WordAnd(w, ShiftLeft(1, k));
    BitOne(0);
    if Bit(w, k) {
      assert Bit(probe, k);
      BitZero(k);
    } else {
      forall i: nat | i < WORD_BITS
        ensures Bit(probe, i) == Bit(0, i)
      {
        BitZero(i);
        if i >= k { BitOne(i - k); }
      }
      WordExt(probe, 0);
    }
  }

  /** What every method that writes bits promises: the bits of [lo, hi) become `value`
      and all others stay. */
  ghost predicate Updated(before: seq<Word>, after: seq<Word>, lo: nat, hi: nat, value: bool)
  {
    && |after| == |before|
    && forall i: nat :: i < |before| * WORD_BITS ==>
         At(after, i) == if lo <= i < hi then value else At(before, i)
  }

  lemma UpdatedFromBits(before: seq<Word>, after: seq<Word>, lo: nat, hi: nat, value: bool)
    requires |after| == |before|
    requires forall w: nat, o: nat :: w < |before| && o < WORD_BITS ==>
      Bit(after[w], o) == if lo <= w * WORD_BITS + o < hi then value else Bit(before[w], o)
    ensures Updated(before, after, lo, hi, value)
  {
    forall i: nat | i < |before| * WORD_BITS
      ensures At(after, i) == if lo <= i < hi then value else At(before, i)
    {
      var w, o := i / WORD_BITS, i % WORD_BITS;
      assert i == w * WORD_BITS + o;
      assert Bit(after[w], o) == if lo <= w * WORD_BITS + o < hi then value else Bit(before[w], o);
    }
  }

  /** bit_array_set() */
  method Set(words: array<Word>, length: nat, bit: BitPos, value: bool)
    requires Holds(words[..], length) && ValidPos(bit) && ToIndex(bit) < length
    modifies words
    ensures Updated(old(words[..]), words[..], ToIndex(bit), ToIndex(bit) + 1, value)
  {
    var one := ShiftLeft(1, bit.offset);
    assert forall i: nat :: Bit(one, i) <==> i == bit.offset by {
      forall i: nat
        ensures Bit(one, i) <==> i == bit.offset
      {
        if bit.offset <= i { BitOne(i - bit.offset); }
      }
    }
    if value {
      words[bit.word] := WordOr(words[bit.word], one);
    } else {
      words[bit.word] := WordAnd(words[bit.word], WordNot(one));
    }
    ghost var before, after := old(words[..]), words[..];
    UpdatedFromBits(before, after, ToIndex(bit), ToIndex(bit) + 1, value);
  }

  // ----- Ranges -----

  /** Does bit `o` of word `w` belong to the range [start, end)? */
  predicate Covered(start: BitPos, end: BitPos, w: nat, o: nat)
    requires ValidPos(start) && ValidPos(end)
  {
    ToIndex(start) <= w * WORD_BITS + o < ToIndex(end)
  }

  /** Bounds of the covered part of word `w`, as bit_array_range_set() computes them. */
  function StartOffset(start: BitPos, w: nat): nat
    requires ValidPos(start)
  {
    if w == start.word then start.offset else 0
  }

  function EndOffset(end: BitPos, w: nat): nat
    requires ValidPos(end)
  {
    if w == end.word then end.offset else WORD_BITS
  }

  /** Is word `w` filled by a plain assignment, without any mask? */
  predicate FastPath(start: BitPos, end: BitPos, w: nat)
    requires ValidPos(start) && ValidPos(end)
  {
    (w > start.word || start.offset == 0) && w < end.word
  }

  /** The mask expression is free of out-of-range shifts exactly on the words that
      reach it: the fast path is what keeps a full-word shift away. */
  lemma ShiftInRangeIffSlowPath(start: BitPos, end: BitPos, w: nat)
    requires ValidPos(start) && ValidPos(end) && start.word <= w <= end.word
    requires StartOffset(start, w) <= EndOffset(end, w)
    ensures EndOffset(end, w) - StartOffset(start, w) < WORD_BITS <==> !FastPath(start, end, w)
  {
  }

  /** Does word `w` get as far as the mask computation? */
  predicate ReachesMask(start: BitPos, end: BitPos, w: nat)
    requires ValidPos(start) && ValidPos(end)
  {
    !FastPath(start, end, w) && !(w == end.word && end.offset == 0)
  }

  /** The source's own argument says that a start word reaching the mask has a nonzero
      offset. That fails exactly on the nonempty ranges that start a word and end within it. */
  lemma AlignedStartReachesMask(start: BitPos, end: BitPos)
    requires ValidPos(start) && ValidPos(end) && start.word <= end.word
    ensures ReachesMask(start, end, start.word) && start.offset == 0
       <==> start.word == end.word && start.offset == 0 < end.offset
  {
  }

  /** The word in which exactly the bits [startOffset, endOffset) are set. */
  function FillMask(startOffset: nat, endOffset: nat): (r: Word)
    requires startOffset < WORD_BITS && startOffset <= endOffset <= WORD_BITS
    requires endOffset - startOffset < WORD_BITS
    ensures forall o: nat :: Bit(r, o) <==> startOffset <= o < endOffset
  {
    ShiftLeft(LowMask(endOffset - startOffset), startOffset)
  }

  /** bit_array_range_set() */
  method RangeSet(words: array<Word>, length: nat, start: BitPos, end: BitPos, value: bool)
    requires Holds(words[..], length) && ValidPos(start) && ValidPos(end)
    requires ToIndex(start) < length || start == end
    requires ToIndex(end) <= length
    modifies words
    ensures Updated(old(words[..]), words[..], ToIndex(start), ToIndex(end), value)
  {
    var broadcast := Broadcast(value);
    var w := start.word;
    while w <= end.word
      invariant start.word <= w
      invariant w <= end.word + 1 || w == start.word
      invariant forall v: nat, o: nat :: v < words.Length && o < WORD_BITS ==>
        Bit(words[v], o) == if v < w && Covered(start, end, v, o) then value else Bit(old(words[v]), o)
      decreases end.word + 1 - w
    {
      if FastPath(start, end, w) {
        words[w] := broadcast;
      } else if !ReachesMask(start, end, w) {
        w := w + 1;
        break;
      } else {
        var current := words[w];
        var startOffset, endOffset := StartOffset(start, w), EndOffset(end, w);
        if startOffset <= endOffset {
          var mask := FillMask(startOffset, endOffset);
          words[w] := WordOr(WordAnd(broadcast, mask), WordAnd(current, WordNot(mask)));
        }
      }
      w := w + 1;
    }
    ghost var before, after := old(words[..]), words[..];
    UpdatedFromBits(before, after, ToIndex(start), ToIndex(end), value);
  }

  /** Normalise into the problem of looking for set bits, as every search and count does. */
  function Normalised(w: Word, value: bool): (r: Word)
    ensures forall o: nat :: o < WORD_BITS ==> (Bit(r, o) <==> Bit(w, o) == value)
    ensures forall o: nat :: o >= WORD_BITS ==> !Bit(r, o)
  {
    WordBits(w);
    if value then w else WordNot(w)
  }

  // ----- Counting -----

  /** How many of the bits [0, hi) equal `value`. */
  function CountBelow(words: seq<Word>, hi: nat, value: bool): nat
    requires hi <= |words| * WORD_BITS
  {
    if hi == 0 then 0
    else CountBelow(words, hi - 1, value) + (if At(words, hi - 1) == value then 1 else 0)
  }

  /** The count over `n` bits of one word, added to the count over the words before it. */
  lemma {:induction false} CountWord(words: seq<Word>, w: nat, target: Word, n: nat, value: bool)
    requires w < |words| && n <= WORD_BITS
    requires forall o: nat :: o < n ==> (Bit(target, o) <==> Bit(words[w], o) == value)
    ensures CountBelow(words, w * WORD_BITS + n, value)
         == CountBelow(words, w * WORD_BITS, value) + Ones(target, n)
  {
    if n > 0 {
      CountWord(words, w, target, n - 1, value);
      AtPos(words, w, n - 1);
    }
  }

  /** The same for a word whose other bits were masked out. */
  lemma CountMasked(words: seq<Word>, w: nat, target: Word, n: nat, value: bool)
    requires w < |words| && n <= WORD_BITS
    requires forall o: nat :: o < WORD_BITS ==> (Bit(target, o) <==> o < n && Bit(words[w], o) == value)
    ensures CountBelow(words, w * WORD_BITS + n, value)
         == CountBelow(words, w * WORD_BITS, value) + Ones(target, WORD_BITS)
  {
    CountWord(words, w, target, n, value);
    OnesAboveGap(target, n, WORD_BITS);
  }

  /** bit_array_count() */
  method Count(words: seq<Word>, length: nat, value: bool) returns (result: nat)
    requires Holds(words, length)
    ensures result == CountBelow(words, length, value)
  {
    var fullWords := length / WORD_BITS;
    var remaining := length % WORD_BITS;
    result := 0;
    for w := 0 to fullWords
      invariant result == CountBelow(words, w * WORD_BITS, value)
    {
      var target := Normalised(words[w], value);
      var ones := PopulationCount(target);
      CountWord(words, w, target, WORD_BITS, value);
      result := result + ones;
    }
    if remaining > 0 {
      var target := Normalised(words[fullWords], value);
      target := WordAnd(target, LowMask(remaining));
      var ones := PopulationCount(target);
      CountMasked(words, fullWords, target, remaining, value);
      result := result + ones;
    }
  }

  /** Set and clear bits partition the array. */
  lemma {:induction false} CountsAddUp(words: seq<Word>, hi: nat)
    requires hi <= |words| * WORD_BITS
    ensures CountBelow(words, hi, true) + CountBelow(words, hi, false) == hi
  {
    if hi > 0 { CountsAddUp(words, hi - 1); }
  }

  // ----- Searching -----

  /** The smallest position of [lo, hi) that holds `value`, or `hi`. */
  function NextMatch(words: seq<Word>, lo: nat, hi: nat, value: bool): (r: nat)
    requires lo <= hi <= |words| * WORD_BITS
    ensures lo <= r <= hi
    decreases hi - lo
  {
    if lo == hi || At(words, lo) == value then lo else NextMatch(words, lo + 1, hi, value)
  }

  lemma {:induction false} NextMatchExact(words: seq<Word>, lo: nat, hi: nat, value: bool)
    requires lo <= hi <= |words| * WORD_BITS
    ensures var r := NextMatch(words, lo, hi, value);
      && (r < hi ==> At(words, r) == value)
      && forall i: nat :: lo <= i < r ==> At(words, i) != value
    decreases hi - lo
  {
    if lo < hi && At(words, lo) != value {
      NextMatchExact(words, lo + 1, hi, value);
    }
  }

  /** A position with a match and no earlier one is what NextMatch finds. */
  lemma NextMatchIs(words: seq<Word>, lo: nat, hi: nat, value: bool, r: nat)
    requires lo <= r <= hi <= |words| * WORD_BITS
    requires r < hi ==> At(words, r) == value
    requires forall i: nat :: lo <= i < r ==> At(words, i) != value
    ensures NextMatch(words, lo, hi, value) == r
  {
    NextMatchExact(words, lo, hi, value);
  }

  /** How a search result is encoded: a match below `hi`, or NO_BIT_POS. */
  function Found(r: nat, hi: nat): BitPos {
    if r < hi then ToPos(r) else NoPos
  }

  lemma EmptyWordHasNoMatch(words: seq<Word>, w: nat, value: bool)
    requires w < |words| && words[w] == Broadcast(!value)
    ensures forall i: nat :: w * WORD_BITS <= i < (w + 1) * WORD_BITS ==> At(words, i) != value
  {
  }

  /** Bit `o` of `target` tells whether bit `o + lo` of word `w`, below `bits`, is a match. */
  ghost predicate Window(words: seq<Word>, w: nat, target: Word, lo: nat, bits: nat, value: bool)
    requires w < |words|
  {
    forall o: nat :: o < WORD_BITS ==>
      (Bit(target, o) <==> o + lo < bits && Bit(words[w], o + lo) == value)
  }

  lemma NoMatchInWord(words: seq<Word>, w: nat, target: Word, lo: nat, bits: nat,
                      value: bool, z: nat)
    requires w < |words| && bits <= WORD_BITS && lo + z <= bits
    requires Window(words, w, target, lo, bits, value)
    requires forall o: nat :: o < z ==> !Bit(target, o)
    ensures forall i: nat :: w * WORD_BITS + lo <= i < w * WORD_BITS + lo + z ==> At(words, i) != value
  {
    forall i: nat | w * WORD_BITS + lo <= i < w * WORD_BITS + lo + z
      ensures At(words, i) != value
    {
      var o := i - w * WORD_BITS - lo;
      assert !Bit(target, o);
      AtPos(words, w, o + lo);
      assert i == w * WORD_BITS + (o + lo);
    }
  }

  /** A set bit of a window is a match. */
  lemma WindowBit(words: seq<Word>, w: nat, target: Word, lo: nat, bits: nat, value: bool, o: nat)
    requires w < |words| && bits <= WORD_BITS && o < WORD_BITS
    requires Window(words, w, target, lo, bits, value) && Bit(target, o)
    ensures lo + o < bits && w * WORD_BITS + o + lo < |words| * WORD_BITS
    ensures At(words, w * WORD_BITS + o + lo) == value
  {
    AtPos(words, w, o + lo);
  }

  /** An all-zero window has no match. */
  lemma EmptyWindow(words: seq<Word>, w: nat, lo: nat, bits: nat, value: bool)
    requires w < |words| && lo <= bits <= WORD_BITS
    requires Window(words, w, 0, lo, bits, value)
    ensures forall i: nat :: w * WORD_BITS + lo <= i < w * WORD_BITS + bits ==> At(words, i) != value
  {
    forall o: nat ensures !Bit(0, o) { BitZero(o); }
    NoMatchInWord(words, w, 0, lo, bits, value, bits - lo);
  }

  /** The lowest set bit of a window is the next match. */
  lemma FirstInWindow(words: seq<Word>, w: nat, target: Word, lo: nat, bits: nat, hi: nat,
                      value: bool, z: nat)
    requires w < |words| && lo <= bits <= WORD_BITS
    requires w * WORD_BITS + bits <= hi <= |words| * WORD_BITS
    requires Window(words, w, target, lo, bits, value)
    requires z < WORD_BITS && Bit(target, z)
    requires forall o: nat :: o < z ==> !Bit(target, o)
    ensures lo + z < bits
    ensures NextMatch(words, w * WORD_BITS + lo, hi, value) == w * WORD_BITS + (lo + z)
    ensures Found(NextMatch(words, w * WORD_BITS + lo, hi, value), hi) == Pos(w, lo + z)
  {
    PosOf(w, lo + z);
    NoMatchInWord(words, w, target, lo, bits, value, z);
    AtPos(words, w, lo + z);
    NextMatchIs(words, w * WORD_BITS + lo, hi, value, w * WORD_BITS + (lo + z));
  }

  /** Searching from an earlier start changes nothing if the skipped part has no match. */
  lemma NextMatchSkip(words: seq<Word>, lo: nat, mid: nat, hi: nat, value: bool)
    requires lo <= mid <= hi <= |words| * WORD_BITS
    requires forall i: nat :: lo <= i < mid ==> At(words, i) != value
    ensures NextMatch(words, lo, hi, value) == NextMatch(words, mid, hi, value)
  {
    NextMatchExact(words, mid, hi, value);
    NextMatchIs(words, lo, hi, value, NextMatch(words, mid, hi, value));
  }

  /** bit_array_find_first() */
  method FindFirst(words: seq<Word>, length: nat, value: bool) returns (pos: BitPos)
    requires Holds(words, length)
    ensures pos == Found(NextMatch(words, 0, length, value), length)
  {
    var emptyWord := Broadcast(!value);
    var endWord := WordsFor(length);
    var w := 0;
    while w < endWord && words[w] == emptyWord
      invariant w <= endWord
      invariant forall i: nat :: i < w * WORD_BITS && i < length ==> At(words, i) != value
    {
      EmptyWordHasNoMatch(words, w, value);
      w := w + 1;
    }
    if w == endWord {
      NextMatchIs(words, 0, length, value, length);
      return NoPos;
    }
    NextMatchSkip(words, 0, w * WORD_BITS, length, value);
    pos := FindInWord(words, length, w, value);
  }

  /** The end of bit_array_find_first(): the search ended on the non-empty word `w`. */
  method FindInWord(words: seq<Word>, length: nat, w: nat, value: bool) returns (pos: BitPos)
    requires Holds(words, length) && w < WordsFor(length)
    requires words[w] != Broadcast(!value)
    ensures pos == Found(NextMatch(words, w * WORD_BITS, length, value), length)
  {
    var fullWords := length / WORD_BITS;
    var remaining := length % WORD_BITS;
    var found := Normalised(words[w], value);
    ghost var bits := WORD_BITS;
    WordOfArray(length, w);
    NonEmptyWord(words[w], value);
    if w == fullWords && remaining != 0 {
      found := WordAnd(found, LowMask(remaining));
      bits := remaining;
      if found == 0 {
        EmptyWindow(words, w, 0, remaining, value);
        NextMatchIs(words, w * WORD_BITS, length, value, length);
        return NoPos;
      }
    }
    var offset := CountTrailingZeros(found);
    FirstInWindow(words, w, found, 0, bits, length, value, offset);
    return Pos(w, offset);
  }

  lemma NonEmptyWord(w: Word, value: bool)
    requires w != Broadcast(!value)
    ensures Normalised(w, value) != 0
  {
    var normalised := Normalised(w, value);
    if normalised == 0 {
      forall i: nat | i < WORD_BITS
        ensures Bit(w, i) == Bit(Broadcast(!value), i)
      {
        BitZero(i);
        assert !Bit(normalised, i);
      }
      WordExt(w, Broadcast(!value));
    }
  }

  /** The first match strictly after `previous`, wrapping around to the start and
      checking `previous` itself last. */
  function CircularNext(words: seq<Word>, length: nat, previous: nat, value: bool): (r: nat)
    requires Holds(words, length) && previous < length
  {
    var ahead := NextMatch(words, previous + 1, length, value);
    if ahead < length then ahead
    else
      var behind := NextMatch(words, 0, previous + 1, value);
      if behind <= previous then behind else length
  }

  /** Steps from `previous` to `r` in circular order; `previous` itself is a full turn away. */
  function CircularDistance(length: nat, previous: nat, r: nat): (d: nat)
    requires previous < length && r < length
    ensures 1 <= d <= length
  {
    if r > previous then r - previous else r + length - previous
  }

  /** CircularNext is the first match in circular order, if there is any match at all. */
  lemma CircularNextIsFirst(words: seq<Word>, length: nat, previous: nat, value: bool)
    requires Holds(words, length) && previous < length
    ensures var r := CircularNext(words, length, previous, value);
      if r < length then
        && At(words, r) == value
        && forall i: nat :: i < length && At(words, i) == value ==>
             CircularDistance(length, previous, r) <= CircularDistance(length, previous, i)
      else r == length && forall i: nat :: i < length ==> At(words, i) != value
  {
    NextMatchExact(words, previous + 1, length, value);
    NextMatchExact(words, 0, previous + 1, value);
  }

  /** Bits of the words from `base` on are the bits of the array from `base * WORD_BITS` on. */
  lemma NextMatchDropWords(words: seq<Word>, base: nat, hi: nat, value: bool)
    requires base <= |words| && base * WORD_BITS <= hi <= |words| * WORD_BITS
    ensures NextMatch(words, base * WORD_BITS, hi, value)
         == base * WORD_BITS + NextMatch(words[base..], 0, hi - base * WORD_BITS, value)
  {
    var tail := words[base..];
    forall i: nat | i < |tail| * WORD_BITS
      ensures At(tail, i) == At(words, base * WORD_BITS + i)
    {
      assert (base * WORD_BITS + i) / WORD_BITS == base + i / WORD_BITS;
    }
    var r := NextMatch(tail, 0, hi - base * WORD_BITS, value);
    NextMatchExact(tail, 0, hi - base * WORD_BITS, value);
    forall i: nat | base * WORD_BITS <= i < base * WORD_BITS + r
      ensures At(words, i) != value
    {
      assert At(tail, i - base * WORD_BITS) != value;
    }
    NextMatchIs(words, base * WORD_BITS, hi, value, base * WORD_BITS + r);
  }

  lemma FoundDropWords(words: seq<Word>, base: nat, hi: nat, value: bool)
    requires base <= |words| && base * WORD_BITS <= hi <= |words| * WORD_BITS
    ensures var pos := Found(NextMatch(words[base..], 0, hi - base * WORD_BITS, value), hi - base * WORD_BITS);
      Found(NextMatch(words, base * WORD_BITS, hi, value), hi)
        == if pos == NoPos then NoPos else Pos(pos.word + base, pos.offset)
  {
    NextMatchDropWords(words, base, hi, value);
    var r := NextMatch(words[base..], 0, hi - base * WORD_BITS, value);
    PosOf(r / WORD_BITS, r % WORD_BITS);
    PosOf(base + r / WORD_BITS, r % WORD_BITS);
  }

  /** The end of word `w`, or of the array if the array ends in that word. */
  function EndOfWord(length: nat, w: nat): nat {
    if w == length / WORD_BITS then length else (w + 1) * WORD_BITS
  }

  /** What bit_array_find_next() scans of the word of `previous`: a set bit for every match
      after `previous`, counted from the bit after it. */
  function RestOfWord(words: seq<Word>, length: nat, previous: BitPos, value: bool): (r: Word)
    requires Holds(words, length) && ValidPos(previous) && ToIndex(previous) < length
    requires ToIndex(previous) + 1 != EndOfWord(length, previous.word)
    ensures previous.offset + 1 < WORD_BITS
    ensures Window(words, previous.word, r, previous.offset + 1,
                   EndOfWord(length, previous.word) - previous.word * WORD_BITS, value)
  {
    PartOfWord(length, previous);
    var target := Normalised(words[previous.word], value);
    var incomplete := previous.word == length / WORD_BITS;
    var masked := if incomplete then WordAnd(target, LowMask(length % WORD_BITS)) else target;
    ShiftRight(masked, previous.offset + 1)
  }

  /** The first part of bit_array_find_next(): look at the rest of the word of `previous`. */
  method FindInRestOfWord(words: seq<Word>, length: nat, previous: BitPos, value: bool)
      returns (pos: BitPos, ghost end: nat)
    requires Holds(words, length) && ValidPos(previous) && ToIndex(previous) < length
    ensures end == EndOfWord(length, previous.word)
    ensures ToIndex(previous) < end <= length
    ensures pos != NoPos ==>
      pos == Found(NextMatch(words, ToIndex(previous) + 1, length, value), length)
    ensures pos == NoPos ==>
      forall i: nat :: ToIndex(previous) < i < end ==> At(words, i) != value
  {
    var previousBits := if previous.word == length / WORD_BITS then length % WORD_BITS else WORD_BITS;
    var w := previous.word;
    PartOfWord(length, previous);
    end := w * WORD_BITS + previousBits;
    if previous.offset != previousBits - 1 {
      var target := RestOfWord(words, length, previous, value);
      var dropped := previous.offset + 1;
      if target != 0 {
        var extra := CountTrailingZeros(target);
        FirstInWindow(words, w, target, dropped, previousBits, length, value, extra);
        return Pos(w, dropped + extra), end;
      }
      EmptyWindow(words, w, dropped, previousBits, value);
    }
    pos := NoPos;
  }

  /** The second part of bit_array_find_next(): look at the words after word `w`. */
  method FindInLaterWords(words: seq<Word>, length: nat, w: nat, ghost end: nat, value: bool)
      returns (pos: BitPos)
    requires Holds(words, length) && w < WordsFor(length)
    requires end == EndOfWord(length, w) <= length
    ensures pos == Found(NextMatch(words, end, length, value), length)
  {
    WordOfArray(length, w);
    WordOfArray(length, w + 1);
    if w != WordsFor(length) - 1 {
      var base := w + 1;
      pos := FindFirst(words[base..], length - base * WORD_BITS, value);
      FoundDropWords(words, base, length, value);
      if pos != NoPos {
        pos := Pos(pos.word + base, pos.offset);
      }
    } else {
      pos := NoPos;
    }
  }

  /** bit_array_find_next() up to the end of the array */
  method FindAfter(words: seq<Word>, length: nat, previous: BitPos, value: bool) returns (pos: BitPos)
    requires Holds(words, length) && ValidPos(previous) && ToIndex(previous) < length
    ensures pos == Found(NextMatch(words, ToIndex(previous) + 1, length, value), length)
  {
    ghost var end;
    pos, end := FindInRestOfWord(words, length, previous, value);
    if pos != NoPos { return; }
    NextMatchSkip(words, ToIndex(previous) + 1, end, length, value);
    pos := FindInLaterWords(words, length, previous.word, end, value);
  }

  /** bit_array_find_next() */
  method FindNext(words: seq<Word>, length: nat, previous: BitPos, wraparound: bool, value: bool)
      returns (pos: BitPos)
    requires Holds(words, length) && ValidPos(previous) && ToIndex(previous) < length
    ensures !wraparound ==> pos == Found(NextMatch(words, ToIndex(previous) + 1, length, value), length)
    ensures wraparound ==> pos == Found(CircularNext(words, length, ToIndex(previous), value), length)
  {
    pos := FindAfter(words, length, previous, value);
    if pos != NoPos { return; }
    if !wraparound { return NoPos; }
    pos := FindFirst(words, ToIndex(previous) + 1, value);
  }

  // ----- Uniform ranges -----

  /** Every bit of [lo, hi) equals `value`. */
  ghost predicate AllEq(words: seq<Word>, lo: nat, hi: nat, value: bool)
    requires hi <= |words| * WORD_BITS
  {
    forall i: nat :: lo <= i < hi ==> At(words, i) == value
  }

  /** The word that bit_array_range_alleq() compares with zero: a set bit for every bit of
      word `w` that is within the range and differs from `value`. */
  function Mismatches(words: seq<Word>, start: BitPos, end: BitPos, w: nat, value: bool): (r: Word)
    requires ValidPos(start) && ValidPos(end) && w < |words|
    ensures Window(words, w, r, StartOffset(start, w), EndOffset(end, w), !value)
  {
    var target := Normalised(words[w], !value);
    var clipped := if w == end.word then WordAnd(target, LowMask(end.offset)) else target;
    if w == start.word then ShiftRight(clipped, start.offset) else clipped
  }

  /** A set bit of the mismatch word is a bit of the range that differs from `value`. */
  lemma MismatchFound(words: seq<Word>, start: BitPos, end: BitPos, w: nat, value: bool)
    requires ValidPos(start) && ValidPos(end) && start.word <= w <= end.word
    requires w < |words| && ToIndex(end) <= |words| * WORD_BITS
    requires Mismatches(words, start, end, w, value) != 0
    ensures !AllEq(words, ToIndex(start), ToIndex(end), value)
  {
    var target := Mismatches(words, start, end, w, value);
    var o := SomeWordBit(target);
    WindowBit(words, w, target, StartOffset(start, w), EndOffset(end, w), !value, o);
    assert ToIndex(start) <= w * WORD_BITS + o + StartOffset(start, w) < ToIndex(end);
  }

  /** Without a set bit, the covered part of word `w` is uniform. */
  lemma NoMismatch(words: seq<Word>, start: BitPos, end: BitPos, w: nat, value: bool)
    requires ValidPos(start) && ValidPos(end) && start.word <= w <= end.word
    requires w < |words| && ToIndex(end) <= |words| * WORD_BITS
    requires Mismatches(words, start, end, w, value) == 0
    ensures forall i: nat :: ToIndex(start) <= i < ToIndex(end) && w * WORD_BITS <= i < (w + 1) * WORD_BITS ==>
      At(words, i) == value
  {
    if StartOffset(start, w) <= EndOffset(end, w) {
      EmptyWindow(words, w, StartOffset(start, w), EndOffset(end, w), !value);
    }
  }

  /** bit_array_range_alleq() */
  method RangeAllEq(words: seq<Word>, length: nat, start: BitPos, end: BitPos, value: bool)
      returns (result: bool)
    requires Holds(words, length) && ValidPos(start) && ValidPos(end)
    requires ToIndex(start) < length || start == end
    requires ToIndex(end) <= length
    ensures result <==> AllEq(words, ToIndex(start), ToIndex(end), value)
  {
    var w := start.word;
    while w <= end.word
      invariant start.word <= w
      invariant forall i: nat :: ToIndex(start) <= i < ToIndex(end) && i < w * WORD_BITS ==> At(words, i) == value
      decreases end.word + 1 - w
    {
      if w == end.word && end.offset == 0 { break; }
      var target := Mismatches(words, start, end, w, value);
      if target != 0 {
        MismatchFound(words, start, end, w, value);
        return false;
      }
      NoMismatch(words, start, end, w, value);
      w := w + 1;
    }
    return true;
  }

  // ----- Enumeration -----

  /** `found` lists exactly the matching positions below `hi`, in increasing order. */
  ghost predicate Lists(found: seq<nat>, words: seq<Word>, hi: nat, value: bool)
    requires hi <= |words| * WORD_BITS
  {
    && (forall i: nat :: i in found <==> i < hi && At(words, i) == value)
    && (forall j, k :: 0 <= j < k < |found| ==> found[j] < found[k])
    && |found| == CountBelow(words, hi, value)
  }

  lemma {:induction false} CountGap(words: seq<Word>, lo: nat, hi: nat, value: bool)
    requires lo <= hi <= |words| * WORD_BITS
    requires forall i: nat :: lo <= i < hi ==> At(words, i) != value
    ensures CountBelow(words, hi, value) == CountBelow(words, lo, value)
  {
    if lo < hi { CountGap(words, lo, hi - 1, value); }
  }

  lemma ListsUpToNext(found: seq<nat>, words: seq<Word>, from: nat, hi: nat, value: bool)
    requires from <= hi <= |words| * WORD_BITS
    requires Lists(found, words, from, value)
    ensures Lists(found, words, NextMatch(words, from, hi, value), value)
  {
    NextMatchExact(words, from, hi, value);
    CountGap(words, from, NextMatch(words, from, hi, value), value);
  }

  lemma ListsAppend(found: seq<nat>, words: seq<Word>, r: nat, value: bool)
    requires r < |words| * WORD_BITS && At(words, r) == value
    requires Lists(found, words, r, value)
    ensures Lists(found + [r], words, r + 1, value)
  {
    forall k | 0 <= k < |found|
      ensures found[k] < r
    {
      assert found[k] in found;
    }
    assert forall i: nat :: i in found + [r] <==> i in found || i == r;
  }

  lemma FoundPosition(r: nat, hi: nat)
    requires r < hi
    ensures ValidPos(Found(r, hi)) && ToIndex(Found(r, hi)) == r
  {
  }

  /** The state of the iteration below: `found` lists the matches below `from`, and `pos` is
      the next one. */
  ghost predicate Iterating(found: seq<nat>, words: seq<Word>, from: nat, hi: nat, value: bool, pos: BitPos)
    requires hi <= |words| * WORD_BITS
  {
    from <= hi && Lists(found, words, from, value) && pos == Found(NextMatch(words, from, hi, value), hi)
  }

  lemma IterationGoesOn(found: seq<nat>, words: seq<Word>, from: nat, hi: nat,
                        value: bool, pos: BitPos)
    requires hi <= |words| * WORD_BITS && Iterating(found, words, from, hi, value, pos) && pos != NoPos
    ensures ValidPos(pos) && from <= ToIndex(pos) < hi
    ensures Lists(found + [ToIndex(pos)], words, ToIndex(pos) + 1, value)
  {
    var r := NextMatch(words, from, hi, value);
    FoundPosition(r, hi);
    ListsUpToNext(found, words, from, hi, value);
    NextMatchExact(words, from, hi, value);
    ListsAppend(found, words, r, value);
  }

  lemma IterationEnds(found: seq<nat>, words: seq<Word>, from: nat, hi: nat, value: bool)
    requires hi <= |words| * WORD_BITS && Iterating(found, words, from, hi, value, NoPos)
    ensures Lists(found, words, hi, value)
  {
    ListsUpToNext(found, words, from, hi, value);
  }

  /** The iteration the header documents: find_first, then find_next until NO_BIT_POS. It
      visits exactly the matching positions, in order, and as many as bit_array_count() says. */
  method Enumerate(words: seq<Word>, length: nat, value: bool) returns (found: seq<nat>)
    requires Holds(words, length)
    ensures Lists(found, words, length, value)
  {
    found := [];
    ghost var from := 0;
    var pos := FindFirst(words, length, value);
    while pos != NoPos
      invariant Iterating(found, words, from, length, value, pos)
      decreases length - from
    {
      IterationGoesOn(found, words, from, length, value, pos);
      var index := ToIndex(pos);
      found := found + [index];
      pos := FindNext(words, length, pos, false, value);
      from := index + 1;
    }
    IterationEnds(found, words, from, length, value);
  }
}
