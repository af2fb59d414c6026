/**
  Packing random draws into words and cutting words into integers: bits.c.

  A sequence of 64-bit words stands for one large number, least significant word
  first. generate_entropy() writes such a number and entropy_to_bits() reads
  fixed-width slices of it.
 */
module Entropy {
  import opened Bits
  import opened BitArrays

  /** The number that `words` stands for. */
  function Number(words: seq<Word>): nat {
    if |words| == 0 then 0 else words[0] + Shl(Number(words[1..]), WORD_BITS)
  }

  lemma {:induction false} BitNumber(words: seq<Word>, i: nat)
    ensures Bit(Number(words), i) <==> i < |words| * WORD_BITS && At(words, i)
  {
    if |words| == 0 {
      BitZero(i);
    } else {
      Pow2Word();
      BitConcat(words[0], Number(words[1..]), WORD_BITS, i);
      if i >= WORD_BITS {
        BitNumber(words[1..], i - WORD_BITS);
        assert (i - WORD_BITS) / WORD_BITS == i / WORD_BITS - 1;
      }
    }
  }

  lemma NumberBound(words: seq<Word>)
    ensures Number(words) < Pow2(|words| * WORD_BITS)
  {
    forall i: nat | i >= |words| * WORD_BITS
      ensures !Bit(Number(words), i)
    {
      BitNumber(words, i);
    }
    HighBitsClear(Number(words), |words| * WORD_BITS);
  }

  /** The sum of `rand(i) * 2^(i * b)` over the first `n` draws. */
  function Packed(rand: nat -> Word, b: nat, n: nat): nat {
    if n == 0 then 0 else Packed(rand, b, n - 1) + Shl(rand(n - 1), (n - 1) * b)
  }

  ghost predicate Draws(rand: nat -> Word, b: nat) {
    forall i: nat :: rand(i) < Pow2(b)
  }

  lemma {:induction false} ConcatBound(a: nat, r: nat, k: nat, b: nat)
    requires a < Pow2(k) && r < Pow2(b)
    ensures a + Shl(r, k) < Pow2(k + b)
  {
    if k > 0 {
      ConcatBound(a / 2, r, k - 1, b);
      assert a + Shl(r, k) == a % 2 + 2 * (a / 2 + Shl(r, k - 1));
    }
  }

  lemma {:induction false} PackedBound(rand: nat -> Word, b: nat, n: nat)
    requires Draws(rand, b)
    ensures Packed(rand, b, n) < Pow2(n * b)
  {
    if n > 0 {
      PackedBound(rand, b, n - 1);
      ConcatBound(Packed(rand, b, n - 1), rand(n - 1), (n - 1) * b, b);
      assert (n - 1) * b + b == n * b;
    }
  }

  /** Draw `n` occupies the `b` bits above the draws before it. */
  lemma BitPacked(rand: nat -> Word, b: nat, n: nat, i: nat)
    requires Draws(rand, b)
    ensures Bit(Packed(rand, b, n + 1), i) <==>
      if i < n * b then Bit(Packed(rand, b, n), i) else Bit(rand(n), i - n * b)
  {
    PackedBound(rand, b, n);
    BitConcat(Packed(rand, b, n), rand(n), n * b, i);
  }

  /** One turn of the generate_entropy() loop, bit by bit. */
  lemma DrawWritten(before: seq<Word>, after: seq<Word>, rand: nat -> Word, b: nat, n: nat,
                    w: nat, o: nat)
    requires Draws(rand, b) && 1 <= b <= WORD_BITS
    requires |before| == |after| && w < |before| && o < WORD_BITS
    requires n * b < |before| * WORD_BITS
    requires Bit(before[w], o) <==> Bit(Packed(rand, b, n), w * WORD_BITS + o)
    requires var word, offset := n * b / WORD_BITS, n * b % WORD_BITS;
      after[w] ==
        if w == word then WordOr(before[w], ShiftLeft(rand(n), offset))
        else if w == word + 1 && WORD_BITS - offset < b then ShiftRight(rand(n), WORD_BITS - offset)
        else before[w]
    ensures Bit(after[w], o) <==> Bit(Packed(rand, b, n + 1), w * WORD_BITS + o)
  {
    var i := w * WORD_BITS + o;
    var word, offset := n * b / WORD_BITS, n * b % WORD_BITS;
    assert n * b == word * WORD_BITS + offset;
    BitPacked(rand, b, n, i);
    if i >= n * b {
      PackedBound(rand, b, n);
      BitAbove(Packed(rand, b, n), n * b, i);
      if w > word && i - n * b >= b {
        BitAbove(rand(n), b, i - n * b);
      }
    }
  }

  /** The words hold the first `n` draws, packed, and zeros above them. */
  ghost predicate HoldsDraws(words: seq<Word>, rand: nat -> Word, b: nat, n: nat) {
    forall w: nat, o: nat :: w < |words| && o < WORD_BITS ==>
      (Bit(words[w], o) <==> Bit(Packed(rand, b, n), w * WORD_BITS + o))
  }

  /** The body of the generate_entropy() loop: integrate draw `n` at bit `n * b`. */
  method WriteDraw(output: array<Word>, b: nat, ghost n: nat, bitsSoFar: nat, ghost rand: nat -> Word, entropy: Word)
    requires 1 <= b <= WORD_BITS && Draws(rand, b) && entropy == rand(n)
    requires bitsSoFar == n * b < output.Length * WORD_BITS
    requires HoldsDraws(output[..], rand, b, n)
    modifies output
    ensures HoldsDraws(output[..], rand, b, n + 1)
  {
    var word := bitsSoFar / WORD_BITS;
    var offset := bitsSoFar % WORD_BITS;
    ghost var before := output[..];
    output[word] := WordOr(output[word], ShiftLeft(entropy, offset));
    var localBits := WORD_BITS - offset;
    if localBits < b && word + 1 < output.Length {
      output[word + 1] := ShiftRight(entropy, localBits);
    }
    ghost var after := output[..];
    forall w: nat, o: nat | w < |after| && o < WORD_BITS
      ensures Bit(after[w], o) <==> Bit(Packed(rand, b, n + 1), w * WORD_BITS + o)
    {
      DrawWritten(before, after, rand, b, n, w, o);
    }
  }

  /** generate_entropy(), with rand() as a stream of `b`-bit draws. It fills `output`
      with the packed draws, truncated, and reports how many it took. */
  method Generate(output: array<Word>, b: nat, rand: nat -> Word) returns (drawn: nat)
    requires 1 <= b <= WORD_BITS && Draws(rand, b)
    modifies output
    ensures output.Length * WORD_BITS <= drawn * b < output.Length * WORD_BITS + b
    ensures Number(output[..]) == Low(Packed(rand, b, drawn), output.Length * WORD_BITS)
  {
    for i := 0 to output.Length
      invariant forall w: nat :: w < i ==> output[w] == 0
    {
      output[i] := 0;
    }
    drawn := 0;
    forall i: nat ensures !Bit(0, i) { BitZero(i); }
    var bitsSoFar := 0;
    var total := output.Length * WORD_BITS;
    while bitsSoFar < total
      invariant bitsSoFar == drawn * b < total + b
      invariant HoldsDraws(output[..], rand, b, drawn)
      decreases total + b - bitsSoFar
    {
      WriteDraw(output, b, drawn, bitsSoFar, rand, rand(drawn));
      assert (drawn + 1) * b == drawn * b + b;
      drawn := drawn + 1;
      bitsSoFar := bitsSoFar + b;
    }
    TruncatedNumber(output[..], rand, b, drawn);
  }

  lemma TruncatedNumber(words: seq<Word>, rand: nat -> Word, b: nat, drawn: nat)
    requires HoldsDraws(words, rand, b, drawn)
    ensures Number(words) == Low(Packed(rand, b, drawn), |words| * WORD_BITS)
  {
    var v := Packed(rand, b, drawn);
    var n := |words| * WORD_BITS;
    forall i: nat
      ensures Bit(Number(words), i) == Bit(Low(v, n), i)
    {
      BitNumber(words, i);
      BitLow(v, n, i);
      if i < n {
        assert i == (i / WORD_BITS) * WORD_BITS + i % WORD_BITS;
      }
    }
    NumberBound(words);
    LowBound(v, n);
    SameBits(Number(words), Low(v, n), n);
  }

  lemma {:induction false} LowBound(v: nat, n: nat)
    ensures Low(v, n) < Pow2(n)
  {
    if n > 0 { LowBound(v / 2, n - 1); }
  }

  // ----- Reading slices -----

  /** Bits [c, c + n) of `v`, as a number. */
  function Slice(v: nat, c: nat, n: nat): nat {
    Low(Shr(v, c), n)
  }

  lemma BitSlice(v: nat, c: nat, n: nat, i: nat)
    ensures Bit(Slice(v, c, n), i) <==> i < n && Bit(v, c + i)
  {
    BitLow(Shr(v, c), n, i);
    BitShr(v, c, i);
  }

  lemma SliceIs(v: nat, c: nat, n: nat, r: nat)
    requires forall i: nat :: Bit(r, i) <==> i < n && Bit(v, c + i)
    ensures Slice(v, c, n) == r
  {
    forall i: nat ensures Bit(Slice(v, c, n), i) == Bit(r, i) { BitSlice(v, c, n, i); }
    LowBound(Shr(v, c), n);
    HighBitsClear(r, n);
    SameBits(Slice(v, c, n), r, n);
  }

  /** `count` consecutive slices of width `n`, starting at bit `c`. */
  function Slices(v: nat, c: nat, n: nat, count: nat): seq<nat> {
    seq(count, (k: nat) => Slice(v, c + k * n, n))
  }

  /** The two-word shift-and-mask expression of entropy_to_bits(). */
  method ReadSlice(n: nat, cursor: nat, inputs: seq<Word>) returns (result: Word)
    requires n <= WORD_BITS && cursor < |inputs| * WORD_BITS && cursor + n <= |inputs| * WORD_BITS
    ensures result == Slice(Number(inputs), cursor, n)
  {
    var word := cursor / WORD_BITS;
    var offset := cursor % WORD_BITS;
    result := ShiftRight(inputs[word], offset);
    WordBits(inputs[word]);
    var bitsSoFar := WORD_BITS - offset;
    if bitsSoFar < n {
      result := WordOr(result, ShiftLeft(inputs[word + 1], bitsSoFar));
    }
    ghost var joined := result;
    if n < WORD_BITS {
      result := WordAnd(result, LowMask(n));
    }
    forall i: nat
      ensures Bit(result, i) <==> i < n && Bit(Number(inputs), cursor + i)
    {
      if i < n {
        BitNumber(inputs, cursor + i);
        if i < bitsSoFar {
          AtPos(inputs, word, offset + i);
          assert cursor + i == word * WORD_BITS + (offset + i);
        } else {
          AtPos(inputs, word + 1, i - bitsSoFar);
          assert cursor + i == (word + 1) * WORD_BITS + (i - bitsSoFar);
        }
      } else {
        WordBits(result);
      }
    }
    SliceIs(Number(inputs), cursor, n, result);
  }

  /** Output `k` holds the input bits from `consumed + k * n` on, `n` of them, and zeros above. */
  ghost predicate BitsCopied(inputs: seq<Word>, consumed: nat, k: nat, n: nat, output: nat) {
    var from := consumed + k * n;
    forall i: nat :: Bit(output, i) <==> i < n && from + i < |inputs| * WORD_BITS && At(inputs, from + i)
  }

  lemma SliceCopiesBits(inputs: seq<Word>, consumed: nat, k: nat, n: nat)
    ensures BitsCopied(inputs, consumed, k, n, Slice(Number(inputs), consumed + k * n, n))
  {
    var from := consumed + k * n;
    forall i: nat
      ensures Bit(Slice(Number(inputs), from, n), i) <==>
        i < n && from + i < |inputs| * WORD_BITS && At(inputs, from + i)
    {
      BitSlice(Number(inputs), from, n, i);
      BitNumber(inputs, from + i);
    }
  }

  /** entropy_to_bits(). The last precondition is its assertion that a word is left to
      read; it only matters for zero-width outputs. */
  method ToBits(n: nat, outputs: array<Word>, consumed: nat, inputs: seq<Word>) returns (cursor: nat)
    requires n <= WORD_BITS
    requires consumed + outputs.Length * n <= |inputs| * WORD_BITS
    requires n == 0 && outputs.Length > 0 ==> consumed < |inputs| * WORD_BITS
    modifies outputs
    ensures outputs[..] == Slices(Number(inputs), consumed, n, outputs.Length)
    ensures forall k: nat :: k < outputs.Length ==> BitsCopied(inputs, consumed, k, n, outputs[k])
    ensures cursor == consumed + outputs.Length * n
  {
    cursor := consumed;
    for k := 0 to outputs.Length
      invariant cursor == consumed + k * n
      invariant forall j: nat :: j < k ==> outputs[j] == Slice(Number(inputs), consumed + j * n, n)
    {
      assert cursor + n == consumed + (k + 1) * n <= consumed + outputs.Length * n by {
        assert (k + 1) * n <= outputs.Length * n;
      }
      outputs[k] := ReadSlice(n, cursor, inputs);
      cursor := cursor + n;
    }
    forall k: nat | k < outputs.Length
      ensures BitsCopied(inputs, consumed, k, n, outputs[k])
    {
      SliceCopiesBits(inputs, consumed, k, n);
    }
  }

  /** Two calls of entropy_to_bits() compose into one. */
  lemma SlicesCompose(v: nat, c: nat, n: nat, p: nat, q: nat)
    ensures Slices(v, c, n, p) + Slices(v, c + p * n, n, q) == Slices(v, c, n, p + q)
  {
    forall k: nat | k < q
      ensures c + p * n + k * n == c + (p + k) * n
    {
    }
  }

  /** Slice `k` of the packed draws is draw `k`, for every draw that fits completely. */
  lemma SliceOfPacked(rand: nat -> Word, b: nat, drawn: nat, bits: nat, k: nat)
    requires Draws(rand, b) && k < drawn && (k + 1) * b <= bits
    ensures Slice(Low(Packed(rand, b, drawn), bits), k * b, b) == rand(k)
  {
    var v := Low(Packed(rand, b, drawn), bits);
    assert (k + 1) * b == k * b + b;
    forall i: nat
      ensures Bit(rand(k), i) <==> i < b && Bit(v, k * b + i)
    {
      if i < b {
        BitLow(Packed(rand, b, drawn), bits, k * b + i);
        BitOfDraw(rand, b, drawn, k, i);
      } else {
        BitAbove(rand(k), b, i);
      }
    }
    SliceIs(v, k * b, b, rand(k));
  }

  lemma {:induction false} BitOfDraw(rand: nat -> Word, b: nat, n: nat, k: nat, i: nat)
    requires Draws(rand, b) && i < b && k < n
    ensures Bit(Packed(rand, b, n), k * b + i) <==> Bit(rand(k), i)
  {
    BitPacked(rand, b, n - 1, k * b + i);
    if k < n - 1 {
      MulMonotone(k + 1, n - 1, b);
      assert (k + 1) * b == k * b + b;
      BitOfDraw(rand, b, n - 1, k, i);
    }
  }

  lemma MulMonotone(p: nat, q: nat, b: nat)
    requires p <= q
    ensures p * b <= q * b
  {
  }

  lemma AtMost(p: nat, q: nat, b: nat)
    requires p * b <= q * b && b > 0
    ensures p <= q
  {
    assert p > q ==> p * b >= (q + 1) * b;
  }

  lemma DrawsRecovered(rand: nat -> Word, b: nat, drawn: nat, bits: nat, count: nat)
    requires Draws(rand, b) && count <= drawn && count * b <= bits
    ensures forall k: nat :: k < count ==>
      Slices(Low(Packed(rand, b, drawn), bits), 0, b, count)[k] == rand(k)
  {
    forall k: nat | k < count
      ensures Slice(Low(Packed(rand, b, drawn), bits), 0 + k * b, b) == rand(k)
    {
      MulMonotone(k + 1, count, b);
      SliceOfPacked(rand, b, drawn, bits, k);
    }
  }

  /** generate_entropy() followed by entropy_to_bits() at the width of a draw, from bit 0,
      gives back the draws themselves. */
  method RoundTrip(length: nat, count: nat, b: nat, rand: nat -> Word) returns (draws: array<Word>)
    requires 1 <= b <= WORD_BITS && Draws(rand, b)
    requires count * b <= length * WORD_BITS
    ensures draws.Length == count && forall k: nat :: k < count ==> draws[k] == rand(k)
  {
    var words := new Word[length];
    var drawn := Generate(words, b, rand);
    draws := new Word[count];
    var cursor := ToBits(b, draws, 0, words[..]);
    AtMost(count, drawn, b);
    DrawsRecovered(rand, b, drawn, length * WORD_BITS, count);
    var result := draws[..];
    assert forall k: nat :: k < count ==> draws[k] == result[k];
  }
}
