/**
  The per-thread pool of equally sized I/O buffers: buffer.c.

  Memory is an address range; the pool hands out `bufferSize`-byte pieces of it
  and remembers the free ones in a bit array of UDIPE_MAX_BUFFERS bits.
 */
module BufferPool {
  import opened Options
  import opened Bits
  import opened BitArrays

  /** UDIPE_MAX_BUFFERS */
  const MAX_BUFFERS: nat := 64

  datatype Config = Config(bufferSize: nat, bufferCount: nat)

  /** finish_configuration(). Zero means default; `l1` and `l2` are the cache shares that
      hwloc reports. None is the exit on an oversized explicit count. */
  function FinishConfiguration(requested: Config, pageSize: nat, l1: nat, l2: nat): (r: Option<Config>)
    requires pageSize > 0
    requires requested.bufferSize > 0 || l1 > 0 || requested.bufferCount > 0
  {
    var size := if requested.bufferSize == 0 then l1 else requested.bufferSize;
    var remainder := size % pageSize;
    var bufferSize := if remainder != 0 then size + (pageSize - remainder) else size;
    if requested.bufferCount == 0 then
      var count := l2 / bufferSize + (if l2 % bufferSize != 0 then 1 else 0);
      Some(Config(bufferSize, if count <= MAX_BUFFERS then count else MAX_BUFFERS))
    else if requested.bufferCount > MAX_BUFFERS then None
    else Some(Config(bufferSize, requested.bufferCount))
  }

  /** The size is the least multiple of the page size that is large enough; an automatic
      count is the least one that covers the L2 share, capped at the maximum. */
  lemma ConfigurationRounds(requested: Config, pageSize: nat, l1: nat, l2: nat)
    requires pageSize > 0
    requires requested.bufferSize > 0 || l1 > 0 || requested.bufferCount > 0
    ensures var r := FinishConfiguration(requested, pageSize, l1, l2);
      && (r == None <==> requested.bufferCount > MAX_BUFFERS)
      && (r.Some? ==>
            var size := if requested.bufferSize == 0 then l1 else requested.bufferSize;
            var config := r.value;
            && (config.bufferSize > 0 <==> size > 0)
            && config.bufferSize % pageSize == 0
            && size <= config.bufferSize < size + pageSize
            && config.bufferCount <= MAX_BUFFERS
            && (requested.bufferCount > 0 ==> config.bufferCount == requested.bufferCount)
            && (requested.bufferCount == 0 ==>
                  && (config.bufferCount * config.bufferSize >= l2 || config.bufferCount == MAX_BUFFERS)
                  && (config.bufferCount > 0 ==> (config.bufferCount - 1) * config.bufferSize < l2)))
  {
    var size := if requested.bufferSize == 0 then l1 else requested.bufferSize;
    var r := FinishConfiguration(requested, pageSize, l1, l2);
    if r.Some? {
      RoundedUp(size, pageSize);
      if requested.bufferCount == 0 {
        CeilCovers(l2, r.value.bufferSize, r.value.bufferCount);
      }
    }
  }

  lemma RoundedUp(size: nat, page: nat)
    requires page > 0
    ensures var r := if size % page != 0 then size + (page - size % page) else size;
      r % page == 0 && size <= r < size + page
  {
    var q := size / page;
    if size % page != 0 {
      assert size + (page - size % page) == (q + 1) * page;
      ExactMultiple(q + 1, page);
    }
  }

  lemma CeilCovers(l2: nat, size: nat, count: nat)
    requires size > 0
    requires var exact := l2 / size + (if l2 % size != 0 then 1 else 0);
      count == if exact <= MAX_BUFFERS then exact else MAX_BUFFERS
    ensures count * size >= l2 || count == MAX_BUFFERS
    ensures count > 0 ==> (count - 1) * size < l2
  {
    var q := l2 / size;
    assert l2 == q * size + l2 % size;
    assert (q + 1) * size == q * size + size;
    if count > 0 {
      assert (count - 1) * size <= q * size;
      assert l2 % size == 0 ==> (count - 1) * size <= (q - 1) * size;
      assert (q - 1) * size == q * size - size;
    }
  }

  /** The indices below `n`. */
  function Below(n: nat): (r: set<nat>)
    ensures forall i: nat :: i in r <==> i < n
    ensures |r| == n
  {
    if n == 0 then {} else Below(n - 1) + {n - 1}
  }

  /** The positions below `hi` whose bit is set. */
  function SetBits(words: seq<Word>, hi: nat): (r: set<nat>)
    requires hi <= |words| * WORD_BITS
    ensures forall i: nat :: i in r <==> i < hi && At(words, i)
    ensures |r| == CountBelow(words, hi, true)
  {
    if hi == 0 then {}
    else if At(words, hi - 1) then SetBits(words, hi - 1) + {hi - 1}
    else SetBits(words, hi - 1)
  }

  /** Byte offset of buffer `i`. */
  function Offset(i: nat, size: nat): nat {
    if i == 0 then 0 else Offset(i - 1, size) + size
  }

  lemma {:induction false} OffsetIsProduct(i: nat, size: nat)
    ensures Offset(i, size) == i * size
  {
    if i > 0 { OffsetIsProduct(i - 1, size); }
  }

  lemma {:induction false} OffsetSpaced(i: nat, j: nat, size: nat)
    requires i < j
    ensures Offset(i, size) + size <= Offset(j, size)
  {
    if i < j - 1 { OffsetSpaced(i, j - 1, size); }
  }

  lemma OffsetAligned(i: nat, size: nat)
    requires size > 0
    ensures Offset(i, size) % size == 0
  {
    OffsetIsProduct(i, size);
    ExactMultiple(i, size);
  }

  /** The multiplication in buffer_allocate(). */
  method OffsetOf(index: nat, size: nat) returns (offset: nat)
    ensures offset == Offset(index, size)
  {
    OffsetIsProduct(index, size);
    offset := index * size;
  }

  /** The division in buffer_liberate(), which finds the index back. */
  method IndexAt(offset: nat, size: nat, ghost i: nat) returns (index: nat)
    requires size > 0 && offset == Offset(i, size)
    ensures index == i
  {
    OffsetIsProduct(i, size);
    ExactMultiple(i, size);
    index := offset / size;
  }

  /** Exactly the buffers of the pool that are not live are marked available. */
  ghost predicate Tracks(words: seq<Word>, count: nat, live: set<nat>) {
    && |words| == WordsFor(MAX_BUFFERS)
    && forall i: nat :: i < MAX_BUFFERS ==> (At(words, i) <==> i < count && i !in live)
  }

  ghost predicate IsLowestFree(i: nat, live: set<nat>, count: nat) {
    i < count && i !in live && forall j: nat :: j < i ==> j in live
  }

  lemma TracksTaken(before: seq<Word>, after: seq<Word>, count: nat, live: set<nat>, i: nat)
    requires Tracks(before, count, live) && Updated(before, after, i, i + 1, false)
    ensures Tracks(after, count, live + {i})
  {
  }

  lemma TracksReturned(before: seq<Word>, after: seq<Word>, count: nat, live: set<nat>, i: nat)
    requires Tracks(before, count, live) && i < count && Updated(before, after, i, i + 1, true)
    ensures Tracks(after, count, live - {i})
  {
  }

  /** The lowest set bit is the lowest buffer that is not live. */
  lemma LowestAvailable(words: seq<Word>, count: nat, live: set<nat>)
    requires Tracks(words, count, live) && count <= MAX_BUFFERS && live <= Below(count)
    ensures var i := NextMatch(words, 0, MAX_BUFFERS, true);
      if i == MAX_BUFFERS then live == Below(count)
      else IsLowestFree(i, live, count)
  {
    var i := NextMatch(words, 0, MAX_BUFFERS, true);
    NextMatchExact(words, 0, MAX_BUFFERS, true);
    forall j: nat | j < i && j < count
      ensures j in live
    {
      assert !At(words, j);
    }
    if i == MAX_BUFFERS {
      assert live == Below(count);
    } else {
      assert At(words, i);
    }
  }

  lemma FreeAndLive(words: seq<Word>, count: nat, live: set<nat>)
    requires Tracks(words, count, live) && count <= MAX_BUFFERS && live <= Below(count)
    ensures CountBelow(words, MAX_BUFFERS, true) + |live| == count
  {
    var free := SetBits(words, MAX_BUFFERS);
    forall i: nat
      ensures i in Below(count) <==> i in free || i in live
      ensures !(i in free && i in live)
    {
    }
    Partition(Below(count), free, live);
  }

  lemma Partition(all: set<nat>, a: set<nat>, b: set<nat>)
    requires forall i :: i in all <==> i in a || i in b
    requires forall i :: !(i in a && i in b)
    ensures |a| + |b| == |all|
  {
    assert all == a + b && a !! b;
  }

  class BufferAllocator {
    /** memory_pool; None is NULL. */
    var memoryPool: Option<nat>
    var config: Config
    const availability: array<Word>

    /** Indices of the buffers handed out and not liberated yet. */
    ghost var live: set<nat>

    ghost predicate Valid()
      reads this, availability
    {
      && availability.Length == WordsFor(MAX_BUFFERS)
      && memoryPool.Some?
      && config.bufferSize > 0
      && config.bufferCount <= MAX_BUFFERS
      && live <= Below(config.bufferCount)
      && Tracks(availability[..], config.bufferCount, live)
    }

    /** Address of buffer `i`. */
    function Address(i: nat): nat
      reads this
      requires memoryPool.Some?
    {
      memoryPool.value + Offset(i, config.bufferSize)
    }

    /** buffer_allocator_initialize(), after finish_configuration(); `pool` is what the
        system allocator returned for the whole pool. */
    constructor (config: Config, pool: nat)
      requires config.bufferSize > 0 && config.bufferCount <= MAX_BUFFERS
      ensures Valid() && fresh(availability)
      ensures live == {} && this.config == config && memoryPool == Some(pool)
    {
      memoryPool := Some(pool);
      this.config := config;
      live := {};
      availability := new Word[WordsFor(MAX_BUFFERS)];
      new;
      var start, buffersEnd, end := ToPos(0), ToPos(config.bufferCount), ToPos(MAX_BUFFERS);
      RangeSet(availability, MAX_BUFFERS, start, buffersEnd, true);
      RangeSet(availability, MAX_BUFFERS, buffersEnd, end, false);
    }

    /** buffer_allocate(): the lowest free buffer, or NULL exactly when every one is live. */
    method Allocate() returns (buffer: Option<nat>, ghost i: nat)
      requires Valid() && config.bufferCount > 0
      modifies this`live, availability
      ensures Valid()
      ensures buffer == None <==> old(live) == Below(config.bufferCount)
      ensures buffer == None ==> live == old(live)
      ensures buffer.Some? ==> IsLowestFree(i, old(live), config.bufferCount) && live == old(live) + {i}
      ensures buffer.Some? ==> buffer.value == Address(i)
    {
      ghost var before := availability[..];
      i := NextMatch(before, 0, MAX_BUFFERS, true);
      var bit := FindFirst(availability[..], MAX_BUFFERS, true);
      LowestAvailable(before, config.bufferCount, live);
      if bit == NoPos {
        return None, i;
      }
      FoundPosition(i, MAX_BUFFERS);
      Set(availability, MAX_BUFFERS, bit, false);
      TracksTaken(before, availability[..], config.bufferCount, live, i);
      var index := ToIndex(bit);
      live := live + {index};
      var offset := OffsetOf(index, config.bufferSize);
      buffer := Some(memoryPool.value + offset);
    }

    /** buffer_liberate(), on the address of a live buffer. */
    method Liberate(buffer: nat, ghost i: nat)
      requires Valid() && i in live && buffer == Address(i)
      modifies this`live, availability
      ensures Valid() && live == old(live) - {i}
    {
      ghost var before := availability[..];
      var offset := buffer - memoryPool.value;
      var index := IndexAt(offset, config.bufferSize, i);
      var bit := ToPos(index);
      Set(availability, MAX_BUFFERS, bit, true);
      TracksReturned(before, availability[..], config.bufferCount, live, i);
      live := live - {index};
    }

    /** buffer_allocator_finalize(): false is the exit on a leaked buffer. */
    method Finalize() returns (ok: bool)
      requires Valid()
      modifies this, availability
      ensures ok <==> old(live) == {}
      ensures ok ==> memoryPool == None && config == Config(0, 0)
      ensures ok ==> forall i: nat :: i < MAX_BUFFERS && i < availability.Length * WORD_BITS ==>
        !At(availability[..], i)
      ensures !ok ==> Valid() && live == old(live) && config == old(config)
    {
      ghost var before := availability[..];
      var start, end := ToPos(0), ToPos(config.bufferCount);
      ok := RangeAllEq(availability[..], MAX_BUFFERS, start, end, true);
      if !ok {
        return;
      }
      assert forall i: nat :: i < config.bufferCount ==> At(before, i);
      RangeSet(availability, MAX_BUFFERS, start, end, false);
      memoryPool := None;
      config := Config(0, 0);
    }

    /** Free buffers and live buffers always make up the whole pool. */
    lemma FreePlusLive()
      requires Valid()
      ensures CountBelow(availability[..], MAX_BUFFERS, true) + |live| == config.bufferCount
    {
      FreeAndLive(availability[..], config.bufferCount, live);
    }

    /** Every live buffer is an aligned piece of the pool. */
    lemma BufferIsInsidePool(i: nat)
      requires Valid() && i in live
      ensures Address(i) == memoryPool.value + i * config.bufferSize
      ensures Address(i) + config.bufferSize <= Address(config.bufferCount)
      ensures (Address(i) - memoryPool.value) % config.bufferSize == 0
    {
      OffsetIsProduct(i, config.bufferSize);
      OffsetSpaced(i, config.bufferCount, config.bufferSize);
      OffsetAligned(i, config.bufferSize);
    }

    /** Different live buffers do not overlap. */
    lemma BuffersAreDisjoint(i: nat, j: nat)
      requires Valid() && i in live && j in live && i != j
      ensures Address(i) + config.bufferSize <= Address(j) || Address(j) + config.bufferSize <= Address(i)
    {
      if i < j { OffsetSpaced(i, j, config.bufferSize); } else { OffsetSpaced(j, i, config.bufferSize); }
    }
  }

  lemma Spaced(i: nat, j: nat, size: nat)
    requires i < j
    ensures i * size + size <= j * size
  {
    assert (i + 1) * size <= j * size;
  }

  lemma ExactMultiple(i: nat, size: nat)
    requires size > 0
    ensures (i * size) / size == i && (i * size) % size == 0
  {
    var q := (i * size) / size;
    assert i * size == q * size + (i * size) % size;
    assert q < i ==> q * size + size <= i * size by {
      if q < i { Spaced(q, i, size); }
    }
    assert i < q ==> i * size + size <= q * size by {
      if i < q { Spaced(i, q, size); }
    }
  }

  // ----- Histories -----

  /** The simple allocator that the pool refines: a set of live indices, lowest free first. */
  function LowestFree(live: set<nat>, count: nat, from: nat): (r: nat)
    requires from <= count
    ensures from <= r <= count && (r < count ==> r !in live)
    ensures forall j: nat :: from <= j < r ==> j in live
    decreases count - from
  {
    if from == count || from !in live then from else LowestFree(live, count, from + 1)
  }

  datatype Op = AllocateOp | LiberateOp(index: nat)

  function Next(live: set<nat>, count: nat, op: Op): set<nat> {
    match op
    case AllocateOp => var i := LowestFree(live, count, 0); if i < count then live + {i} else live
    case LiberateOp(i) => live - {i}
  }

  /** The answer of the simple allocator: a buffer index, or None. */
  function Answer(live: set<nat>, count: nat, op: Op): Option<nat> {
    match op
    case AllocateOp => var i := LowestFree(live, count, 0); if i < count then Some(i) else None
    case LiberateOp(_) => None
  }

  function LiveAfter(live: set<nat>, count: nat, ops: seq<Op>): set<nat>
    decreases |ops|
  {
    if |ops| == 0 then live else LiveAfter(Next(live, count, ops[0]), count, ops[1..])
  }

  function Answers(live: set<nat>, count: nat, ops: seq<Op>): seq<Option<nat>>
    decreases |ops|
  {
    if |ops| == 0 then [] else [Answer(live, count, ops[0])] + Answers(Next(live, count, ops[0]), count, ops[1..])
  }

  /** Only live buffers are liberated. */
  predicate WellUsed(live: set<nat>, count: nat, ops: seq<Op>)
    decreases |ops|
  {
    |ops| == 0
    || ((ops[0].LiberateOp? ==> ops[0].index in live) && WellUsed(Next(live, count, ops[0]), count, ops[1..]))
  }

  lemma LowestIs(live: set<nat>, count: nat, i: nat)
    requires IsLowestFree(i, live, count)
    ensures LowestFree(live, count, 0) == i
  {
  }

  lemma NoneFree(live: set<nat>, count: nat)
    requires live == Below(count)
    ensures LowestFree(live, count, 0) == count
  {
  }

  /** Indices as addresses. */
  function Locate(answers: seq<Option<nat>>, pool: nat, size: nat): seq<Option<nat>>
    decreases |answers|
  {
    if |answers| == 0 then [] else [LocateOne(answers[0], pool, size)] + Locate(answers[1..], pool, size)
  }

  function LocateOne(answer: Option<nat>, pool: nat, size: nat): Option<nat> {
    match answer
    case None => None
    case Some(i) => Some(pool + Offset(i, size))
  }

  /** What buffer_allocate() promises is what the simple allocator does. */
  lemma AllocateAgrees(live: set<nat>, after: set<nat>, count: nat, i: nat,
                       buffer: Option<nat>, pool: nat, size: nat)
    requires buffer == None ==> live == Below(count) && after == live
    requires buffer.Some? ==> IsLowestFree(i, live, count) && after == live + {i}
    requires buffer.Some? ==> buffer.value == pool + Offset(i, size)
    ensures after == Next(live, count, AllocateOp)
    ensures buffer == LocateOne(Answer(live, count, AllocateOp), pool, size)
  {
    if buffer == None { NoneFree(live, count); } else { LowestIs(live, count, i); }
  }

  /** One operation: the pool and the simple allocator agree. */
  method Serve(pool: BufferAllocator, op: Op) returns (buffer: Option<nat>)
    requires pool.Valid() && pool.config.bufferCount > 0
    requires op.LiberateOp? ==> op.index in pool.live
    modifies pool`live, pool.availability
    ensures pool.Valid() && pool.live == Next(old(pool.live), pool.config.bufferCount, op)
    ensures buffer == LocateOne(Answer(old(pool.live), pool.config.bufferCount, op),
                                pool.memoryPool.value, pool.config.bufferSize)
  {
    match op {
      case AllocateOp =>
        ghost var i;
        ghost var before := pool.live;
        buffer, i := pool.Allocate();
        AllocateAgrees(before, pool.live, pool.config.bufferCount, i, buffer,
                       pool.memoryPool.value, pool.config.bufferSize);
      case LiberateOp(i) =>
        pool.Liberate(pool.Address(i), i);
        buffer := None;
    }
  }

  /** Over every history, the pool answers like the simple allocator, and the same buffers are
      live in the end. */
  method Replay(pool: BufferAllocator, ops: seq<Op>) returns (buffers: seq<Option<nat>>)
    requires pool.Valid() && pool.config.bufferCount > 0
    requires WellUsed(pool.live, pool.config.bufferCount, ops)
    modifies pool`live, pool.availability
    ensures pool.Valid() && pool.live == LiveAfter(old(pool.live), pool.config.bufferCount, ops)
    ensures buffers == Locate(Answers(old(pool.live), pool.config.bufferCount, ops),
                              pool.memoryPool.value, pool.config.bufferSize)
    decreases |ops|
  {
    buffers := [];
    if |ops| > 0 {
      ghost var answers := Answers(pool.live, pool.config.bufferCount, ops);
      ghost var rest := Answers(Next(pool.live, pool.config.bufferCount, ops[0]), pool.config.bufferCount, ops[1..]);
      assert answers[1..] == rest;
      var buffer := Serve(pool, ops[0]);
      buffers := Replay(pool, ops[1..]);
      buffers := [buffer] + buffers;
    }
  }
}
