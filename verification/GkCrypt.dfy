/** The key stream cache: a ring of precomputed key stream that a generator
    thread extends, dropping the mutex while it writes, and that readers copy
    from under the mutex.

    Every method below is one step that is atomic with respect to the mutex or,
    for the two writing steps, one block written without it. Any interleaving
    of generator and readers is some sequence of these calls, so what Valid()
    states holds throughout every interleaving. */
module GkCrypt {
  import opened Arith
  import opened Bytes
  import opened Counter
  import opened KeyStream
  import opened Xor

  const CHUNK: nat := 0x1000

  /** Where the generator thread is: holding the mutex or waiting, or inside
      gen_key_stream with some blocks of the chunk done. */
  datatype Phase = Resting | Counting(done: nat) | Encrypting(done: nat)

  /** Index of the i-th byte of a ring that starts at start. */
  function RingIndex(start: nat, i: nat, size: nat): (j: nat)
    requires start < size && start + i < 2 * size
    ensures j == if start + i < size then start + i else start + i - size
    ensures j < size
  {
    WrapOnce(start + i, size);
    (start + i) % size
  }

  /** The first n bytes of the ring are the key stream from keyPos on. */
  ghost predicate RingTrue(c: Cipher, ring: seq<byte>, start: nat, keyPos: nat, n: nat)
    requires start < |ring| && n <= |ring|
  {
    forall i :: 0 <= i < n ==> ring[RingIndex(start, i, |ring|)] == StreamByte(c, keyPos + i)
  }

  lemma {:induction false} RingSlides(c: Cipher, ring: seq<byte>, start: nat, keyPos: nat, n: nat, d: nat)
    requires start < |ring| && d <= n <= |ring| && RingTrue(c, ring, start, keyPos, n)
    ensures RingTrue(c, ring, RingIndex(start, d, |ring|), keyPos + d, n - d)
  {
    forall i | 0 <= i < n - d
      ensures ring[RingIndex(RingIndex(start, d, |ring|), i, |ring|)] == StreamByte(c, keyPos + d + i)
    {
      assert RingIndex(RingIndex(start, d, |ring|), i, |ring|) == RingIndex(start, d + i, |ring|);
    }
  }

  /** A chunk that does not wrap extends what is true. */
  lemma {:induction false} RingGrows(c: Cipher, ring: seq<byte>, start: nat, keyPos: nat, n: nat, m: nat)
    requires start < |ring| && n + m <= |ring| && n < |ring| && RingTrue(c, ring, start, keyPos, n)
    requires var at := RingIndex(start, n, |ring|); at + m <= |ring| && ring[at..at + m] == Stream(c, keyPos + n, m)
    ensures RingTrue(c, ring, start, keyPos, n + m)
  {
    var at := RingIndex(start, n, |ring|);
    forall i | n <= i < n + m
      ensures ring[RingIndex(start, i, |ring|)] == StreamByte(c, keyPos + i)
    {
      assert RingIndex(start, i, |ring|) == at + (i - n);
      assert ring[at..at + m][i - n] == Stream(c, keyPos + n, m)[i - n];
    }
  }

  /** Writing outside the true part keeps it. */
  lemma {:induction false} RingUntouched(c: Cipher, a: seq<byte>, b: seq<byte>, start: nat, keyPos: nat, n: nat, m: nat)
    requires |a| == |b| && start < |a| && n + m <= |a| && n < |a| && RingTrue(c, a, start, keyPos, n)
    requires var at := RingIndex(start, n, |a|); at + m <= |a| && a[..at] == b[..at] && a[at + m..] == b[at + m..]
    ensures RingTrue(c, b, start, keyPos, n)
  {
    var at := RingIndex(start, n, |a|);
    forall i | 0 <= i < n
      ensures b[RingIndex(start, i, |b|)] == StreamByte(c, keyPos + i)
    {
      var j := RingIndex(start, i, |a|);
      if j < at {
        assert a[..at][j] == b[..at][j];
      } else {
        assert j >= at + m;
        assert a[at + m..][j - (at + m)] == b[at + m..][j - (at + m)];
      }
    }
  }

  /** What is copied out of the ring from index at on, wrapping at most once. */
  function Copied(ring: seq<byte>, at: nat, n: nat): (s: seq<byte>)
    requires at < |ring| && at + n <= 2 * |ring|
    ensures |s| == n && forall i :: 0 <= i < n ==> s[i] == ring[RingIndex(at, i, |ring|)]
  {
    seq<byte>(n, i requires 0 <= i < n => ring[RingIndex(at, i, |ring|)])
  }

  /** Where the cache holds what is requested, that is the key stream. */
  lemma {:induction false} RingRead(c: Cipher, ring: seq<byte>, start: nat, min: nat, populated: nat, keyPos: nat,
      n: nat, at: nat)
    requires start < |ring| && populated <= |ring| && RingTrue(c, ring, start, min, populated)
    requires min <= keyPos && keyPos + n < min + populated
    requires at == RingIndex(start, keyPos - min, |ring|)
    ensures at + n <= 2 * |ring| && Copied(ring, at, n) == Stream(c, keyPos, n)
  {
    var d := keyPos - min;
    forall i | 0 <= i < n
      ensures Copied(ring, at, n)[i] == StreamByte(c, keyPos + i)
    {
      assert ring[RingIndex(start, d + i, |ring|)] == StreamByte(c, min + (d + i));
      assert RingIndex(at, i, |ring|) == RingIndex(start, d + i, |ring|);
    }
  }

  /** Two consecutive pieces of the ring, put together again. */
  lemma {:induction false} Pieces(ring: seq<byte>, at: nat, got: seq<byte>, first: nat)
    requires at < |ring| && at + |got| <= 2 * |ring| && first <= |got| && at + first <= |ring|
    requires first < |got| ==> at + first == |ring|
    requires |got| - first <= |ring| && got[..first] == ring[at..at + first] && got[first..] == ring[..|got| - first]
    ensures got == Copied(ring, at, |got|)
  {
    forall i | 0 <= i < |got|
      ensures got[i] == ring[RingIndex(at, i, |ring|)]
    {
      if i < first {
        assert got[i] == got[..first][i];
      } else {
        assert got[i] == got[first..][i - first];
      }
    }
  }

  /** A chunk never wraps around the end of the ring. */
  lemma {:induction false} ChunkFits(start: nat, populated: nat, size: nat)
    requires start % CHUNK == 0 && populated % CHUNK == 0 && size % CHUNK == 0
    requires start < size && populated + CHUNK <= size
    ensures RingIndex(start, populated, size) + CHUNK <= size
  {
    hide RingIndex;
  }

  lemma SumAligned(min: nat, populated: nat)
    requires min % CHUNK == 0 && populated % CHUNK == 0
    ensures (min + populated) % 16 == 0
  {
    var a, b := min / CHUNK, populated / CHUNK;
    assert min + populated == 16 * (0x100 * (a + b));
  }

  /** A ring before and after one block of a chunk was written. */
  lemma {:induction false} BlockWritten(a: seq<byte>, b: seq<byte>, at: nat, from: nat)
    requires |a| == |b| && at + CHUNK <= |a| && from + 16 <= CHUNK
    requires forall k :: 0 <= k < at + from || at + from + 16 <= k < |a| ==> b[k] == a[k]
    ensures a[..at] == b[..at] && a[at + CHUNK..] == b[at + CHUNK..]
    ensures b[at..at + from] == a[at..at + from] && b[at + from + 16..at + CHUNK] == a[at + from + 16..at + CHUNK]
  {
  }

  lemma {:induction false} RingEmpty(c: Cipher, ring: seq<byte>, start: nat, keyPos: nat)
    requires start < |ring|
    ensures RingTrue(c, ring, start, keyPos, 0)
  {
  }

  // ------------------------------------------------------- the chunk being written

  /** What the generator has written of the chunk for key position keyPos. */
  ghost predicate ChunkSoFar(c: Cipher, chunk: seq<byte>, keyPos: nat, phase: Phase)
    requires |chunk| == CHUNK
  {
    match phase
    case Resting => true
    case Counting(done) =>
      done <= CHUNK / 16 && chunk[..16 * done] == Counters(c, keyPos / 16, done)
    case Encrypting(done) =>
      && done <= CHUNK / 16
      && chunk[..16 * done] == Stream(c, keyPos, 16 * done)
      && chunk[16 * done..] == Counters(c, keyPos / 16, CHUNK / 16)[16 * done..]
  }

  /** The parts of a chunk inside its ring. */
  lemma {:induction false} ChunkParts(ring: seq<byte>, at: nat, done: nat)
    requires at + CHUNK <= |ring| && done < CHUNK / 16
    ensures var chunk := ring[at..at + CHUNK];
            && chunk[..16 * done] == ring[at..at + 16 * done]
            && chunk[..16 * done + 16] == ring[at..at + 16 * done + 16]
            && chunk[16 * done..16 * done + 16] == ring[at + 16 * done..at + 16 * done + 16]
            && chunk[16 * done + 16..] == ring[at + 16 * done + 16..at + CHUNK]
  {
  }

  lemma {:induction false} ChunkBegins(c: Cipher, chunk: seq<byte>, keyPos: nat)
    requires |chunk| == CHUNK
    ensures ChunkSoFar(c, chunk, keyPos, Counting(0))
  {
    CountersNext(c, keyPos / 16, 0);
  }

  lemma {:induction false} ChunkCounted(c: Cipher, a: seq<byte>, b: seq<byte>, keyPos: nat, done: nat)
    requires |a| == |b| == CHUNK && done < CHUNK / 16 && ChunkSoFar(c, a, keyPos, Counting(done))
    requires a[..16 * done] == b[..16 * done]
    requires b[16 * done..16 * done + 16] == CounterBlock(c.iv, CounterArg(keyPos / 16 + done))
    ensures ChunkSoFar(c, b, keyPos, Counting(done + 1))
  {
    hide CounterBlock, CounterArg, Counters;
    CountersNext(c, keyPos / 16, done);
    assert b[..16 * done + 16] == b[..16 * done] + b[16 * done..16 * done + 16];
  }

  lemma {:induction false} ChunkTurns(c: Cipher, chunk: seq<byte>, keyPos: nat)
    requires |chunk| == CHUNK && ChunkSoFar(c, chunk, keyPos, Counting(CHUNK / 16))
    ensures ChunkSoFar(c, chunk, keyPos, Encrypting(0))
  {
    hide Counters;
    assert chunk[..CHUNK] == chunk && chunk[0..] == chunk;
    StreamNothing(c, keyPos);
  }

  lemma {:induction false} ChunkEncrypted(c: Cipher, a: seq<byte>, b: seq<byte>, keyPos: nat, done: nat)
    requires |a| == |b| == CHUNK && done < CHUNK / 16 && ChunkSoFar(c, a, keyPos, Encrypting(done))
    requires b[..16 * done + 16] == Stream(c, keyPos, 16 * done + 16)
    requires b[16 * done + 16..] == a[16 * done + 16..]
    ensures ChunkSoFar(c, b, keyPos, Encrypting(done + 1))
  {
    hide Counters, Stream;
    var counters := Counters(c, keyPos / 16, CHUNK / 16);
    assert a[16 * done..][16..] == a[16 * done + 16..];
    assert counters[16 * done..][16..] == counters[16 * done + 16..];
  }

  /** After one more counter block, nothing else of the ring having changed. */
  lemma {:induction false} CounterWritten(c: Cipher, before: seq<byte>, after: seq<byte>, at: nat, keyPos: nat,
      done: nat)
    requires |before| == |after| && at + CHUNK <= |before| && done < CHUNK / 16
    requires ChunkSoFar(c, before[at..at + CHUNK], keyPos, Counting(done))
    requires after[at..at + 16 * done] == before[at..at + 16 * done]
    requires after[at + 16 * done..at + 16 * done + 16] == CounterBlock(c.iv, CounterArg(keyPos / 16 + done))
    ensures ChunkSoFar(c, after[at..at + CHUNK], keyPos, Counting(done + 1))
  {
    hide ChunkSoFar, CounterBlock, CounterArg;
    ChunkParts(before, at, done);
    ChunkParts(after, at, done);
    ChunkCounted(c, before[at..at + CHUNK], after[at..at + CHUNK], keyPos, done);
  }

  /** The next block to encrypt is its counter block. */
  lemma {:induction false} CipherReady(c: Cipher, ring: seq<byte>, at: nat, keyPos: nat, done: nat)
    requires at + CHUNK <= |ring| && done < CHUNK / 16
    requires ChunkSoFar(c, ring[at..at + CHUNK], keyPos, Encrypting(done))
    ensures ring[at..at + 16 * done] == Stream(c, keyPos, 16 * done)
    ensures ring[at + 16 * done..at + 16 * done + 16] == Counters(c, keyPos / 16, CHUNK / 16)[16 * done..16 * done + 16]
  {
    hide Counters, Stream;
    ChunkParts(ring, at, done);
    var a, b, from := ring[at..at + CHUNK], Counters(c, keyPos / 16, CHUNK / 16), 16 * done;
    assert a[from..][..16] == a[from..from + 16] && b[from..][..16] == b[from..from + 16];
  }

  /** After one more block of AES, nothing else of the ring having changed. */
  lemma {:induction false} CipherWritten(c: Cipher, before: seq<byte>, after: seq<byte>, at: nat, keyPos: nat,
      done: nat)
    requires |before| == |after| && at + CHUNK <= |before| && done < CHUNK / 16
    requires ChunkSoFar(c, before[at..at + CHUNK], keyPos, Encrypting(done))
    requires after[at..at + 16 * done + 16] == Stream(c, keyPos, 16 * done + 16)
    requires after[at + 16 * done + 16..at + CHUNK] == before[at + 16 * done + 16..at + CHUNK]
    ensures ChunkSoFar(c, after[at..at + CHUNK], keyPos, Encrypting(done + 1))
  {
    hide ChunkSoFar, Stream;
    ChunkParts(before, at, done);
    ChunkParts(after, at, done);
    ChunkEncrypted(c, before[at..at + CHUNK], after[at..at + CHUNK], keyPos, done);
  }

  // ------------------------------------------------------- how far it runs ahead

  datatype Progress = Progress(min: nat, populated: nat)

  /** Adding key positions in 64 bits. */
  function Sum(a: nat, b: nat): nat {
    (a + b) % U64
  }

  predicate ShouldGenerate(p: Progress, last: nat) {
    last > Sum(p.min, p.populated / 2)
  }

  /** key_buf_mutex_pred, without the stop flag. */
  predicate Wakes(p: Progress, size: nat, last: nat) {
    p.populated < size || ShouldGenerate(p, last)
  }

  /** The last requested position is beyond the cache. */
  predicate Skips(p: Progress, last: nat) {
    last > Sum(p.min, p.populated)
  }

  /** What one round of the generator loop does to the bookkeeping. */
  function NextChunk(p: Progress, size: nat, last: nat): Progress {
    if Skips(p, last) then Progress(last / CHUNK * CHUNK, CHUNK)
    else if p.populated == size then Progress(Sum(p.min, CHUNK), p.populated)
    else Progress(p.min, p.populated + CHUNK)
  }

  function Chunks(p: Progress, size: nat, last: nat, n: nat): Progress
    decreases n
  {
    if n == 0 then p else Chunks(NextChunk(p, size, last), size, last, n - 1)
  }

  /** No object in memory is larger than half the address space. */
  predicate Aligned(p: Progress, size: nat) {
    && p.min % CHUNK == 0 && p.populated % CHUNK == 0 && p.populated <= size
    && size % CHUNK == 0 && 0 < size < U64 / 2
  }

  /** The states a cache gets into: it never runs past 2^64, and begins no later
      than the last requested position, or half a chunk later if it is a single
      chunk. */
  predicate Reached(p: Progress, size: nat, last: nat) {
    && last < U64 && p.min < U64 && p.min + p.populated <= U64
    && p.min <= last + (if size == CHUNK then CHUNK / 2 else 0)
  }

  /** Below 2^64 the 64-bit sums are the true ones; a cache that ends exactly
      there looks as if it ended at 0, and is left. */
  lemma SumsExact(p: Progress, size: nat, last: nat)
    requires Aligned(p, size) && Reached(p, size, last)
    ensures Sum(p.min, p.populated / 2) == p.min + p.populated / 2
    ensures Sum(p.min, p.populated) == if p.min + p.populated == U64 then 0 else p.min + p.populated
    ensures p.min + p.populated == U64 ==> Skips(p, last)
  {
  }

  /** A cache that ends below 2^64 is filled until it is full, and then whenever the
      last requested position is in its second half: the next 0x1000 bytes are
      made, and a full one forgets its first 0x1000. Only if that position lies
      beyond the end is everything forgotten, and the chunk it lies in made. */
  lemma {:induction false} ChunkExactly(p: Progress, size: nat, last: nat)
    requires Aligned(p, size) && Reached(p, size, last) && p.min + p.populated < U64
    ensures Wakes(p, size, last) <==> p.populated < size || last > p.min + p.populated / 2
    ensures var q := NextChunk(p, size, last);
            if last > p.min + p.populated then q.min % 0x1000 == 0 && q.min <= last < q.min + 0x1000 && q.populated == 0x1000
            else if p.populated < size then q == Progress(p.min, p.populated + 0x1000)
            else q == Progress(p.min + 0x1000, size)
  {
    SumsExact(p, size, last);
    if last > p.min + p.populated {
      ChunkOf(last);
    } else {
      NextAligned(p, size);
    }
  }

  lemma {:induction false} ReachedNext(p: Progress, size: nat, last: nat)
    requires Aligned(p, size) && Reached(p, size, last) && Wakes(p, size, last)
    ensures var q := NextChunk(p, size, last); Aligned(q, size) && Reached(q, size, last)
  {
    SumsExact(p, size, last);
    if Skips(p, last) {
      ChunkOf(last);
    } else {
      NextAligned(p, size);
    }
  }

  lemma ChunkOf(last: nat)
    requires last < U64
    ensures var m := last / CHUNK * CHUNK; m % CHUNK == 0 && m <= last < m + CHUNK <= U64
  {
  }

  lemma NextAligned(p: Progress, size: nat)
    requires Aligned(p, size) && p.min + p.populated < U64
    ensures p.min + p.populated + CHUNK <= U64 && (p.min + CHUNK) % CHUNK == 0 && (p.populated + CHUNK) % CHUNK == 0
    ensures p.populated < size ==> p.populated + CHUNK <= size
    ensures size > CHUNK ==> CHUNK <= size / 2
  {
  }

  /** What the cache looks like while that chunk is being made. */
  lemma {:induction false} BeginsReached(p: Progress, size: nat, last: nat)
    requires Aligned(p, size) && Reached(p, size, last) && Wakes(p, size, last)
    ensures var q := NextChunk(p, size, last);
            && q.populated >= CHUNK && q.min + q.populated <= U64 && (!Skips(p, last) ==> p.min + p.populated < U64)
            && (!Skips(p, last) && p.populated == size ==> Sum(p.min, CHUNK) == p.min + CHUNK)
            && Aligned(Progress(q.min, q.populated - CHUNK), size) && Reached(Progress(q.min, q.populated - CHUNK), size, last)
  {
    ReachedNext(p, size, last);
    SumsExact(p, size, last);
  }

  /** Where the cache begins once the last requested position is in its first
      half. */
  function Goal(min: nat, size: nat, last: nat): nat {
    if last <= min + size / 2 then min else min + (last - min - size / 2 + CHUNK - 1) / CHUNK * CHUNK
  }

  lemma GoalMeans(min: nat, size: nat, last: nat)
    requires min % CHUNK == 0
    ensures var g := Goal(min, size, last);
            && g % CHUNK == 0 && min <= g && last <= g + size / 2
            && (g == min || (min + CHUNK <= g && g - CHUNK + size / 2 < last))
  {
  }

  /** Where the cache begins after skipping ahead, if it does. */
  function Base(p: Progress, last: nat): nat {
    if Skips(p, last) then last / CHUNK * CHUNK else p.min
  }

  /** The whole ring fits below 2^64 where the generator is heading. */
  predicate HasRoom(p: Progress, size: nat, last: nat) {
    Goal(Base(p, last), size, last) + size <= U64
  }

  /** How often the cache slides until then. */
  function Slides(min: nat, size: nat, last: nat): nat {
    (Goal(min, size, last) - min) / CHUNK
  }

  lemma SlidesMean(min: nat, size: nat, last: nat)
    requires min % CHUNK == 0 && size % CHUNK == 0 && 0 < size
    ensures last <= min + size / 2 ==> Slides(min, size, last) == 0
    ensures last > min + size / 2 ==> Slides(min, size, last) == Slides(min + CHUNK, size, last) + 1
    ensures last < min + CHUNK ==> Slides(min, size, last) <= 1
  {
  }

  lemma SlidesFew(p: Progress, size: nat, last: nat)
    requires Aligned(p, size) && last <= p.min + p.populated
    ensures Slides(p.min, size, last) <= p.populated / CHUNK
    ensures (size - p.populated) / CHUNK == size / CHUNK - p.populated / CHUNK
  {
  }

  lemma FirstSlides(m: nat, size: nat, last: nat)
    requires m % CHUNK == 0 && size % CHUNK == 0 && 0 < size && last < m + CHUNK
    ensures Ahead(Progress(m, CHUNK), size, last) <= size / CHUNK
  {
    SlidesMean(m, size, last);
  }

  lemma RemainingFew(p: Progress, size: nat, last: nat)
    requires Aligned(p, size) && Reached(p, size, last)
    ensures Remaining(p, size, last) <= size / CHUNK + 1
  {
    SumsExact(p, size, last);
    if !Skips(p, last) {
      SlidesFew(p, size, last);
    }
    hide Slides, Sum;
  }

  /** Chunks that fill the ring, and chunks that make it slide. */
  function Ahead(p: Progress, size: nat, last: nat): nat
    requires p.populated <= size
  {
    (size - p.populated) / CHUNK + Slides(p.min, size, last)
  }

  lemma AheadShrinks(p: Progress, size: nat, last: nat)
    requires Aligned(p, size)
    ensures p.populated < size ==> Ahead(Progress(p.min, p.populated + CHUNK), size, last) == Ahead(p, size, last) - 1
    ensures p.populated == size && last > p.min + size / 2 ==>
              Ahead(Progress(p.min + CHUNK, size), size, last) == Ahead(p, size, last) - 1
  {
    SlidesMean(p.min, size, last);
    hide Slides;
  }

  /** An upper bound on the chunks still to be made when no key stream is
      requested in between. */
  function Remaining(p: Progress, size: nat, last: nat): nat
    requires Aligned(p, size)
  {
    if !Wakes(p, size, last) then
      0
    else if Skips(p, last) then
      size / CHUNK + 1
    else
      Ahead(p, size, last)
  }

  /** With room, the cache never reaches 2^64 while there is something to do. */
  lemma {:induction false} RoomBelow(p: Progress, size: nat, last: nat)
    requires Aligned(p, size) && Reached(p, size, last) && Wakes(p, size, last) && HasRoom(p, size, last)
    ensures p.min + p.populated < U64
  {
    hide Goal, Sum;
    SumsExact(p, size, last);
    if p.min + p.populated == U64 {
      var m := last / CHUNK * CHUNK;
      ChunkOf(last);
      GoalMeans(m, size, last);
      assert false;
    }
  }

  lemma NotBefore(min: nat, last: nat)
    requires min % CHUNK == 0 && min <= last
    ensures min <= last / CHUNK * CHUNK
  {
  }

  /** What the goal is after one more chunk. */
  lemma {:induction false} GoalStays(min: nat, size: nat, last: nat)
    requires min % CHUNK == 0 && last > min + size / 2
    ensures Goal(min + CHUNK, size, last) == Goal(min, size, last)
  {
  }

  /** Room is neither gained nor lost, and without it the generator goes on. */
  predicate SameOutlook(p: Progress, q: Progress, size: nat, last: nat) {
    if HasRoom(p, size, last) then Wakes(q, size, last) ==> HasRoom(q, size, last)
    else Wakes(q, size, last) && !HasRoom(q, size, last)
  }

  /** That is so when the cache is left behind, */
  lemma {:induction false} RoomAfterSkip(p: Progress, size: nat, last: nat)
    requires Aligned(p, size) && Reached(p, size, last) && Wakes(p, size, last) && Skips(p, last)
    ensures SameOutlook(p, NextChunk(p, size, last), size, last)
  {
    var m := last / CHUNK * CHUNK;
    ReachedNext(p, size, last);
    SumsExact(Progress(m, CHUNK), size, last);
    assert Base(Progress(m, CHUNK), last) == m;
    GoalMeans(m, size, last);
    hide Goal, Sum;
  }

  /** when it slides, */
  lemma {:induction false} RoomAfterSlide(p: Progress, size: nat, last: nat)
    requires Aligned(p, size) && Reached(p, size, last) && Wakes(p, size, last) && !Skips(p, last) && p.populated == size
    ensures SameOutlook(p, NextChunk(p, size, last), size, last)
  {
    SumsExact(p, size, last);
    ReachedNext(p, size, last);
    hide Goal;
    var q := NextChunk(p, size, last);
    assert q == Progress(p.min + CHUNK, size);
    SumsExact(q, size, last);
    GoalStays(p.min, size, last);
    GoalMeans(q.min, size, last);
    if q.min + size == U64 {
      LastSlide(q.min, size, last);
    }
  }

  /** A cache that ends at 2^64 has no room exactly if it is still to slide. */
  lemma LastSlide(min: nat, size: nat, last: nat)
    requires min % CHUNK == 0 && size % CHUNK == 0 && 0 < size && min + size == U64
    requires min <= last + (if size == CHUNK then CHUNK / 2 else 0) && last < U64
    ensures Goal(last / CHUNK * CHUNK, size, last) + size <= U64 ==> last <= min + size / 2
    ensures Goal(min, size, last) + size <= U64 <==> last <= min + size / 2
  {
  }

  /** and when it grows. */
  lemma {:induction false} RoomAfterGrowth(p: Progress, size: nat, last: nat)
    requires Aligned(p, size) && Reached(p, size, last) && !Skips(p, last) && p.populated < size
    ensures SameOutlook(p, NextChunk(p, size, last), size, last)
  {
    hide Goal, Sum;
    SumsExact(p, size, last);
    ReachedNext(p, size, last);
    var q := NextChunk(p, size, last);
    assert q == Progress(p.min, p.populated + CHUNK);
    SumsExact(q, size, last);
    NextAligned(p, size);
    GoalMeans(p.min, size, last);
    if q.min + q.populated == U64 {
      ChunkOf(last);
      if p.min <= last {
        NotBefore(p.min, last);
      }
      GoalMeans(last / CHUNK * CHUNK, size, last);
    }
  }

  lemma {:induction false} RoomStays(p: Progress, size: nat, last: nat)
    requires Aligned(p, size) && Reached(p, size, last) && Wakes(p, size, last)
    ensures SameOutlook(p, NextChunk(p, size, last), size, last)
  {
    hide NextChunk, Wakes, HasRoom, Reached, SameOutlook;
    if Skips(p, last) {
      RoomAfterSkip(p, size, last);
    } else if p.populated == size {
      RoomAfterSlide(p, size, last);
    } else {
      RoomAfterGrowth(p, size, last);
    }
  }

  /** While there is room, every chunk brings the generator closer to waiting. */
  lemma {:induction false} RemainingShrinks(p: Progress, size: nat, last: nat)
    requires Aligned(p, size) && Reached(p, size, last) && Wakes(p, size, last) && HasRoom(p, size, last)
    ensures var q := NextChunk(p, size, last);
            && Aligned(q, size) && Reached(q, size, last)
            && Remaining(q, size, last) < Remaining(p, size, last) <= size / CHUNK + 1
  {
    hide Ahead, HasRoom, Reached, Sum;
    ReachedNext(p, size, last);
    BeginsReached(p, size, last);
    RoomBelow(p, size, last);
    RoomStays(p, size, last);
    RemainingFew(p, size, last);
    var q := NextChunk(p, size, last);
    SumsExact(p, size, last);
    SumsExact(q, size, last);
    if Wakes(q, size, last) {
      RoomBelow(q, size, last);
    }
    if Skips(p, last) {
      FirstSlides(last / CHUNK * CHUNK, size, last);
    } else {
      AheadShrinks(p, size, last);
    }
  }

  /** With the last requested position fixed and room for the ring, the generator
      makes at most one chunk more than the ring holds before it waits again. */
  lemma {:induction false} GeneratorRests(p: Progress, size: nat, last: nat) returns (n: nat)
    requires Aligned(p, size) && Reached(p, size, last) && (Wakes(p, size, last) ==> HasRoom(p, size, last))
    ensures n <= Remaining(p, size, last) <= size / CHUNK + 1
    ensures !Wakes(Chunks(p, size, last, n), size, last)
    decreases Remaining(p, size, last)
  {
    hide Wakes, HasRoom, NextChunk, Aligned, Reached, Remaining;
    RemainingFew(p, size, last);
    if Wakes(p, size, last) {
      RemainingShrinks(p, size, last);
      RoomStays(p, size, last);
      n := GeneratorRests(NextChunk(p, size, last), size, last);
      n := n + 1;
    } else {
      n := 0;
    }
  }

  /** Without room it never waits again. */
  lemma {:induction false} GeneratorSpins(p: Progress, size: nat, last: nat, n: nat)
    requires Aligned(p, size) && Reached(p, size, last) && Wakes(p, size, last) && !HasRoom(p, size, last)
    ensures Wakes(Chunks(p, size, last, n), size, last)
    decreases n
  {
    hide Wakes, HasRoom, NextChunk, Aligned, Reached;
    if n > 0 {
      ReachedNext(p, size, last);
      RoomStays(p, size, last);
      GeneratorSpins(NextChunk(p, size, last), size, last, n - 1);
    }
  }

  /** So it comes to rest exactly if it already does or there is room. */
  lemma {:induction false} GeneratorRestsExactly(p: Progress, size: nat, last: nat)
    requires Aligned(p, size) && Reached(p, size, last)
    ensures (exists n: nat :: !Wakes(Chunks(p, size, last, n), size, last)) <==> !Wakes(p, size, last) || HasRoom(p, size, last)
  {
    hide Wakes, HasRoom, NextChunk, Aligned, Reached, Chunks;
    if !Wakes(p, size, last) || HasRoom(p, size, last) {
      var n := GeneratorRests(p, size, last);
    } else {
      forall n: nat
        ensures Wakes(Chunks(p, size, last, n), size, last)
      {
        GeneratorSpins(p, size, last, n);
      }
    }
  }

  /** After skipping ahead: the ring behind the chunk of the last requested
      position must end below 2^64; if it ends exactly there, a single chunk is
      enough only for positions in its first half. */
  lemma RoomAfterSkipping(p: Progress, size: nat, last: nat)
    requires Aligned(p, size) && last < U64 && Skips(p, last)
    ensures var m := last / CHUNK * CHUNK;
            HasRoom(p, size, last) <==> m + size < U64 || (m + size == U64 && (size > CHUNK || last <= m + CHUNK / 2))
  {
  }

  /** Whatever the cache holds, there is room as long as the last requested
      position is at least a ring below 2^64. */
  lemma {:induction false} RoomEarly(p: Progress, size: nat, last: nat)
    requires Aligned(p, size) && Reached(p, size, last) && last + size <= U64
    ensures HasRoom(p, size, last)
  {
    GoalMeans(Base(p, last), size, last);
    hide Goal, Sum;
    var m := last / CHUNK * CHUNK;
    assert m <= last < m + CHUNK;
  }

  /** One request that ends 16 bytes below 2^64, on a fresh ring of 32 chunks:
      from the first chunk on the generator writes the last one over and over. */
  lemma {:induction false} GeneratorSpinsAtTheEnd(n: nat)
    ensures var p, size, last := Progress(0, 0), 0x20 * CHUNK, U64 - 16;
            && Chunks(p, size, last, n + 1) == Progress(U64 - CHUNK, CHUNK)
            && Wakes(Chunks(p, size, last, n + 1), size, last)
  {
    var size, last, end := 0x20 * CHUNK, U64 - 16, Progress(U64 - CHUNK, CHUNK);
    assert NextChunk(Progress(0, 0), size, last) == end == NextChunk(end, size, last);
    StaysThere(end, size, last, n);
  }

  lemma {:induction false} StaysThere(p: Progress, size: nat, last: nat, n: nat)
    requires NextChunk(p, size, last) == p
    ensures Chunks(p, size, last, n) == p
    decreases n
  {
    if n > 0 {
      StaysThere(p, size, last, n - 1);
    }
  }

  // ---------------------------------------------------------------- what a reader gets

  /** The test that sends a request to the cache. */
  predicate Cached(p: Progress, keyPos: nat, n: nat) {
    !(keyPos < p.min || Sum(keyPos, n) >= Sum(p.min, p.populated))
  }

  /** The cache holds what is requested. */
  predicate Held(p: Progress, keyPos: nat, n: nat) {
    p.min <= keyPos && keyPos + n < p.min + p.populated < U64
  }

  /** A request that reaches 2^64 and is taken for one that ends early on. */
  predicate Misread(p: Progress, keyPos: nat, n: nat) {
    p.min <= keyPos && U64 <= keyPos + n < U64 + p.min + p.populated < 2 * U64
  }

  /** Requests go to the cache exactly if it holds them or they are misread. */
  lemma CachedExactly(p: Progress, size: nat, last: nat, keyPos: nat, n: nat)
    requires Aligned(p, size) && Reached(p, size, last) && keyPos < U64 && n < U64
    ensures Cached(p, keyPos, n) <==> Held(p, keyPos, n) || Misread(p, keyPos, n)
    ensures Held(p, keyPos, n) ==> !Misread(p, keyPos, n)
  {
  }

  /** A request for the blocks of n bytes is answered right, whatever the cache
      holds, exactly if the bytes end at least a block below 2^64. */
  lemma {:induction false} AnsweredRightExactly(keyPos: nat, n: nat)
    requires keyPos < U64 && n < U64 / 4
    ensures (forall p: Progress, size: nat, last: nat ::
               Aligned(p, size) && Reached(p, size, last) ==> !Misread(p, BlockStart(keyPos), BlocksSize(keyPos, n)))
            <==> keyPos + n <= U64 - BLOCK_SIZE
  {
    BlocksEnd(keyPos, n);
    var end := BlockStart(keyPos) + BlocksSize(keyPos, n);
    hide BlockStart, BlocksSize;
    if end >= U64 {
      var k := (end - U64) / CHUNK + 1;
      var p := Progress(0, k * CHUNK);
      assert end - U64 < p.populated <= end - U64 + CHUNK < U64 / 2;
      assert Aligned(p, p.populated) && Reached(p, p.populated, 0);
    }
  }

  lemma BlocksEnd(keyPos: nat, n: nat)
    ensures BlockStart(keyPos) + BlocksSize(keyPos, n) >= U64 <==> keyPos + n > U64 - BLOCK_SIZE
  {
  }

  /** Where in the ring a request is looked up, in 64 bits. */
  function Offset(p: Progress, start: nat, size: nat, keyPos: nat): (at: nat)
    requires p.min <= keyPos && size > 0
    ensures at < size
  {
    Sum(keyPos - p.min, start) % size
  }

  lemma {:induction false} OffsetHeld(p: Progress, start: nat, size: nat, keyPos: nat, n: nat)
    requires Aligned(p, size) && start < size && Held(p, keyPos, n)
    ensures Offset(p, start, size, keyPos) == RingIndex(start, keyPos - p.min, size)
  {
    hide Sum;
    SmallSum(keyPos - p.min, start);
    WrapOnce(start + (keyPos - p.min), size);
  }

  lemma SmallSum(a: nat, b: nat)
    requires a + b < U64
    ensures Sum(a, b) == a + b
  {
  }

  /** How far the i-th byte of the ring is from its beginning. */
  function Distance(start: nat, j: nat, size: nat): (i: nat)
    requires start < size && j < size
    ensures i < size && RingIndex(start, i, size) == j
  {
    if j >= start then j - start else j - start + size
  }

  /** What a misread request gets from a full ring, if it lies one ring further on:
      the key stream one ring earlier. */
  lemma {:induction false} MisreadIsEarlier(c: Cipher, ring: seq<byte>, start: nat, min: nat, keyPos: nat, n: nat)
    requires 0 < |ring| < U64 / 4 && start < |ring| && RingTrue(c, ring, start, min, |ring|)
    requires min + |ring| <= keyPos && keyPos + n <= min + 2 * |ring|
    ensures var at := Offset(Progress(min, |ring|), start, |ring|, keyPos);
            at + n <= 2 * |ring| && Copied(ring, at, n) == Stream(c, keyPos - |ring|, n)
  {
    var size, d := |ring|, keyPos - min - |ring|;
    OffsetBeyond(start, d, size);
    var at := Offset(Progress(min, size), start, size, keyPos);
    if n > 0 {
      assert at == RingIndex(start, d, size);
    }
    forall i | 0 <= i < n
      ensures Copied(ring, at, n)[i] == StreamByte(c, keyPos - size + i)
    {
      assert RingIndex(at, i, size) == RingIndex(start, d + i, size);
      assert ring[RingIndex(start, d + i, size)] == StreamByte(c, min + (d + i));
    }
  }

  lemma {:induction false} OffsetBeyond(start: nat, d: nat, size: nat)
    requires start < size && d <= size < U64 / 4
    ensures Sum(d + size, start) % size == (start + d) % size
  {
    var q, r := (start + d) / size, (start + d) % size;
    assert start + d == q * size + r;
    ModUnique(size, d + size + start, r, q + 1);
  }

  // ---------------------------------------------------------------- encryption

  /** What decrypt (and encrypt) makes of data at a key position. */
  function Crypt(c: Cipher, keyPos: nat, data: seq<byte>): (r: seq<byte>)
    ensures |r| == |data|
  {
    XorSeq(data, Stream(c, keyPos, |data|))
  }

  /** r is data with every bit flipped where the key stream from keyPos on has a
      one. */
  ghost predicate Encrypts(c: Cipher, keyPos: nat, data: seq<byte>, r: seq<byte>) {
    |r| == |data| && forall j :: 0 <= j < |data| ==> IsXor(r[j], data[j], StreamByte(c, keyPos + j))
  }

  lemma {:induction false} CryptExactly(c: Cipher, keyPos: nat, data: seq<byte>, r: seq<byte>)
    ensures r == Crypt(c, keyPos, data) <==> Encrypts(c, keyPos, data, r)
  {
    hide IsXor, StreamByte, XorByte;
    var x := Crypt(c, keyPos, data);
    forall j | 0 <= j < |data| && |r| == |data|
      ensures r[j] == x[j] <==> IsXor(r[j], data[j], StreamByte(c, keyPos + j))
    {
      XorExactly(r[j], data[j], StreamByte(c, keyPos + j));
    }
  }

  lemma {:induction false} CryptTwice(c: Cipher, keyPos: nat, data: seq<byte>)
    ensures Crypt(c, keyPos, Crypt(c, keyPos, data)) == data
  {
    forall i | 0 <= i < |data|
      ensures Crypt(c, keyPos, Crypt(c, keyPos, data))[i] == data[i]
    {
      XorTwice(data[i], StreamByte(c, keyPos + i));
    }
  }

  /** Where a buffer is cut makes no difference, block boundary or not. */
  lemma {:induction false} CryptSplits(c: Cipher, keyPos: nat, a: seq<byte>, b: seq<byte>)
    ensures Crypt(c, keyPos, a + b) == Crypt(c, keyPos, a) + Crypt(c, keyPos + |a|, b)
  {
    var whole, parts := Crypt(c, keyPos, a + b), Crypt(c, keyPos, a) + Crypt(c, keyPos + |a|, b);
    forall i | 0 <= i < |a| + |b|
      ensures whole[i] == parts[i]
    {
      assert i >= |a| ==> keyPos + |a| + (i - |a|) == keyPos + i;
    }
  }

  // ---------------------------------------------------------------- the cache

  class GkCrypt {
    const cipher: Cipher
    /** Length 0 stands for no key_buf. */
    const keyBuf: array<byte>
    var populated: nat
    var keyPosMin: nat
    var startOffset: nat
    var lastKeyPos: nat
    var phase: Phase

    ghost predicate Valid()
      reads this, keyBuf
    {
      && keyBuf.Length % CHUNK == 0
      && if keyBuf.Length == 0 then phase == Resting else Consistent()
    }

    ghost predicate Consistent()
      requires keyBuf.Length > 0
      reads this, keyBuf
    {
      && Aligned(Bookkeeping(), keyBuf.Length) && Reached(Bookkeeping(), keyBuf.Length, lastKeyPos)
      && startOffset % CHUNK == 0 && startOffset < keyBuf.Length
      && RingTrue(cipher, keyBuf[..], startOffset, keyPosMin, populated)
      && (phase != Resting ==>
            && populated + CHUNK <= keyBuf.Length && keyPosMin + populated + CHUNK <= U64
            && ChunkSoFar(cipher, Chunk(), keyPosMin + populated, phase))
    }

    ghost function Bookkeeping(): Progress
      reads this`keyPosMin, this`populated
    {
      Progress(keyPosMin, populated)
    }

    /** The part of the ring after the readable one. */
    ghost function Chunk(): (chunk: seq<byte>)
      requires startOffset < keyBuf.Length && populated + CHUNK <= keyBuf.Length
      requires startOffset % CHUNK == 0 && populated % CHUNK == 0 && keyBuf.Length % CHUNK == 0
      reads this`startOffset, this`populated, keyBuf
      ensures |chunk| == CHUNK
    {
      var at := RingIndex(startOffset, populated, keyBuf.Length);
      keyBuf[at..at + CHUNK]
    }

    constructor (cipher: Cipher, keyBufChunks: nat)
      requires keyBufChunks * CHUNK < U64 / 2
      ensures Valid() && fresh(keyBuf)
      ensures this.cipher == cipher && keyBuf.Length == keyBufChunks * CHUNK
      ensures lastKeyPos == 0 && phase == Resting && Bookkeeping() == Progress(0, 0)
    {
      this.cipher := cipher;
      keyBuf := new byte[keyBufChunks * CHUNK];
      populated, keyPosMin, startOffset, lastKeyPos := 0, 0, 0, 0;
      phase := Resting;
    }

    /** Copies bytes out of the ring, in two pieces if they wrap. */
    method CopyOut(at: nat, buf: array<byte>)
      requires buf != keyBuf && at < keyBuf.Length && at + buf.Length <= 2 * keyBuf.Length
      modifies buf
      ensures buf[..] == Copied(keyBuf[..], at, buf.Length)
    {
      hide RingIndex, Copied;
      var n := buf.Length;
      var end := at + n;
      if end > keyBuf.Length {
        var excess := end - keyBuf.Length;
        Memcpy(buf, 0, keyBuf[at..at + (n - excess)]);
        ghost var first := buf[..n - excess];
        Memcpy(buf, n - excess, keyBuf[..excess]);
        assert buf[..n - excess] == first == keyBuf[at..at + (n - excess)];
        Pieces(keyBuf[..], at, buf[..], n - excess);
      } else {
        Memcpy(buf, 0, keyBuf[at..at + n]);
        Pieces(keyBuf[..], at, buf[..], n);
      }
    }

    /** The request is not answered out of the wrong part of the cache. */
    ghost predicate ReadRight(keyPos: nat, n: nat)
      reads this`keyPosMin, this`populated
    {
      keyBuf.Length == 0 || !Misread(Bookkeeping(), keyPos, n)
    }

    /** A misread request stays inside the ring; one that does not reads past it. */
    ghost predicate InRing(keyPos: nat, n: nat)
      reads this`keyPosMin, this`populated, this`startOffset
    {
      ReadRight(keyPos, n) || Offset(Bookkeeping(), startOffset, keyBuf.Length, keyPos) + n <= 2 * keyBuf.Length
    }

    /** The key stream a reader is given. */
    ghost function Given(keyPos: nat, n: nat): (s: seq<byte>)
      requires InRing(keyPos, n)
      reads this, keyBuf
      ensures |s| == n
    {
      if ReadRight(keyPos, n) then Stream(cipher, keyPos, n)
      else Copied(keyBuf[..], Offset(Bookkeeping(), startOffset, keyBuf.Length, keyPos), n)
    }

    /** chiaki_gkcrypt_get_key_stream: readers may call it in any phase. */
    method GetKeyStream(keyPos: nat, buf: array<byte>)
      requires Valid() && buf != keyBuf && keyPos < U64 && buf.Length < U64 / 2 && InRing(keyPos, buf.Length)
      requires keyPos % BLOCK_SIZE == 0 && buf.Length % BLOCK_SIZE == 0
      modifies this`lastKeyPos, buf
      ensures Valid()
      ensures buf[..] == old(Given(keyPos, buf.Length))
      ensures lastKeyPos == if keyBuf.Length > 0 && Sum(keyPos, buf.Length) > old(lastKeyPos)
                            then Sum(keyPos, buf.Length) else old(lastKeyPos)
    {
      hide RingTrue, Stream, StreamByte, Counters, Copied, Offset;
      var n := buf.Length;
      if keyBuf.Length == 0 {
        GenKeyStream(cipher, keyPos, buf, 0, n);
        assert buf[..] == buf[0..n];
        return;
      }
      CachedExactly(Bookkeeping(), keyBuf.Length, lastKeyPos, keyPos, n);
      if Sum(keyPos, n) > lastKeyPos {
        lastKeyPos := Sum(keyPos, n);
      }
      if keyPos < keyPosMin || Sum(keyPos, n) >= Sum(keyPosMin, populated) {
        GenKeyStream(cipher, keyPos, buf, 0, n);
        assert buf[..] == buf[0..n];
      } else {
        var at := Offset(Progress(keyPosMin, populated), startOffset, keyBuf.Length, keyPos);
        HeldRead(keyPos, n);
        CopyOut(at, buf);
      }
    }

    /** What the cache holds is the key stream. */
    lemma {:induction false} HeldRead(keyPos: nat, n: nat)
      requires Valid() && keyBuf.Length > 0
      ensures Held(Bookkeeping(), keyPos, n) ==>
                var at := Offset(Bookkeeping(), startOffset, keyBuf.Length, keyPos);
                at + n <= 2 * keyBuf.Length && Copied(keyBuf[..], at, n) == Stream(cipher, keyPos, n)
    {
      hide RingTrue, RingIndex, Offset, Copied, Stream;
      if Held(Bookkeeping(), keyPos, n) {
        OffsetHeld(Bookkeeping(), startOffset, keyBuf.Length, keyPos, n);
        RingRead(cipher, keyBuf[..], startOffset, keyPosMin, populated, keyPos, n,
                 RingIndex(startOffset, keyPos - keyPosMin, keyBuf.Length));
      }
    }

    /** The generator wakes up: skip ahead or slide, then unlock. */
    method BeginChunk()
      requires Valid() && keyBuf.Length > 0 && phase == Resting && Wakes(Bookkeeping(), keyBuf.Length, lastKeyPos)
      modifies this`keyPosMin, this`startOffset, this`populated, this`phase
      ensures Valid() && phase == Counting(0)
      ensures Progress(keyPosMin, populated + CHUNK) == NextChunk(old(Bookkeeping()), keyBuf.Length, lastKeyPos)
    {
      hide RingTrue, RingIndex, ChunkSoFar, Wakes, Sum, Reached;
      BeginsReached(Bookkeeping(), keyBuf.Length, lastKeyPos);
      if lastKeyPos > Sum(keyPosMin, populated) {
        keyPosMin := lastKeyPos / CHUNK * CHUNK;
        startOffset := 0;
        populated := 0;
        RingEmpty(cipher, keyBuf[..], startOffset, keyPosMin);
      } else if populated == keyBuf.Length {
        RingSlides(cipher, keyBuf[..], startOffset, keyPosMin, populated, CHUNK);
        startOffset := RingIndex(startOffset, CHUNK, keyBuf.Length);
        keyPosMin := Sum(keyPosMin, CHUNK);
        populated := populated - CHUNK;
      }
      phase := Counting(0);
      ChunkBegins(cipher, Chunk(), keyPosMin + populated);
    }

    /** The chunk being written lies behind the readable part, in one piece. */
    ghost predicate Placed()
      reads this`populated, this`keyPosMin, this`startOffset, this`lastKeyPos
    {
      && keyBuf.Length > 0 && Aligned(Bookkeeping(), keyBuf.Length)
      && Reached(Bookkeeping(), keyBuf.Length, lastKeyPos) && keyPosMin + populated + CHUNK <= U64
      && startOffset % CHUNK == 0 && startOffset < keyBuf.Length && populated + CHUNK <= keyBuf.Length
    }

    lemma {:induction false} Parts()
      requires Valid() && keyBuf.Length > 0 && phase != Resting
      ensures Placed() && startOffset < keyBuf.Length && populated + CHUNK <= keyBuf.Length
      ensures (keyPosMin + populated) % 16 == 0 && Sum(keyPosMin, populated) == keyPosMin + populated
      ensures RingTrue(cipher, keyBuf[..], startOffset, keyPosMin, populated)
      ensures var at := RingIndex(startOffset, populated, keyBuf.Length);
              at + CHUNK <= keyBuf.Length && ChunkSoFar(cipher, keyBuf[..][at..at + CHUNK], keyPosMin + populated, phase)
    {
      hide RingTrue, ChunkSoFar, RingIndex;
      ChunkFits(startOffset, populated, keyBuf.Length);
      SumAligned(keyPosMin, populated);
      var at := RingIndex(startOffset, populated, keyBuf.Length);
      assert Chunk() == keyBuf[..][at..at + CHUNK];
    }

    lemma {:induction false} Joined(at: nat)
      requires Placed() && at == RingIndex(startOffset, populated, keyBuf.Length) && at + CHUNK <= keyBuf.Length
      requires RingTrue(cipher, keyBuf[..], startOffset, keyPosMin, populated)
      requires ChunkSoFar(cipher, keyBuf[..][at..at + CHUNK], keyPosMin + populated, phase)
      ensures Valid()
    {
      hide RingTrue, ChunkSoFar;
      assert Chunk() == keyBuf[..][at..at + CHUNK];
    }

    /** Without the mutex: the next counter block of the chunk. */
    method WriteCounter()
      requires Valid() && keyBuf.Length > 0 && phase.Counting? && phase.done < CHUNK / 16
      modifies this`phase, keyBuf
      ensures Valid() && phase == Counting(old(phase.done) + 1)
    {
      hide GkCrypt.Valid, GkCrypt.Placed, RingTrue, RingIndex, ChunkSoFar, CounterBlock, CounterArg, ToInt, ToU64;
      Parts();
      var done := phase.done;
      var at := RingIndex(startOffset, populated, keyBuf.Length);
      var k := Sum(keyPosMin, populated) / 16;
      ghost var before := keyBuf[..];
      CounterAdd(keyBuf, at + 16 * done, cipher.iv, ToU64(ToInt(k + done)));
      RingKept(before, at, 16 * done);
      CounterWritten(cipher, before, keyBuf[..], at, keyPosMin + populated, done);
      phase := Counting(done + 1);
      Joined(at);
    }

    /** One block of the chunk was written. */
    lemma {:induction false} RingKept(before: seq<byte>, at: nat, from: nat)
      requires startOffset < keyBuf.Length && populated + CHUNK <= keyBuf.Length == |before|
      requires at == RingIndex(startOffset, populated, keyBuf.Length) && at + CHUNK <= keyBuf.Length && from + 16 <= CHUNK
      requires RingTrue(cipher, before, startOffset, keyPosMin, populated)
      requires forall k :: 0 <= k < at + from || at + from + 16 <= k < keyBuf.Length ==> keyBuf[k] == before[k]
      ensures RingTrue(cipher, keyBuf[..], startOffset, keyPosMin, populated)
      ensures keyBuf[..][at..at + from] == before[at..at + from]
      ensures keyBuf[..][at + from + 16..at + CHUNK] == before[at + from + 16..at + CHUNK]
    {
      hide RingTrue, RingIndex;
      assert forall k :: 0 <= k < |before| ==> keyBuf[..][k] == keyBuf[k];
      BlockWritten(before, keyBuf[..], at, from);
      RingUntouched(cipher, before, keyBuf[..], startOffset, keyPosMin, populated, CHUNK);
    }

    /** All counter blocks are there; AES starts over the chunk. */
    method StartEncrypting()
      requires Valid() && keyBuf.Length > 0 && phase == Counting(CHUNK / 16)
      modifies this`phase
      ensures Valid() && phase == Encrypting(0)
    {
      hide RingTrue, RingIndex, ChunkSoFar;
      ChunkTurns(cipher, Chunk(), keyPosMin + populated);
      phase := Encrypting(0);
    }

    /** Without the mutex: AES in place over the next block of the chunk. */
    method WriteCipher()
      requires Valid() && keyBuf.Length > 0 && phase.Encrypting? && phase.done < CHUNK / 16
      modifies this`phase, keyBuf
      ensures Valid() && phase == Encrypting(old(phase.done) + 1)
    {
      hide GkCrypt.Valid, GkCrypt.Placed, RingTrue, RingIndex, ChunkSoFar, Counters, Stream;
      Parts();
      var done := phase.done;
      var at := RingIndex(startOffset, populated, keyBuf.Length);
      ghost var before := keyBuf[..];
      CipherReady(cipher, before, at, keyPosMin + populated, done);
      EncryptBlock(cipher, Sum(keyPosMin, populated), keyBuf, at, CHUNK / 16, done);
      RingKept(before, at, 16 * done);
      CipherWritten(cipher, before, keyBuf[..], at, keyPosMin + populated, done);
      phase := Encrypting(done + 1);
      Joined(at);
    }

    /** The mutex is taken again and the chunk becomes readable. */
    method EndChunk()
      requires Valid() && keyBuf.Length > 0 && phase == Encrypting(CHUNK / 16)
      modifies this`populated, this`phase
      ensures Valid() && phase == Resting && populated == old(populated) + CHUNK
    {
      hide RingTrue, RingIndex, Counters, Stream;
      assert Chunk()[..CHUNK] == Chunk();
      RingGrows(cipher, keyBuf[..], startOffset, keyPosMin, populated, CHUNK);
      populated := populated + CHUNK;
      phase := Resting;
    }

    /** What decrypt makes of data: the key stream of the blocks it lies in is
        requested. */
    ghost function Crypted(keyPos: nat, data: seq<byte>): (r: seq<byte>)
      requires InRing(BlockStart(keyPos), BlocksSize(keyPos, |data|))
      reads this, keyBuf
      ensures |r| == |data|
    {
      XorSeq(data, Given(BlockStart(keyPos), BlocksSize(keyPos, |data|))[keyPos % BLOCK_SIZE..])
    }

    /** Unless the request is misread that is the data combined with the key stream. */
    lemma {:induction false} CryptedRight(keyPos: nat, data: seq<byte>)
      requires ReadRight(BlockStart(keyPos), BlocksSize(keyPos, |data|))
      ensures Crypted(keyPos, data) == Crypt(cipher, keyPos, data)
    {
      var pre, full, n := keyPos % BLOCK_SIZE, BlocksSize(keyPos, |data|), |data|;
      StreamConcat(cipher, keyPos - pre, pre, full - pre);
      StreamConcat(cipher, keyPos, n, full - pre - n);
      hide Stream, XorSeq;
      var s := Stream(cipher, keyPos - pre, full)[pre..];
      assert s == Stream(cipher, keyPos, full - pre);
      assert s[..n] == Stream(cipher, keyPos, n);
      XorPrefix(data, s);
    }

    /** chiaki_gkcrypt_decrypt, which is also encrypt. */
    method Decrypt(keyPos: nat, buf: array<byte>)
      requires Valid() && buf != keyBuf && keyPos < U64 && buf.Length < U64 / 4
      requires InRing(BlockStart(keyPos), BlocksSize(keyPos, buf.Length))
      modifies this`lastKeyPos, buf
      ensures Valid()
      ensures buf[..] == old(Crypted(keyPos, buf[..]))
      ensures old(ReadRight(BlockStart(keyPos), BlocksSize(keyPos, buf.Length))) ==>
                buf[..] == Crypt(cipher, keyPos, old(buf[..])) && Encrypts(cipher, keyPos, old(buf[..]), buf[..])
    {
      hide GkCrypt.Valid, Given, XorSeq, Crypt, InRing, ReadRight, Encrypts;
      ghost var data := buf[..];
      if ReadRight(BlockStart(keyPos), BlocksSize(keyPos, buf.Length)) {
        CryptedRight(keyPos, data);
        CryptExactly(cipher, keyPos, data, Crypt(cipher, keyPos, data));
      }
      var paddingPre := keyPos % BLOCK_SIZE;
      var fullSize := (paddingPre + buf.Length + BLOCK_SIZE - 1) / BLOCK_SIZE * BLOCK_SIZE;
      var keyStream := new byte[fullSize];
      GetKeyStream(keyPos - paddingPre, keyStream);
      XorBytes(buf, keyStream[paddingPre..]);
    }
  }

  /** The blocks that n bytes from keyPos on lie in. */
  function BlockStart(keyPos: nat): (p: nat)
    ensures p <= keyPos && p % BLOCK_SIZE == 0
  {
    keyPos - keyPos % BLOCK_SIZE
  }

  function BlocksSize(keyPos: nat, n: nat): (size: nat)
    ensures size % BLOCK_SIZE == 0 && keyPos % BLOCK_SIZE + n <= size < keyPos % BLOCK_SIZE + n + BLOCK_SIZE
  {
    (keyPos % BLOCK_SIZE + n + BLOCK_SIZE - 1) / BLOCK_SIZE * BLOCK_SIZE
  }
}
