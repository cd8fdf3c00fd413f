/** When the same key stream byte encrypts twice. The block counter repeats
    after 2^32 blocks, so positions 2^36 bytes apart share their key stream. */
module KeyReuse {
  import opened Arith
  import opened Bytes
  import opened Counter
  import opened KeyStream
  import opened PacketMac
  import G = GkCrypt

  const PERIOD: nat := 0x10_0000_0000

  /** Where a key stream byte comes from: a counter block and an offset in its
      encryption. */
  datatype Source = Source(counter: Block, offset: nat)

  function SourceOf(c: Cipher, p: nat): (s: Source)
    ensures s.offset < 16 && StreamByte(c, p) == c.encrypt(s.counter)[s.offset]
  {
    Source(CounterBlock(c.iv, CounterArg(p / 16)), p % 16)
  }

  /** What counter_add really adds: the value, or the value minus 2^64 when the
      first sum overflows 64 bits. */
  function Added(base: Block, v: nat): int {
    if base[0] as int + v < U64 then v else v - U64
  }

  lemma {:induction false} BlockSum(base: Block, v: nat)
    requires v < U64
    ensures Value(CounterBlock(base, v)) == (Value(base) + Added(base, v)) % Pow256(16)
  {
    hide CounterBlock, Value, Pow256;
    CounterAddExact(base, v);
    if base[0] as int + v >= U64 {
      CounterBlockValue(base, v);
      var t := Value(CounterBlock(base, v));
      BlockBound(CounterBlock(base, v));
      ModUnique(Pow256(16), t, t, 0);
    }
  }

  lemma BlockBound(b: Block)
    ensures Value(b) < Pow256(16)
  {
    ValueBound(b);
  }

  /** Adding different values gives different blocks. */
  lemma {:induction false} BlocksDiffer(base: Block, v: nat, w: nat)
    requires v < U64 && w < U64 && v != w
    ensures CounterBlock(base, v) != CounterBlock(base, w)
  {
    hide CounterBlock, Value, Pow256;
    BlockSum(base, v);
    BlockSum(base, w);
    Modulus();
    NotCongruent(Pow256(16), Value(base) + Added(base, v), Value(base) + Added(base, w));
  }

  /** Blocks number k and l have the same counter exactly if they are a multiple
      of 2^32 blocks apart. */
  lemma {:induction false} CountersAgreeExactly(iv: Block, k: nat, l: nat)
    ensures CounterBlock(iv, CounterArg(k)) == CounterBlock(iv, CounterArg(l)) <==> k % 0x1_0000_0000 == l % 0x1_0000_0000
  {
    hide CounterBlock;
    if CounterArg(k) != CounterArg(l) {
      BlocksDiffer(iv, CounterArg(k), CounterArg(l));
    }
  }

  /** Two positions share their key stream byte's source exactly if they agree
      modulo 2^36. */
  lemma {:induction false} SourcesAgreeExactly(c: Cipher, p: nat, q: nat)
    ensures SourceOf(c, p) == SourceOf(c, q) <==> p % PERIOD == q % PERIOD
  {
    hide CounterBlock, CounterArg;
    CountersAgreeExactly(c.iv, p / 16, q / 16);
    Digits(p);
    Digits(q);
  }

  lemma Digits(p: nat)
    ensures p % PERIOD == p / 16 % 0x1_0000_0000 * 16 + p % 16
  {
    var k, o := p / 16, p % 16;
    var h, l := k / 0x1_0000_0000, k % 0x1_0000_0000;
    assert p == h * PERIOD + (l * 16 + o);
  }

  /** So the key stream repeats. */
  lemma {:induction false} StreamRepeats(c: Cipher, p: nat, n: nat)
    ensures Stream(c, p + PERIOD, n) == Stream(c, p, n)
  {
    hide CounterBlock, CounterArg, StreamByte;
    forall i | 0 <= i < n
      ensures Stream(c, p + PERIOD, n)[i] == Stream(c, p, n)[i]
    {
      SameSource(c, p + PERIOD + i, p + i);
    }
  }

  lemma SameSource(c: Cipher, p: nat, q: nat)
    requires p % PERIOD == q % PERIOD
    ensures StreamByte(c, p) == StreamByte(c, q)
  {
    hide CounterBlock, CounterArg;
    SourcesAgreeExactly(c, p, q);
  }

  /** Positions that do not agree modulo 2^36 have different bytes under some
      cipher with this initialisation vector. */
  function Telling(iv: Block, p: nat): Cipher {
    var block := CounterBlock(iv, CounterArg(p / 16));
    Cipher(iv, (b: Block) => if b == block then Steps(0) else Steps(16))
  }

  function Steps(from: byte): Block
    requires from <= 16
  {
    seq<byte>(16, i requires 0 <= i < 16 => from + i)
  }

  lemma {:induction false} TellsApart(iv: Block, p: nat, q: nat)
    ensures StreamByte(Telling(iv, p), p) == StreamByte(Telling(iv, p), q) <==> p % PERIOD == q % PERIOD
  {
    hide CounterBlock, CounterArg;
    SourcesAgreeExactly(Telling(iv, p), p, q);
  }

  // ---------------------------------------------------------------- misread requests

  /** The i-th byte a misread request gets is the right one: the ring holds there
      a byte whose position agrees modulo 2^36 with the requested one. */
  predicate RightByte(p: G.Progress, size: nat, start: nat, keyPos: nat, i: nat)
    requires p.min <= keyPos && start < size && G.Offset(p, start, size, keyPos) + i < 2 * size
  {
    var d := G.Distance(start, G.RingIndex(G.Offset(p, start, size, keyPos), i, size), size);
    d < p.populated && (p.min + d) % PERIOD == (keyPos + i) % PERIOD
  }

  /** What a reader copies is the key stream, for every cipher and whatever the
      unpopulated part of the ring contains. */
  ghost predicate AlwaysRight(iv: Block, p: G.Progress, size: nat, start: nat, keyPos: nat, n: nat)
    requires p.min <= keyPos && start < size && p.populated <= size && G.Offset(p, start, size, keyPos) + n <= 2 * size
  {
    forall c: Cipher, ring: seq<byte> :: c.iv == iv && |ring| == size && G.RingTrue(c, ring, start, p.min, p.populated) ==>
      G.Copied(ring, G.Offset(p, start, size, keyPos), n) == Stream(c, keyPos, n)
  }

  /** That is so exactly if every single byte is. */
  lemma {:induction false} CopiedRightExactly(iv: Block, p: G.Progress, size: nat, start: nat, keyPos: nat, n: nat)
    requires p.min <= keyPos && start < size && p.populated <= size && G.Offset(p, start, size, keyPos) + n <= 2 * size
    ensures AlwaysRight(iv, p, size, start, keyPos, n) <==> forall i :: 0 <= i < n ==> RightByte(p, size, start, keyPos, i)
  {
    hide G.Offset, RightByte, AlwaysRight;
    if forall i :: 0 <= i < n ==> RightByte(p, size, start, keyPos, i) {
      RightBytesCopied(iv, p, size, start, keyPos, n);
    } else {
      var i :| 0 <= i < n && !RightByte(p, size, start, keyPos, i);
      WrongByteCopied(iv, p, size, start, keyPos, n, i);
    }
  }

  lemma {:induction false} RightBytesCopied(iv: Block, p: G.Progress, size: nat, start: nat, keyPos: nat, n: nat)
    requires p.min <= keyPos && start < size && p.populated <= size && G.Offset(p, start, size, keyPos) + n <= 2 * size
    requires forall i :: 0 <= i < n ==> RightByte(p, size, start, keyPos, i)
    ensures AlwaysRight(iv, p, size, start, keyPos, n)
  {
    hide G.Offset, StreamByte;
    var at := G.Offset(p, start, size, keyPos);
    forall c: Cipher, ring: seq<byte> |
      c.iv == iv && |ring| == size && G.RingTrue(c, ring, start, p.min, p.populated)
      ensures G.Copied(ring, at, n) == Stream(c, keyPos, n)
    {
      forall i | 0 <= i < n
        ensures G.Copied(ring, at, n)[i] == Stream(c, keyPos, n)[i]
      {
        assert RightByte(p, size, start, keyPos, i);
        SameSource(c, p.min + G.Distance(start, G.RingIndex(at, i, size), size), keyPos + i);
      }
    }
  }

  /** A ring that is true as far as it is populated. */
  function TrueRing(c: Cipher, p: G.Progress, size: nat, start: nat, fill: byte): (ring: seq<byte>)
    requires start < size && p.populated <= size
    ensures |ring| == size
  {
    seq<byte>(size, j requires 0 <= j < size =>
      var d := G.Distance(start, j, size); if d < p.populated then StreamByte(c, p.min + d) else fill)
  }

  lemma {:induction false} TrueRingIsTrue(c: Cipher, p: G.Progress, size: nat, start: nat, fill: byte)
    requires start < size && p.populated <= size
    ensures G.RingTrue(c, TrueRing(c, p, size, start, fill), start, p.min, p.populated)
  {
    hide StreamByte;
    forall i | 0 <= i < p.populated
      ensures G.Distance(start, G.RingIndex(start, i, size), size) == i
    {
    }
  }

  lemma {:induction false} WrongByteCopied(iv: Block, p: G.Progress, size: nat, start: nat, keyPos: nat, n: nat, i: nat)
    requires p.min <= keyPos && start < size && p.populated <= size && G.Offset(p, start, size, keyPos) + n <= 2 * size
    requires i < n && !RightByte(p, size, start, keyPos, i)
    ensures !AlwaysRight(iv, p, size, start, keyPos, n)
  {
    hide G.Offset, StreamByte, TrueRing, Telling, RightByte, G.RingTrue, G.RingIndex, G.Copied;
    var at := G.Offset(p, start, size, keyPos);
    var c := Telling(iv, keyPos + i);
    var right := StreamByte(c, keyPos + i);
    var fill: byte := if right == 0 then 1 else 0;
    var ring := TrueRing(c, p, size, start, fill);
    TrueRingIsTrue(c, p, size, start, fill);
    RingIsWrong(iv, p, size, start, keyPos, i, fill);
    assert G.Copied(ring, at, n)[i] == ring[G.RingIndex(at, i, size)] && Stream(c, keyPos, n)[i] == right;
  }

  lemma {:induction false} RingIsWrong(iv: Block, p: G.Progress, size: nat, start: nat, keyPos: nat, i: nat, fill: byte)
    requires p.min <= keyPos && start < size && p.populated <= size && G.Offset(p, start, size, keyPos) + i < 2 * size
    requires !RightByte(p, size, start, keyPos, i) && fill != StreamByte(Telling(iv, keyPos + i), keyPos + i)
    ensures var c := Telling(iv, keyPos + i);
            c.iv == iv && TrueRing(c, p, size, start, fill)[G.RingIndex(G.Offset(p, start, size, keyPos), i, size)]
                          != StreamByte(c, keyPos + i)
  {
    hide G.Offset, StreamByte;
    TellsApart(iv, keyPos + i, p.min + G.Distance(start, G.RingIndex(G.Offset(p, start, size, keyPos), i, size), size));
  }

  // ---------------------------------------------------------------- over a run

  /** Every packet of the run ends a block below 2^64. */
  predicate EndsEarly(cur: nat, uses: seq<Use>) {
    forall i :: 0 <= i < |Spans(cur, uses)| ==> Spans(cur, uses)[i].to <= U64 - 16
  }

  /** That is when every packet is encrypted with the key stream of its own
      positions, whatever the cache holds. */
  lemma {:induction false} OwnStreamExactly(cur: nat, uses: seq<Use>)
    requires cur <= SIZE_MAX && forall i :: 0 <= i < |uses| ==> Size(uses[i]) < U64 / 4
    ensures EndsEarly(cur, uses) <==>
              forall i, p: G.Progress, size: nat, last: nat ::
                0 <= i < |Spans(cur, uses)| && G.Aligned(p, size) && G.Reached(p, size, last) ==>
                  !G.Misread(p, G.BlockStart(Spans(cur, uses)[i].from),
                             G.BlocksSize(Spans(cur, uses)[i].from, Spans(cur, uses)[i].to - Spans(cur, uses)[i].from))
  {
    hide Spans, G.Misread, G.BlockStart, G.BlocksSize, G.Aligned, G.Reached;
    SpansDisjoint(cur, uses);
    SpansShort(cur, uses);
    forall i | 0 <= i < |Spans(cur, uses)|
      ensures Spans(cur, uses)[i].to <= U64 - 16 <==>
                forall p: G.Progress, size: nat, last: nat :: G.Aligned(p, size) && G.Reached(p, size, last) ==>
                  !G.Misread(p, G.BlockStart(Spans(cur, uses)[i].from),
                             G.BlocksSize(Spans(cur, uses)[i].from, Spans(cur, uses)[i].to - Spans(cur, uses)[i].from))
    {
      G.AnsweredRightExactly(Spans(cur, uses)[i].from, Spans(cur, uses)[i].to - Spans(cur, uses)[i].from);
    }
  }

  lemma {:induction false} SpansShort(cur: nat, uses: seq<Use>)
    requires forall i :: 0 <= i < |uses| ==> Size(uses[i]) < U64 / 4
    ensures forall i :: 0 <= i < |Spans(cur, uses)| ==>
              Spans(cur, uses)[i].from <= Spans(cur, uses)[i].to < Spans(cur, uses)[i].from + U64 / 4
    decreases |uses|
  {
    if uses != [] {
      match Advance(cur, Size(uses[0]))
      case None => SpansShort(cur, uses[1..]);
      case Some(next) => SpansShort(next, uses[1..]);
    }
  }

  /** The i-th encrypted packet of this run encrypts with position p. */
  ghost predicate Encrypts(cur: nat, uses: seq<Use>, i: int, p: nat) {
    0 <= i < |Spans(cur, uses)| && Spans(cur, uses)[i].from <= p < Spans(cur, uses)[i].to
  }

  /** Two encrypted bytes of the run take their key stream byte from one source. */
  ghost predicate Reuses(c: Cipher, cur: nat, uses: seq<Use>) {
    exists i, p: nat, j, q: nat ::
      (i != j || p != q) && Encrypts(cur, uses, i, p) && Encrypts(cur, uses, j, q) && SourceOf(c, p) == SourceOf(c, q)
  }

  /** The positions the run encrypts with all differ modulo 2^36. */
  ghost predicate Apart(cur: nat, uses: seq<Use>) {
    forall i, p: nat, j, q: nat ::
      p != q && Encrypts(cur, uses, i, p) && Encrypts(cur, uses, j, q) ==> p % PERIOD != q % PERIOD
  }

  lemma {:induction false} OwnPositions(cur: nat, uses: seq<Use>, i: int, j: int, p: nat)
    requires cur <= SIZE_MAX && Encrypts(cur, uses, i, p) && Encrypts(cur, uses, j, p)
    ensures i == j
  {
    hide Spans;
    SpansDisjoint(cur, uses);
  }

  /** A run whose packets end a block below 2^64 reuses key stream exactly if two
      of the positions it encrypts with agree modulo 2^36. */
  lemma {:induction false} ReuseExactly(c: Cipher, cur: nat, uses: seq<Use>)
    requires cur <= SIZE_MAX && EndsEarly(cur, uses)
    ensures Reuses(c, cur, uses) <==> !Apart(cur, uses)
  {
    hide Encrypts, SourceOf;
    forall p: nat, q: nat
      ensures SourceOf(c, p) == SourceOf(c, q) <==> p % PERIOD == q % PERIOD
    {
      SourcesAgreeExactly(c, p, q);
    }
    forall i, j, p: nat | Encrypts(cur, uses, i, p) && Encrypts(cur, uses, j, p)
      ensures i == j
    {
      OwnPositions(cur, uses, i, j, p);
    }
  }

  /** The local key position after the run. */
  function After(cur: nat, uses: seq<Use>): (end: nat)
    requires cur <= SIZE_MAX
    ensures cur <= end <= SIZE_MAX
    decreases |uses|
  {
    if uses == [] then cur else
      match Advance(cur, Size(uses[0]))
      case None => After(cur, uses[1..])
      case Some(next) => After(next, uses[1..])
  }

  lemma {:induction false} SpansEnd(cur: nat, uses: seq<Use>)
    requires cur <= SIZE_MAX
    ensures forall i :: 0 <= i < |Spans(cur, uses)| ==> Spans(cur, uses)[i].to <= After(cur, uses)
    decreases |uses|
  {
    if uses != [] {
      match Advance(cur, Size(uses[0]))
      case None => SpansEnd(cur, uses[1..]);
      case Some(next) => SpansEnd(next, uses[1..]);
    }
  }

  /** No key stream byte is used twice over any run that moves the local key
      position by at most 2^36 and leaves it a block below 2^64. */
  lemma {:induction false} ShortRunsNeverReuse(c: Cipher, cur: nat, uses: seq<Use>)
    requires cur <= SIZE_MAX && After(cur, uses) - cur <= PERIOD && After(cur, uses) <= U64 - 16
    ensures EndsEarly(cur, uses) && !Reuses(c, cur, uses)
  {
    hide Spans, After, Reuses, SourceOf;
    SpansDisjoint(cur, uses);
    SpansEnd(cur, uses);
    ReuseExactly(c, cur, uses);
    forall i, p: nat, j, q: nat | p != q && Encrypts(cur, uses, i, p) && Encrypts(cur, uses, j, q)
      ensures p % PERIOD != q % PERIOD
    {
      CloseDiffer(p, q);
    }
  }

  lemma CloseDiffer(p: nat, q: nat)
    requires p != q && p < q + PERIOD && q < p + PERIOD
    ensures p % PERIOD != q % PERIOD
  {
  }

  /** A longer run can: two packets of sixteen bytes, 2^36 positions apart, are
      encrypted with the same sixteen bytes. */
  lemma {:induction false} LongRunReuses(c: Cipher)
    ensures var uses := [Feedback(16), Reserve(PERIOD - 32), Feedback(16)];
            && Spans(0, uses) == [Span(16, 32), Span(PERIOD + 16, PERIOD + 32)]
            && Stream(c, PERIOD + 16, 16) == Stream(c, 16, 16)
            && Reuses(c, 0, uses)
  {
    var uses := [Feedback(16), Reserve(PERIOD - 32), Feedback(16)];
    SpansOfThree();
    StreamRepeats(c, 16, 16);
    hide Spans, Stream, SourceOf;
    SourcesAgreeExactly(c, 16, PERIOD + 16);
    assert Encrypts(0, uses, 0, 16) && Encrypts(0, uses, 1, PERIOD + 16);
  }

  lemma SpansOfThree()
    ensures Spans(0, [Feedback(16), Reserve(PERIOD - 32), Feedback(16)]) == [Span(16, 32), Span(PERIOD + 16, PERIOD + 32)]
  {
    var uses := [Feedback(16), Reserve(PERIOD - 32), Feedback(16)];
    assert uses[1..] == [Reserve(PERIOD - 32), Feedback(16)] && uses[1..][1..] == [Feedback(16)];
    assert Spans(PERIOD, [Feedback(16)]) == [Span(PERIOD + 16, PERIOD + 32)] by {
      assert [Feedback(16)][1..] == [];
    }
    assert Spans(32, uses[1..]) == Spans(PERIOD, [Feedback(16)]);
  }

  const RING: nat := 0x20 * G.CHUNK

  /** In the last block even a short run can: the second packet ends at 2^64 - 1,
      the blocks it lies in end at 2^64, and a full ring that holds the positions
      up to one ring before that answers with the key stream one ring earlier,
      which encrypted the first packet. */
  lemma {:induction false} LastBlockReuses(c: Cipher, ring: seq<byte>)
    requires |ring| == RING && G.RingTrue(c, ring, 0, U64 - 2 * RING, RING)
    ensures var cur, uses := U64 - RING - 33, [Feedback(16), Reserve(RING - 32), Feedback(16)];
            var p := G.Progress(U64 - 2 * RING, RING);
            var from, to := U64 - 17, U64 - 1;
            && G.Aligned(p, RING) && G.Reached(p, RING, U64 - RING)
            && Spans(cur, uses) == [Span(from - RING, to - RING), Span(from, to)]
            && G.BlockStart(from) == U64 - 32 && G.BlocksSize(from, 16) == 32 && G.Misread(p, U64 - 32, 32)
            && G.Offset(p, 0, RING, U64 - 32) + 32 <= 2 * RING
            && G.Copied(ring, G.Offset(p, 0, RING, U64 - 32), 32)[from % 16..][..16] == Stream(c, from - RING, 16)
  {
    var cur, uses := U64 - RING - 33, [Feedback(16), Reserve(RING - 32), Feedback(16)];
    LastSpans();
    G.MisreadIsEarlier(c, ring, 0, U64 - 2 * RING, U64 - 32, 32);
    hide Spans, Stream, G.Copied, G.Offset, G.RingTrue;
    StreamConcat(c, U64 - 32 - RING, 15, 17);
    StreamConcat(c, U64 - 17 - RING, 16, 1);
  }

  lemma LastSpans()
    ensures var cur, uses := U64 - RING - 33, [Feedback(16), Reserve(RING - 32), Feedback(16)];
            Spans(cur, uses) == [Span(U64 - 17 - RING, U64 - 1 - RING), Span(U64 - 17, U64 - 1)]
  {
    var cur, uses := U64 - RING - 33, [Feedback(16), Reserve(RING - 32), Feedback(16)];
    assert uses[1..] == [Reserve(RING - 32), Feedback(16)] && uses[1..][1..] == [Feedback(16)];
    assert [Feedback(16)][1..] == [];
    assert Spans(U64 - 33, [Feedback(16)]) == [Span(U64 - 17, U64 - 1)];
    assert Spans(U64 - 1 - RING, uses[1..]) == Spans(U64 - 33, [Feedback(16)]);
  }

  /** A request for the last sixteen bytes, with one chunk in a fresh ring: it goes
      to the cache, which does not hold it, and some cipher shows it. */
  lemma {:induction false} LastBytesMisread(iv: Block)
    ensures var p, keyPos := G.Progress(0, G.CHUNK), U64 - 16;
            && G.Aligned(p, RING) && G.Reached(p, RING, 0) && G.Cached(p, keyPos, 16) && G.Misread(p, keyPos, 16)
            && G.Offset(p, 0, RING, keyPos) + 16 <= 2 * RING
            && !AlwaysRight(iv, p, RING, 0, keyPos, 16)
  {
    var p, keyPos := G.Progress(0, G.CHUNK), U64 - 16;
    assert G.Offset(p, 0, RING, keyPos) == RING - 16;
    assert !RightByte(p, RING, 0, keyPos, 0);
    WrongByteCopied(iv, p, RING, 0, keyPos, 16, 0);
  }
}
