/** The CTR key stream as the code generates it, and how far that is the true
    one. */
module KeyStream {
  import opened Arith
  import opened Bytes
  import opened Counter

  const BLOCK_SIZE: nat := 16

  /** The cipher: its initialisation vector and AES-128 under the base key,
      which is left uninterpreted. */
  datatype Cipher = Cipher(iv: Block, encrypt: Block -> Block)

  /** int counter_offset = (int)k, then converted to uint64_t: the low 32 bits,
      sign-extended. */
  function CounterArg(k: nat): (v: nat)
    ensures v < U64
  {
    var low := k % 0x1_0000_0000;
    if low < 0x8000_0000 then low else U64 - 0x1_0000_0000 + low
  }

  function StreamBlock(c: Cipher, k: nat): Block {
    c.encrypt(CounterBlock(c.iv, CounterArg(k)))
  }

  /** The key stream byte at a position. */
  function StreamByte(c: Cipher, p: nat): byte {
    StreamBlock(c, p / 16)[p % 16]
  }

  function Stream(c: Cipher, p: nat, n: nat): (s: seq<byte>)
    ensures |s| == n
  {
    seq<byte>(n, i requires 0 <= i < n => StreamByte(c, p + i))
  }

  /** The counter block at block number k is the true CTR counter, the
      initialisation vector plus k modulo 2^128, exactly when k still fits the
      int: that is for positions below 2^35 bytes. */
  lemma {:induction false} CounterExactBelow2To35(iv: Block, k: nat)
    requires k < U64 / 16
    ensures Value(CounterBlock(iv, CounterArg(k))) == (Value(iv) + k) % Pow256(16) <==> k < 0x8000_0000
  {
    hide Value, CounterBlock, Pow256;
    var v := CounterArg(k);
    CounterAddExact(iv, v);
    CounterBlockValue(iv, v);
    Modulus();
    if k < 0x8000_0000 {
    } else if iv[0] as int + v < U64 {
      NotCongruent(Pow256(16), Value(iv) + v, Value(iv) + k);
    } else {
      NotCongruent(Pow256(16), Value(iv) + v - U64, Value(iv) + k);
      ValueBound(iv);
      ValueBound(CounterBlock(iv, v));
      ModUnique(Pow256(16), Value(iv) + v - U64, Value(iv) + v - U64, 0);
    }
  }

  /** Below position 2^35 the key stream is that of counter mode: byte p comes from
      block p / 16, whose counter is the initialisation vector plus that number. */
  lemma {:induction false} CounterMode(c: Cipher, p: nat, counter: Block)
    requires p < 0x8_0000_0000 && Value(counter) == (Value(c.iv) + p / 16) % Pow256(16)
    ensures StreamByte(c, p) == c.encrypt(counter)[p % 16]
  {
    hide Value, CounterBlock, CounterArg, Pow256;
    CounterExactBelow2To35(c.iv, p / 16);
    ValueDetermines(counter, CounterBlock(c.iv, CounterArg(p / 16)));
  }

  lemma {:induction false} NotCongruent(m: nat, a: int, b: int)
    requires m > 0 && a != b && a - b < m && b - a < m
    ensures a % m != b % m
  {
    if a % m == b % m {
      var i, j := a / m, b / m;
      assert a == i * m + a % m && b == j * m + b % m;
      assert a - b == (i - j) * m;
      SmallMultiple(i - j, m);
    }
  }

  /** Adjacent requests concatenate. */
  lemma {:induction false} StreamConcat(c: Cipher, p: nat, n: nat, m: nat)
    ensures Stream(c, p, n) + Stream(c, p + n, m) == Stream(c, p, n + m)
  {
    var a, b := Stream(c, p, n) + Stream(c, p + n, m), Stream(c, p, n + m);
    forall i | 0 <= i < n + m
      ensures a[i] == b[i]
    {
    }
  }

  lemma {:induction false} StreamOfBlock(c: Cipher, p: nat)
    requires p % 16 == 0
    ensures Stream(c, p, 16) == StreamBlock(c, p / 16)
  {
    hide StreamBlock;
    forall i | 0 <= i < 16
      ensures StreamByte(c, p + i) == StreamBlock(c, p / 16)[i]
    {
      assert (p + i) / 16 == p / 16 && (p + i) % 16 == i;
    }
  }

  /** The counter blocks that will encrypt to Stream(c, p, 16 * blocks). */
  function Counters(c: Cipher, k: nat, blocks: nat): (s: seq<byte>)
    ensures |s| == 16 * blocks
  {
    if blocks == 0 then [] else Counters(c, k, blocks - 1) + CounterBlock(c.iv, CounterArg(k + blocks - 1))
  }

  lemma {:induction false} CountersNext(c: Cipher, k: nat, blocks: nat)
    ensures Counters(c, k, 0) == []
    ensures Counters(c, k, blocks + 1) == Counters(c, k, blocks) + CounterBlock(c.iv, CounterArg(k + blocks))
  {
  }

  /** ++ on the int counter; past INT_MAX, where C leaves it undefined, it wraps. */
  function NextInt(n: int): int {
    if n == 0x7fff_ffff then -0x8000_0000 else n + 1
  }

  /** Conversion of an int argument to uint64_t. */
  function ToU64(n: int): nat
    requires -0x8000_0000 <= n < 0x8000_0000
  {
    if n >= 0 then n else U64 + n
  }

  function ToInt(k: nat): (n: int)
    ensures -0x8000_0000 <= n < 0x8000_0000 && ToU64(n) == CounterArg(k)
  {
    var low := k % 0x1_0000_0000;
    if low < 0x8000_0000 then low else low - 0x1_0000_0000
  }

  lemma {:induction false} NextIntCounts(k: nat)
    ensures NextInt(ToInt(k)) == ToInt(k + 1)
  {
    var low, q := k % 0x1_0000_0000, k / 0x1_0000_0000;
    if low == 0xffff_ffff {
      assert k + 1 == (q + 1) * 0x1_0000_0000;
    } else {
      assert k + 1 == q * 0x1_0000_0000 + (low + 1);
    }
  }

  /** chiaki_gkcrypt_gen_key_stream into buf[off..off + n]: first all counter
      blocks, then AES over them in place. */
  method GenKeyStream(c: Cipher, keyPos: nat, buf: array<byte>, off: nat, n: nat)
    requires keyPos % BLOCK_SIZE == 0 && n % BLOCK_SIZE == 0 && off + n <= buf.Length
    modifies buf
    ensures buf[off..off + n] == Stream(c, keyPos, n)
    ensures forall k :: 0 <= k < off || off + n <= k < buf.Length ==> buf[k] == old(buf[k])
  {
    FillCounters(c, keyPos / 16, buf, off, n / 16);
    EncryptBlocks(c, keyPos, buf, off, n / 16);
  }

  lemma {:induction false} Appended(buf: array<byte>, off: nat, at: nat, done: seq<byte>, n: nat)
    requires off <= at && at + n <= buf.Length && |done| == at - off
    requires forall j :: off <= j < at ==> buf[j] == done[j - off]
    ensures buf[off..at + n] == done + buf[at..at + n]
  {
  }

  method FillCounters(c: Cipher, k: nat, buf: array<byte>, off: nat, blocks: nat)
    requires off + 16 * blocks <= buf.Length
    modifies buf
    ensures buf[off..off + 16 * blocks] == Counters(c, k, blocks)
    ensures forall j :: 0 <= j < off || off + 16 * blocks <= j < buf.Length ==> buf[j] == old(buf[j])
  {
    hide CounterBlock, CounterArg, ToInt, NextInt;
    var counterOffset := ToInt(k);
    var i := 0;
    while i < blocks
      invariant i <= blocks && counterOffset == ToInt(k + i)
      invariant buf[off..off + 16 * i] == Counters(c, k, i)
      invariant forall j :: 0 <= j < off || off + 16 * i <= j < buf.Length ==> buf[j] == old(buf[j])
    {
      ghost var done := buf[off..off + 16 * i];
      CounterAdd(buf, off + 16 * i, c.iv, ToU64(counterOffset));
      Appended(buf, off, off + 16 * i, done, 16);
      NextIntCounts(k + i);
      counterOffset := NextInt(counterOffset);
      i := i + 1;
    }
  }

  method EncryptBlocks(c: Cipher, keyPos: nat, buf: array<byte>, off: nat, blocks: nat)
    requires keyPos % 16 == 0 && off + 16 * blocks <= buf.Length
    requires buf[off..off + 16 * blocks] == Counters(c, keyPos / 16, blocks)
    modifies buf
    ensures buf[off..off + 16 * blocks] == Stream(c, keyPos, 16 * blocks)
    ensures forall j :: 0 <= j < off || off + 16 * blocks <= j < buf.Length ==> buf[j] == old(buf[j])
  {
    hide Counters, Stream;
    ghost var counters := buf[off..off + 16 * blocks];
    StreamNothing(c, keyPos);
    var i := 0;
    while i < blocks
      invariant i <= blocks
      invariant buf[off..off + 16 * i] == Stream(c, keyPos, 16 * i)
      invariant forall j :: 0 <= j < off || off + 16 * i <= j < buf.Length ==> buf[j] == old(buf[j])
    {
      assert buf[off + 16 * i..off + 16 * i + 16] == counters[16 * i..16 * i + 16];
      EncryptBlock(c, keyPos, buf, off, blocks, i);
      i := i + 1;
    }
  }

  lemma {:induction false} StreamNothing(c: Cipher, p: nat)
    ensures Stream(c, p, 0) == []
  {
  }

  /** AES in place on block i. */
  method EncryptBlock(c: Cipher, keyPos: nat, buf: array<byte>, off: nat, ghost blocks: nat, i: nat)
    requires keyPos % 16 == 0 && i < blocks && off + 16 * blocks <= buf.Length
    requires buf[off..off + 16 * i] == Stream(c, keyPos, 16 * i)
    requires buf[off + 16 * i..off + 16 * i + 16] == Counters(c, keyPos / 16, blocks)[16 * i..16 * i + 16]
    modifies buf
    ensures buf[off..off + 16 * i + 16] == Stream(c, keyPos, 16 * i + 16)
    ensures forall j :: 0 <= j < off + 16 * i || off + 16 * i + 16 <= j < buf.Length ==> buf[j] == old(buf[j])
  {
    hide Counters, CounterBlock, CounterArg, Stream, StreamByte;
    var at := off + 16 * i;
    CounterAt(c, keyPos / 16, blocks, i);
    ghost var done := buf[off..at];
    var block: Block := buf[at..at + 16];
    Memcpy(buf, at, c.encrypt(block));
    assert buf[at..at + 16] == c.encrypt(block);
    assert (keyPos + 16 * i) / 16 == keyPos / 16 + i;
    StreamOfBlock(c, keyPos + 16 * i);
    StreamConcat(c, keyPos, 16 * i, 16);
    Appended(buf, off, at, done, 16);
  }

  lemma {:induction false} CounterAt(c: Cipher, k: nat, blocks: nat, i: nat)
    requires i < blocks
    ensures Counters(c, k, blocks)[16 * i..16 * i + 16] == CounterBlock(c.iv, CounterArg(k + i))
    decreases blocks
  {
    if i < blocks - 1 {
      CounterAt(c, k, blocks - 1, i);
      assert Counters(c, k, blocks)[16 * i..16 * i + 16] == Counters(c, k, blocks - 1)[16 * i..16 * i + 16];
    }
  }
}
