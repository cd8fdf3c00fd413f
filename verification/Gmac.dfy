/** The message authentication keys, which are renewed as the key position
    advances. */
module Gmac {
  import opened Arith
  import opened Bytes
  import opened Counter

  const KEY_REFRESH_KEY_POS: nat := 45000
  const KEY_REFRESH_IV_OFFSET: nat := 44910

  /** The primitives, left uninterpreted: derive is the folded SHA-256 of a base
      key and a counter, mac is the tag of AES-128-GCM over additional data. */
  datatype Primitives = Primitives(iv: Block, base: Block, derive: (Block, Block) -> Block,
                                   mac: (Block, Block, seq<byte>) -> seq<byte>)

  /** The key generation a key position belongs to. */
  function KeyIndex(keyPos: nat): nat {
    (if keyPos > 0 then keyPos - 1 else 0) / KEY_REFRESH_KEY_POS
  }

  function GenKey(p: Primitives, index: nat): Block
    requires index * KEY_REFRESH_IV_OFFSET < U64
  {
    p.derive(p.base, CounterBlock(p.iv, index * KEY_REFRESH_IV_OFFSET))
  }

  function KeyFor(p: Primitives, index: nat): Block
    requires index * KEY_REFRESH_IV_OFFSET < U64
  {
    if index == 0 then p.base else GenKey(p, index)
  }

  /** The tag a packet has: a function of its position and bytes alone. */
  function Tag(p: Primitives, keyPos: nat, data: seq<byte>): seq<byte>
    requires keyPos < U64
  {
    p.mac(KeyFor(p, KeyIndex(keyPos)), CounterBlock(p.iv, keyPos / 16), data)
  }

  /** All the counters used for authentication are true sums modulo 2^128:
      none of them overflows the first 64-bit addition. */
  lemma {:induction false} MacCountersExact(p: Primitives, keyPos: nat)
    requires keyPos < U64
    ensures KeyIndex(keyPos) * KEY_REFRESH_IV_OFFSET < U64
    ensures Value(CounterBlock(p.iv, KeyIndex(keyPos) * KEY_REFRESH_IV_OFFSET))
            == (Value(p.iv) + KeyIndex(keyPos) * KEY_REFRESH_IV_OFFSET) % Pow256(16)
    ensures Value(CounterBlock(p.iv, keyPos / 16)) == (Value(p.iv) + keyPos / 16) % Pow256(16)
  {
    hide Value, CounterBlock, Pow256, KeyIndex;
    CountersSmall(keyPos);
    CounterAddExact(p.iv, KeyIndex(keyPos) * KEY_REFRESH_IV_OFFSET);
    CounterAddExact(p.iv, keyPos / 16);
  }

  lemma CountersSmall(keyPos: nat)
    requires keyPos < U64
    ensures KeyIndex(keyPos) * KEY_REFRESH_IV_OFFSET + 0x100 <= U64 && keyPos / 16 + 0x100 <= U64
  {
  }

  /** Positions 45000 n + 1 to 45000 (n + 1) belong to generation n, and position
      zero to the first. */
  lemma {:induction false} KeyIndexExactly(keyPos: nat, n: nat)
    ensures KeyIndex(keyPos) == n <==> (keyPos == 0 && n == 0) || 45000 * n < keyPos <= 45000 * (n + 1)
  {
  }

  /** The tag in terms of true sums: the nonce is the initialisation vector plus
      the number of the 16-byte block, the key of generation n > 0 is derived
      with the initialisation vector plus 44910 n. */
  lemma {:induction false} TagExactly(p: Primitives, keyPos: nat, data: seq<byte>, n: nat, nonce: Block, salt: Block)
    requires keyPos < U64 && ((keyPos == 0 && n == 0) || 45000 * n < keyPos <= 45000 * (n + 1))
    requires Value(nonce) == (Value(p.iv) + keyPos / 16) % Pow256(16)
    requires Value(salt) == (Value(p.iv) + 44910 * n) % Pow256(16)
    ensures Tag(p, keyPos, data) == p.mac(if n == 0 then p.base else p.derive(p.base, salt), nonce, data)
  {
    hide Value, CounterBlock, Pow256, KeyIndex;
    KeyIndexExactly(keyPos, n);
    MacCountersExact(p, keyPos);
    ValueDetermines(nonce, CounterBlock(p.iv, keyPos / 16));
    ValueDetermines(salt, CounterBlock(p.iv, n * KEY_REFRESH_IV_OFFSET));
  }

  class GmacState {
    const prims: Primitives
    var keyCurrent: Block
    var indexCurrent: nat

    ghost predicate Valid()
      reads this
    {
      indexCurrent * KEY_REFRESH_IV_OFFSET < U64 && keyCurrent == KeyFor(prims, indexCurrent)
    }

    constructor (prims: Primitives)
      ensures Valid() && this.prims == prims && indexCurrent == 0
    {
      this.prims := prims;
      keyCurrent := prims.base;
      indexCurrent := 0;
    }

    /** chiaki_gkcrypt_gmac: a newer key replaces the current one, an older one
        is only derived for this call. */
    method Gmac(keyPos: nat, data: seq<byte>) returns (tag: seq<byte>)
      requires Valid() && keyPos < U64
      modifies this
      ensures Valid()
      ensures tag == Tag(prims, keyPos, data)
      ensures indexCurrent == if KeyIndex(keyPos) > old(indexCurrent) then KeyIndex(keyPos) else old(indexCurrent)
    {
      var iv := CounterBlock(prims.iv, keyPos / 16);
      var key := keyCurrent;
      var index := KeyIndex(keyPos);
      if index > indexCurrent {
        keyCurrent := GenKey(prims, index);
        indexCurrent := index;
        key := keyCurrent;
      } else if index < indexCurrent {
        key := if index > 0 then GenKey(prims, index) else prims.base;
      }
      tag := prims.mac(key, iv, data);
    }
  }
}
