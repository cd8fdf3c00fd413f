/** Exclusive or of bytes, and of a buffer with a key stream (xor_bytes). */
module Xor {
  import opened Arith
  import opened Bytes

  /** Bit by bit, lowest first. */
  function XorBits(n: nat, a: nat, b: nat): (r: nat)
    ensures r < Pow2(n)
  {
    if n == 0 then 0 else (a % 2 + b % 2) % 2 + 2 * XorBits(n - 1, a / 2, b / 2)
  }

  function XorByte(a: byte, b: byte): byte {
    ByteRange();
    XorBits(8, a, b)
  }

  lemma ByteRange()
    ensures Pow2(8) == 256
  {
    assert Pow2(4) == 16;
  }

  lemma {:induction false} XorBitsTwice(n: nat, a: nat, b: nat)
    requires a < Pow2(n)
    ensures XorBits(n, XorBits(n, a, b), b) == a
  {
    if n > 0 {
      XorStep(n, a, b);
      XorStep(n, XorBits(n, a, b), b);
      XorBitsTwice(n - 1, a / 2, b / 2);
      BitTwice(a % 2, b % 2);
      Halves(XorBits(n, XorBits(n, a, b), b), a);
    }
  }

  lemma {:induction false} XorStep(n: nat, a: nat, b: nat)
    requires n > 0
    ensures XorBits(n, a, b) % 2 == (a % 2 + b % 2) % 2
    ensures XorBits(n, a, b) / 2 == XorBits(n - 1, a / 2, b / 2)
  {
    LowBit((a % 2 + b % 2) % 2, XorBits(n - 1, a / 2, b / 2));
    hide Pow2;
  }

  lemma LowBit(bit: nat, rest: nat)
    requires bit < 2
    ensures (bit + 2 * rest) % 2 == bit && (bit + 2 * rest) / 2 == rest
  {
  }

  lemma Halves(x: nat, y: nat)
    requires x / 2 == y / 2 && x % 2 == y % 2
    ensures x == y
  {
  }

  lemma BitTwice(x: nat, y: nat)
    requires x < 2 && y < 2
    ensures ((x + y) % 2 + y) % 2 == x
  {
  }

  lemma {:induction false} XorTwice(a: byte, b: byte)
    ensures XorByte(XorByte(a, b), b) == a
  {
    ByteRange();
    XorBitsTwice(8, a, b);
  }

  /** x is the exclusive or of a and b: the bits in which a and b differ. */
  ghost predicate IsXor(x: byte, a: byte, b: byte) {
    forall i :: 0 <= i < 8 ==> (Bit(x, i) == 1 <==> Bit(a, i) != Bit(b, i))
  }

  lemma {:induction false} XorBitsAt(n: nat, a: nat, b: nat, i: nat)
    requires i < n
    ensures Bit(XorBits(n, a, b), i) == 1 <==> Bit(a, i) != Bit(b, i)
  {
    if i > 0 {
      XorBitsAt(n - 1, a / 2, b / 2, i - 1);
    }
  }

  lemma {:induction false} BitsDetermine(n: nat, x: nat, y: nat)
    requires x < Pow2(n) && y < Pow2(n) && forall i :: 0 <= i < n ==> Bit(x, i) == Bit(y, i)
    ensures x == y
  {
    if n > 0 {
      assert Bit(x, 0) == Bit(y, 0);
      forall i | 0 <= i < n - 1
        ensures Bit(x / 2, i) == Bit(y / 2, i)
      {
        assert Bit(x, i + 1) == Bit(y, i + 1);
      }
      BitsDetermine(n - 1, x / 2, y / 2);
    }
  }

  lemma {:induction false} XorExactly(x: byte, a: byte, b: byte)
    ensures x == XorByte(a, b) <==> IsXor(x, a, b)
  {
    ByteRange();
    forall i | 0 <= i < 8
      ensures Bit(XorByte(a, b), i) == 1 <==> Bit(a, i) != Bit(b, i)
    {
      XorBitsAt(8, a, b, i);
    }
    if IsXor(x, a, b) {
      BitsDetermine(8, x, XorByte(a, b));
    }
  }

  function XorSeq(a: seq<byte>, b: seq<byte>): (r: seq<byte>)
    requires |a| <= |b|
    ensures |r| == |a|
  {
    seq<byte>(|a|, i requires 0 <= i < |a| => XorByte(a[i], b[i]))
  }

  lemma {:induction false} XorPrefix(a: seq<byte>, b: seq<byte>)
    requires |a| <= |b|
    ensures XorSeq(a, b) == XorSeq(a, b[..|a|])
  {
  }

  /** xor_bytes: dst[i] ^= src[i] for the whole destination. */
  method XorBytes(dst: array<byte>, src: seq<byte>)
    requires dst.Length <= |src|
    modifies dst
    ensures dst[..] == XorSeq(old(dst[..]), src)
  {
    for i := 0 to dst.Length
      invariant forall k :: 0 <= k < i ==> dst[k] == XorByte(old(dst[k]), src[k])
      invariant forall k :: i <= k < dst.Length ==> dst[k] == old(dst[k])
    {
      dst[i] := XorByte(dst[i], src[i]);
    }
  }
}
