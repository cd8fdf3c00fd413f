/** Bytes, network byte order and in-place moves, shared by every component. */
module Bytes {
  type byte = x: int | 0 <= x < 256

  const U32: nat := 0x1_0000_0000
  const U64: nat := 0x1_0000_0000_0000_0000
  const SIZE_MAX: nat := 0xffff_ffff_ffff_ffff

  datatype Option<+T> = None | Some(value: T)

  /** ntohs of the two bytes at offset i. */
  function Read16(s: seq<byte>, i: nat): (n: nat)
    requires i + 2 <= |s|
    ensures n < 0x1_0000
  {
    s[i] as int * 0x100 + s[i + 1] as int
  }

  /** htons. */
  function Write16(n: nat): (s: seq<byte>)
    requires n < 0x1_0000
    ensures |s| == 2 && Read16(s, 0) == n
  {
    [n / 0x100, n % 0x100]
  }

  /** ntohl of the four bytes at offset i. */
  function Read32(s: seq<byte>, i: nat): (n: nat)
    requires i + 4 <= |s|
    ensures n < 0x1_0000_0000
  {
    ((s[i] as int * 0x100 + s[i + 1] as int) * 0x100 + s[i + 2] as int) * 0x100 + s[i + 3] as int
  }

  /** htonl. */
  function Write32(n: nat): (s: seq<byte>)
    requires n < 0x1_0000_0000
    ensures |s| == 4 && Read32(s, 0) == n
  {
    var high := n / 0x1_0000;
    var low := n % 0x1_0000;
    [high / 0x100, high % 0x100, low / 0x100, low % 0x100]
  }

  /** The number these bytes are in network byte order: the most significant byte
      comes first. */
  function NetworkOrder(s: seq<byte>): nat {
    if s == [] then 0 else NetworkOrder(s[..|s| - 1]) * 256 + s[|s| - 1]
  }

  predicate BigEndian(s: seq<byte>, n: int) {
    NetworkOrder(s) == n
  }

  lemma {:induction false} BigEndianNext(s: seq<byte>, n: nat, b: byte)
    requires BigEndian(s, n)
    ensures BigEndian(s + [b], n * 256 + b)
  {
    assert (s + [b])[..|s|] == s;
  }

  lemma {:induction false} WrittenBigEndian(n: nat)
    requires n < U32
    ensures BigEndian(Write32(n), n)
  {
    hide Write32, BigEndian;
    var s := Write32(n);
    NothingBigEndian();
    BigEndianNext([], 0, s[0]);
    BigEndianNext([] + [s[0]], s[0], s[1]);
    BigEndianNext([] + [s[0]] + [s[1]], s[0] as int * 256 + s[1], s[2]);
    BigEndianNext([] + [s[0]] + [s[1]] + [s[2]], (s[0] as int * 256 + s[1]) * 256 + s[2], s[3]);
    assert [] + [s[0]] + [s[1]] + [s[2]] + [s[3]] == s;
  }

  lemma {:induction false} WrittenShort(n: nat)
    requires n < 0x1_0000
    ensures BigEndian(Write16(n), n)
  {
    hide Write16, BigEndian;
    var s := Write16(n);
    NothingBigEndian();
    BigEndianNext([], 0, s[0]);
    BigEndianNext([] + [s[0]], s[0], s[1]);
    assert [] + [s[0]] + [s[1]] == s;
  }

  lemma NothingBigEndian()
    ensures BigEndian([], 0)
  {
  }

  function Images<X, Y>(xs: seq<X>, f: X -> Y): (ys: seq<Y>)
    ensures |ys| == |xs| && forall i :: 0 <= i < |xs| ==> ys[i] == f(xs[i])
  {
    seq(|xs|, i requires 0 <= i < |xs| => f(xs[i]))
  }

  function Zeros(n: nat): (s: seq<byte>)
    ensures |s| == n
  {
    seq(n, _ => 0)
  }

  /** memmove(a + dst, a + src, n): all reads happen before all writes. */
  method Memmove<T>(a: array<T>, dst: nat, src: nat, n: nat)
    requires dst + n <= a.Length && src + n <= a.Length
    modifies a
    ensures a[..] == old(a[..dst]) + old(a[src..src + n]) + old(a[dst + n..])
    ensures forall k :: 0 <= k < dst || dst + n <= k < a.Length ==> a[k] == old(a[k])
  {
    forall i | 0 <= i < n {
      a[dst + i] := a[src + i];
    }
  }

  /** memcpy of a value into an array. */
  method Memcpy<T>(a: array<T>, dst: nat, data: seq<T>)
    requires dst + |data| <= a.Length
    modifies a
    ensures a[..] == old(a[..dst]) + data + old(a[dst + |data|..])
    ensures forall k :: 0 <= k < dst || dst + |data| <= k < a.Length ==> a[k] == old(a[k])
  {
    forall i | 0 <= i < |data| {
      a[dst + i] := data[i];
    }
  }
}
