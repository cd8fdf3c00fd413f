/** The 128-bit little-endian block counter of the CTR key stream. */
module Counter {
  import opened Arith
  import opened Bytes

  type Block = s: seq<byte> | |s| == 16 witness Zeros(16)

  function Pow256(n: nat): (p: nat)
    ensures p > 0
  {
    if n == 0 then 1 else 256 * Pow256(n - 1)
  }

  /** The number a little-endian byte string stands for. */
  function Value(s: seq<byte>): nat {
    if s == [] then 0 else s[0] as int + 256 * Value(s[1..])
  }

  /** Schoolbook addition of v, dropping the carry out of the last byte. */
  function AddBytes(s: seq<byte>, v: nat): (t: seq<byte>)
    ensures |t| == |s|
  {
    if s == [] then [] else
      var r := s[0] as int + v;
      [r % 256] + AddBytes(s[1..], r / 256)
  }

  function CarryOut(s: seq<byte>, v: nat): nat {
    if s == [] then v else CarryOut(s[1..], (s[0] as int + v) / 256)
  }

  /** What counter_add computes: the first sum is done in 64 bits. */
  function CounterBlock(base: Block, v: nat): Block
    requires v < U64
  {
    var r := base[0] as int + v;
    if r < U64 then AddBytes(base, v) else [(r - U64) % 256] + base[1..]
  }

  lemma {:induction false} AddZero(s: seq<byte>)
    ensures AddBytes(s, 0) == s
  {
    if s != [] {
      AddZero(s[1..]);
    }
  }

  lemma {:induction false} ValueBound(s: seq<byte>)
    ensures Value(s) < Pow256(|s|)
  {
    if s != [] {
      ValueBound(s[1..]);
    }
  }

  lemma {:induction false} ValueDetermines(s: seq<byte>, t: seq<byte>)
    requires |s| == |t| && Value(s) == Value(t)
    ensures s == t
  {
    if s != [] {
      ValueDetermines(s[1..], t[1..]);
      assert s == [s[0]] + s[1..] && t == [t[0]] + t[1..];
    }
  }

  lemma {:induction false} AddWithCarry(s: seq<byte>, v: nat)
    ensures Value(AddBytes(s, v)) + Pow256(|s|) * CarryOut(s, v) == Value(s) + v
  {
    if s != [] {
      var r := s[0] as int + v;
      AddWithCarry(s[1..], r / 256);
      var t := AddBytes(s, v);
      assert t[1..] == AddBytes(s[1..], r / 256) && t[0] as int == r % 256;
      ScaleCarry(Pow256(|s| - 1), CarryOut(s[1..], r / 256), Value(t[1..]), Value(s[1..]) + r / 256);
    }
  }

  lemma {:induction false} ScaleCarry(p: nat, c: nat, x: nat, y: nat)
    requires x + p * c == y
    ensures 256 * x + (256 * p) * c == 256 * y
  {
    assert (256 * p) * c == 256 * (p * c);
  }

  lemma {:induction false} AddIsModular(s: seq<byte>, v: nat)
    ensures Value(AddBytes(s, v)) == (Value(s) + v) % Pow256(|s|)
  {
    hide Value, Pow256, AddBytes, CarryOut;
    AddWithCarry(s, v);
    ValueBound(AddBytes(s, v));
    ModUnique(Pow256(|s|), Value(s) + v, Value(AddBytes(s, v)), CarryOut(s, v));
  }

  lemma {:induction false} Modulus()
    ensures Pow256(16) == 0x1_0000_0000_0000_0000 * 0x1_0000_0000_0000_0000
  {
    assert Pow256(4) == 0x1_0000_0000;
    assert Pow256(8) == 0x1_0000_0000 * 0x1_0000_0000;
    assert Pow256(12) == 0x1_0000_0000 * 0x1_0000_0000 * 0x1_0000_0000;
  }

  lemma {:induction false} CounterBlockValue(base: Block, v: nat)
    requires v < U64
    ensures base[0] as int + v >= U64 ==> Value(CounterBlock(base, v)) == Value(base) + v - U64
  {
    if base[0] as int + v >= U64 {
      var t := CounterBlock(base, v);
      assert t[1..] == base[1..];
    }
  }

  /** counter_add is addition modulo 2^128 exactly when the very first byte sum
      does not overflow 64 bits. */
  lemma {:induction false} CounterAddExact(base: Block, v: nat)
    requires v < U64
    ensures Value(CounterBlock(base, v)) == (Value(base) + v) % Pow256(16)
            <==> base[0] as int + v < U64
  {
    Modulus();
    ValueBound(base);
    var r := base[0] as int + v;
    if r < U64 {
      AddIsModular(base, v);
    } else {
      CounterBlockValue(base, v);
      var a := Value(base) + v;
      if a < Pow256(16) {
        ModUnique(Pow256(16), a, a, 0);
      } else {
        ModUnique(Pow256(16), a, a - Pow256(16), 1);
      }
    }
  }

  lemma {:induction false} AddStep(s: seq<byte>, i: nat, v: nat)
    requires i < |s|
    ensures AddBytes(s[i..], v) == [(s[i] as int + v) % 256] + AddBytes(s[i + 1..], (s[i] as int + v) / 256)
  {
    assert s[i..][1..] == s[i + 1..];
  }

  lemma {:induction false} FirstByte(base: Block, v: nat)
    requires v < U64
    ensures var r := (base[0] as int + v) % U64;
            CounterBlock(base, v) == [r % 256] + AddBytes(base[1..], r / 256)
  {
    hide AddBytes;
    WrapSum(base[0], v);
    if base[0] as int + v < U64 {
      AddStep(base, 0, v);
      assert base[0..] == base;
    } else {
      AddZero(base[1..]);
    }
  }

  lemma WrapSum(b: byte, v: nat)
    requires v < U64
    ensures b as int + v < U64 ==> (b as int + v) % U64 == b as int + v
    ensures b as int + v >= U64 ==> (b as int + v) % U64 == b as int + v - U64 && (b as int + v) % U64 / 0x100 == 0
  {
  }

  /** counter_add(out + off, base, v). */
  method CounterAdd(out: array<byte>, off: nat, base: Block, v0: nat)
    requires off + 16 <= out.Length && v0 < U64
    modifies out
    ensures out[off..off + 16] == CounterBlock(base, v0)
    ensures forall k :: 0 <= k < off || off + 16 <= k < out.Length ==> out[k] == old(out[k])
  {
    FirstByte(base, v0);
    hide AddBytes, CounterBlock;
    ghost var result := CounterBlock(base, v0);
    var r := (base[0] as int + v0) % U64;
    out[off] := r % 256;
    var v := r / 256;
    var i := 1;
    while i < 16 && v != 0
      invariant 1 <= i <= 16 && 0 <= v < U64 / 256
      invariant out[off..off + i] + AddBytes(base[i..], v) == result
      invariant forall k :: 0 <= k < off || off + 16 <= k < out.Length ==> out[k] == old(out[k])
      decreases 16 - i
    {
      v := AddByte(out, off, base, i, v, result);
      i := i + 1;
    }
    Tail(out, off, base, i, v, result);
    if i < 16 {
      Memcpy(out, off + i, base[i..]);
    }
  }

  /** One turn of the loop: byte i, and the carry into the next one. */
  method AddByte(out: array<byte>, off: nat, base: Block, i: nat, v0: nat, ghost result: seq<byte>) returns (v: nat)
    requires off + 16 <= out.Length && 1 <= i < 16 && v0 < U64 / 256
    requires out[off..off + i] + AddBytes(base[i..], v0) == result
    modifies out
    ensures v < U64 / 256 && out[off..off + i + 1] + AddBytes(base[i + 1..], v) == result
    ensures forall k :: 0 <= k < out.Length && k != off + i ==> out[k] == old(out[k])
  {
    AddStep(base, i, v0);
    hide AddBytes;
    var r := base[i] as int + v0;
    v := r / 256;
    ghost var done, rest := out[off..off + i], AddBytes(base[i + 1..], v);
    assert done + ([r % 256] + rest) == done + [r % 256] + rest;
    out[off + i] := r % 256;
    assert out[off..off + i + 1] == done + [r % 256];
  }

  /** Once the carry is gone the rest of the base is copied unchanged. */
  lemma {:induction false} Tail(out: array<byte>, off: nat, base: Block, i: nat, v: nat, result: seq<byte>)
    requires off + 16 <= out.Length && i <= 16 && (i < 16 ==> v == 0)
    requires out[off..off + i] + AddBytes(base[i..], v) == result
    ensures out[off..off + i] + base[i..] == result
  {
    if i < 16 {
      AddZero(base[i..]);
    } else {
      assert base[i..] == [] && AddBytes(base[i..], v) == [];
    }
  }
}
