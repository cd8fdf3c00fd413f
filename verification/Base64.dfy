/** The base64 encoder and decoder as loops over their buffers. */
module Base64 {
  import opened Bytes
  import opened T = Base64Text

  datatype ErrorCode = Success | InvalidInput | TooSmall

  /** Encoding goes group by group. */
  lemma {:induction false} SextetsNext(s: seq<byte>, x: nat)
    requires x < |s| && x % 3 == 0
    ensures Sextets(s[..0]) == []
    ensures var y := if x + 3 <= |s| then x + 3 else |s|;
            Sextets(s[..y]) == Sextets(s[..x]) + Sextets3(s[x..y])
    decreases |s|
  {
    hide Sextets3, SextetsSize;
    var y := if x + 3 <= |s| then x + 3 else |s|;
    if x == 0 {
      assert s[..y] == s[x..y];
      assert Sextets(s[x..y]) == Sextets3(s[x..y]);
    } else {
      SextetsNext(s[3..], x - 3);
      assert s[3..][..x - 3] == s[..x][3..] && s[3..][..y - 3] == s[..y][3..] && s[3..][x - 3..y - 3] == s[x..y];
      assert s[..x][..3] == s[..3] == s[..y][..3];
      FirstGroup(s[..x]);
      FirstGroup(s[..y]);
      Regroup(Sextets3(s[..3]), Sextets(s[3..][..x - 3]), Sextets3(s[x..y]));
    }
  }

  lemma FirstGroup(s: seq<byte>)
    requires |s| >= 3
    ensures Sextets(s) == Sextets3(s[..3]) + Sextets(s[3..])
  {
    if |s| == 3 {
      assert s[..3] == s && Sextets3(s) + [] == Sextets3(s);
    }
  }

  lemma Regroup(a: seq<nat>, b: seq<nat>, c: seq<nat>)
    ensures a + (b + c) == a + b + c
  {
  }

  /** One character, if there is room. */
  method Put(out: array<byte>, outSize: nat, index: nat, c: byte) returns (ok: bool, next: nat)
    requires index <= outSize <= out.Length
    modifies out
    ensures ok == (index < outSize)
    ensures if ok then next == index + 1 && out[..next] == old(out[..index]) + [c] else next == index && out[..] == old(out[..])
    ensures forall i :: outSize <= i < out.Length ==> out[i] == old(out[i])
  {
    if index >= outSize {
      return false, index;
    }
    out[index] := c;
    return true, index + 1;
  }

  /** Shifting by multiples of six bits. */
  lemma Shifted(g: seq<byte>, n: nat)
    requires 1 <= |g| <= 3
    requires n == g[0] as int * 0x1_0000 + (if |g| > 1 then g[1] as int * 0x100 else 0) + (if |g| > 2 then g[2] as int else 0)
    ensures n < 0x100_0000 && Sextets3(g) == [n / 0x4_0000, n / 0x1000 % 64, n / 0x40 % 64, n % 64][..|g| + 1]
  {
    assert n / 0x1000 == n / 64 / 64;
    assert n / 0x4_0000 == n / 64 / 64 / 64;
    assert n == Word(g[0], if |g| > 1 then g[1] else 0, if |g| > 2 then g[2] else 0);
  }

  /** One turn of the encoding loop. */
  method EncodeGroup(input: seq<byte>, x: nat, out: array<byte>, outSize: nat, index: nat) returns (ok: bool, next: nat)
    requires x < |input| && index <= outSize <= out.Length
    modifies out
    ensures var g := input[x..if x + 3 <= |input| then x + 3 else |input|];
            && ok == (index + |g| + 1 <= outSize)
            && (ok ==> next == index + |g| + 1 && out[..next] == old(out[..index]) + Chars(Sextets3(g)))
    ensures forall i :: outSize <= i < out.Length ==> out[i] == old(out[i])
  {
    hide Sextets3;
    ghost var g := input[x..if x + 3 <= |input| then x + 3 else |input|];
    var n := input[x] as int * 0x1_0000;
    if x + 1 < |input| {
      n := n + input[x + 1] as int * 0x100;
    }
    if x + 2 < |input| {
      n := n + input[x + 2] as int;
    }
    var n0, n1, n2, n3 := n / 0x4_0000, n / 0x1000 % 64, n / 0x40 % 64, n % 64;
    Shifted(g, n);
    ghost var before := out[..index];
    ok, next := Put(out, outSize, index, Char(n0));
    if !ok { return; }
    ok, next := Put(out, outSize, next, Char(n1));
    if !ok { return; }
    assert out[..next] == before + [Char(n0), Char(n1)];
    if x + 1 < |input| {
      ok, next := Put(out, outSize, next, Char(n2));
      if !ok { return; }
      assert out[..next] == before + [Char(n0), Char(n1), Char(n2)];
    }
    if x + 2 < |input| {
      ok, next := Put(out, outSize, next, Char(n3));
      if !ok { return; }
      assert out[..next] == before + [Char(n0), Char(n1), Char(n2), Char(n3)];
    }
    assert out[..next] == before + Chars(Sextets3(g));
  }

  lemma CharsJoin(a: seq<nat>, b: seq<nat>)
    requires (forall i :: 0 <= i < |a| ==> a[i] < 64) && (forall i :: 0 <= i < |b| ==> b[i] < 64)
    ensures Chars(a + b) == Chars(a) + Chars(b)
  {
  }

  /** chiaki_base64_encode: succeeds exactly if there is room for the text and the
      terminating zero. */
  method Encode(input: seq<byte>, out: array<byte>, outSize: nat) returns (r: ErrorCode)
    requires outSize <= out.Length
    modifies out
    ensures r == if outSize > (|input| + 2) / 3 * 4 then Success else TooSmall
    ensures r == Success ==> out[..|T.Encode(input)|] == T.Encode(input) && out[|T.Encode(input)|] == 0
    ensures forall i :: outSize <= i < out.Length ==> out[i] == old(out[i])
  {
    hide Sextets, Sextets3, Chars;
    var ok, resultIndex := EncodeGroups(input, out, outSize);
    if !ok {
      return TooSmall;
    }
    ok, resultIndex := Pad(out, outSize, resultIndex, |input| % 3, Chars(Sextets(input)));
    if !ok || resultIndex >= outSize {
      return TooSmall;
    }
    out[resultIndex] := 0;
    r := Success;
  }

  /** The encoding loop. */
  method EncodeGroups(input: seq<byte>, out: array<byte>, outSize: nat) returns (ok: bool, resultIndex: nat)
    requires outSize <= out.Length
    modifies out
    ensures ok == (|Sextets(input)| <= outSize)
    ensures ok ==> resultIndex == |Sextets(input)| && out[..resultIndex] == Chars(Sextets(input))
    ensures forall i :: outSize <= i < out.Length ==> out[i] == old(out[i])
  {
    hide Sextets, Sextets3, Chars;
    ok, resultIndex := true, 0;
    var x: nat := 0;
    SextetsOfNothing();
    assert input[..0] == [];
    while x < |input|
      invariant x % 3 == 0 && x <= |input| + 2 && resultIndex <= outSize && ok
      invariant var y := if x <= |input| then x else |input|; out[..resultIndex] == Chars(Sextets(input[..y]))
      invariant forall i :: outSize <= i < out.Length ==> out[i] == old(out[i])
    {
      SextetsNext(input, x);
      ghost var y := if x + 3 <= |input| then x + 3 else |input|;
      CharsJoin(Sextets(input[..x]), Sextets3(input[x..y]));
      SextetsGrow(input, y);
      ok, resultIndex := EncodeGroup(input, x, out, outSize, resultIndex);
      if !ok {
        return;
      }
      x := x + 3;
    }
    assert input[..|input|] == input;
  }

  /** The padding at the end of the encoding. */
  method Pad(out: array<byte>, outSize: nat, index: nat, padCount0: nat, ghost chars: seq<byte>) returns (ok: bool,
      next: nat)
    requires index <= outSize <= out.Length && padCount0 < 3 && out[..index] == chars
    modifies out
    ensures ok == (index + |Padding(padCount0)| <= outSize)
    ensures ok ==> next == index + |Padding(padCount0)| && out[..next] == chars + Padding(padCount0)
    ensures forall i :: outSize <= i < out.Length ==> out[i] == old(out[i])
  {
    next := index;
    ok := true;
    var padCount := padCount0;
    if padCount > 0 {
      while padCount < 3
        invariant padCount0 <= padCount <= 3 && next == index + (padCount - padCount0) <= outSize && ok
        invariant out[..next] == chars + Padding(padCount0)[..padCount - padCount0]
        invariant forall i :: outSize <= i < out.Length ==> out[i] == old(out[i])
      {
        ok, next := Put(out, outSize, next, EQUALS);
        if !ok {
          return;
        }
        padCount := padCount + 1;
      }
    }
  }

  lemma SextetsGrow(s: seq<byte>, y: nat)
    requires y <= |s|
    ensures |Sextets(s[..y])| <= |Sextets(s)|
  {
  }

  lemma SextetsOfNothing()
    ensures Sextets([]) == []
  {
  }

  // ---------------------------------------------------------------- decoding

  /** The bits of up to four values. */
  function Bits(vs: seq<nat>): nat {
    if vs == [] then 0 else Bits(vs[..|vs| - 1]) * 64 + vs[|vs| - 1]
  }

  lemma BitsNext(vs: seq<nat>, v: nat)
    ensures Bits([]) == 0 && Bits(vs + [v]) == Bits(vs) * 64 + v
  {
    assert (vs + [v])[..|vs|] == vs;
  }

  lemma BitsAre(vs: seq<nat>)
    requires AllValues(vs) && 2 <= |vs| <= 4
    ensures |vs| == 2 ==> Bits(vs) == vs[0] * 64 + vs[1]
    ensures |vs| == 3 ==> Bits(vs) == (vs[0] * 64 + vs[1]) * 64 + vs[2]
    ensures |vs| == 4 ==> Bits(vs) == Number(vs[0], vs[1], vs[2], vs[3])
  {
    assert Bits(vs[..1]) == vs[0] by {
      assert vs[..1][..0] == [];
    }
    assert vs[..2][..1] == vs[..1];
    if |vs| >= 3 {
      assert vs[..3][..2] == vs[..2];
    }
    assert vs[..|vs|] == vs;
  }

  predicate AllValues(vs: seq<nat>) {
    forall i :: 0 <= i < |vs| ==> vs[i] < 64
  }

  lemma {:induction false} UnpackJoins(a: seq<nat>, b: seq<nat>)
    requires AllValues(a) && AllValues(b) && |a| % 4 == 0
    ensures AllValues(a + b) && Unpack(a + b) == Unpack(a) + Unpack(b)
    decreases |a|
  {
    hide Octets, Number, UnpackedSize;
    if a == [] {
      assert a + b == b;
    } else {
      assert (a + b)[4..] == a[4..] + b;
      UnpackJoins(a[4..], b);
      assert Unpack(a + b) == Octets(Number(a[0], a[1], a[2], a[3])) + Unpack(a[4..] + b);
    }
  }

  /** Three bytes, once four values are there. */
  method StoreGroup(out: array<byte>, capacity: nat, len0: nat, buf: nat,
      ghost pending: seq<nat>) returns (ok: bool, len: nat)
    requires len0 <= capacity <= out.Length && AllValues(pending) && |pending| == 4 && buf == Bits(pending)
    modifies out
    ensures len == len0 + 3 && ok == (len <= capacity)
    ensures ok ==> out[..len] == old(out[..len0]) + Unpack(pending)
    ensures forall i :: capacity <= i < out.Length ==> out[i] == old(out[i])
  {
    hide Unpack, Bits;
    UnpackGroup(pending);
    len := len0 + 3;
    if len > capacity {
      return false, len;
    }
    out[len0] := buf / 0x1_0000 % 0x100;
    out[len0 + 1] := buf / 0x100 % 0x100;
    out[len0 + 2] := buf % 0x100;
    ok := true;
  }

  lemma UnpackGroup(vs: seq<nat>)
    requires AllValues(vs) && |vs| == 4
    ensures var n := Bits(vs); Unpack(vs) == [n / 0x1_0000 % 0x100, n / 0x100 % 0x100, n % 0x100]
  {
    hide Bits, Unpack, Number, Octets;
    BitsAre(vs);
    UnpackFour(vs, []);
    UnpackNothing();
    assert vs + [] == vs;
    OctetsMasked(Bits(vs));
  }

  /** Masking after shifting. */
  lemma OctetsMasked(n: nat)
    requires n < 0x100_0000
    ensures Octets(n) == [n / 0x1_0000 % 0x100, n / 0x100 % 0x100, n % 0x100]
  {
    TwoShifts(n);
  }

  lemma TwoShifts(n: nat)
    requires n < 0x100_0000
    ensures n / 0x100 / 0x100 == n / 0x1_0000 < 0x100
  {
    var q, r := n / 0x1_0000, n % 0x1_0000;
    assert n / 0x100 == q * 0x100 + r / 0x100;
  }

  /** The bytes of an incomplete last group. */
  method StoreRest(out: array<byte>, capacity: nat, len0: nat, buf: nat, iter: nat,
      ghost pending: seq<nat>) returns (ok: bool, len: nat)
    requires len0 <= capacity <= out.Length && AllValues(pending) && |pending| == iter < 4 && buf == Bits(pending)
    modifies out
    ensures len == len0 + |Unpack(pending)| && ok == (len <= capacity)
    ensures ok ==> out[..len] == old(out[..len0]) + Unpack(pending)
    ensures forall i :: capacity <= i < out.Length ==> out[i] == old(out[i])
  {
    hide Unpack, Bits;
    UnpackRest(pending);
    len := len0;
    if iter == 3 {
      len := len + 2;
      if len > capacity {
        return false, len;
      }
      out[len0] := buf / 0x400 % 0x100;
      out[len0 + 1] := buf / 4 % 0x100;
    } else if iter == 2 {
      len := len + 1;
      if len > capacity {
        return false, len;
      }
      out[len0] := buf / 16 % 0x100;
    }
    ok := true;
  }

  lemma UnpackRest(vs: seq<nat>)
    requires AllValues(vs) && |vs| < 4
    ensures var n := Bits(vs);
            Unpack(vs) == if |vs| == 3 then [n / 0x400 % 0x100, n / 4 % 0x100] else if |vs| == 2 then [n / 16 % 0x100] else []
  {
    hide Bits;
    if |vs| == 3 {
      BitsAre(vs);
      Small3(vs[0], vs[1], vs[2]);
    } else if |vs| == 2 {
      BitsAre(vs);
      Small2(vs[0], vs[1]);
    }
  }

  lemma Small2(a: nat, b: nat)
    requires a < 64 && b < 64
    ensures (a * 64 + b) / 16 % 0x100 == (a * 64 + b) / 16
  {
  }

  lemma Small3(a: nat, b: nat, c: nat)
    requires a < 64 && b < 64 && c < 64
    ensures var n := (a * 64 + b) * 64 + c; n / 0x400 % 0x100 == n / 4 / 0x100
  {
  }

  /** What is left to be scanned after these values. */
  predicate Scanned(text: seq<byte>, i: nat, vs: seq<nat>) {
    i <= |text| && var rest := ScanText(text[i..]); ScanText(text) == Scan(vs + rest.values, rest.valid)
  }

  lemma {:induction false} ScanStep(text: seq<byte>, i: nat, vs: seq<nat>)
    requires Scanned(text, i, vs) && i < |text|
    ensures match ClassOf(text[i])
            case Whitespace => Scanned(text, i + 1, vs)
            case Invalid => ScanText(text) == Scan(vs, false)
            case End => Scanned(text, |text|, vs)
            case Value(v) => Scanned(text, i + 1, vs + [v])
  {
    var rest := ScanText(text[i + 1..]);
    assert text[i..][1..] == text[i + 1..];
    assert vs + [] == vs;
    match ClassOf(text[i])
    case Value(v) => assert vs + ([v] + rest.values) == vs + [v] + rest.values;
    case _ =>
  }

  lemma ScanEnds(text: seq<byte>, vs: seq<nat>)
    ensures Scanned(text, 0, [])
    ensures Scanned(text, |text|, vs) ==> ScanText(text) == Scan(vs, true)
  {
    assert text[0..] == text && [] + ScanText(text).values == ScanText(text).values;
    assert vs + [] == vs;
  }

  /** The bytes written so far are those of the whole groups; buf holds the rest. */
  predicate Packed(written: seq<byte>, done: seq<nat>, pending: seq<nat>, iter: nat, buf: nat, len: nat) {
    && AllValues(done) && AllValues(pending) && |done| % 4 == 0 && |pending| == iter < 4 && buf == Bits(pending)
    && len == |done| / 4 * 3 && written == Unpack(done)
  }

  /** The default case of the decoding loop. */
  method TakeValue(out: array<byte>, capacity: nat, v: nat, iter0: nat, buf0: nat, len0: nat,
      ghost done0: seq<nat>, ghost pending0: seq<nat>)
    returns (ok: bool, iter: nat, buf: nat, len: nat, ghost done: seq<nat>, ghost pending: seq<nat>)
    requires len0 <= capacity <= out.Length && v < 64 && Packed(out[..len0], done0, pending0, iter0, buf0, len0)
    modifies out
    ensures ok == (|done0 + pending0 + [v]| / 4 * 3 <= capacity)
    ensures ok ==> len <= capacity && done + pending == done0 + pending0 + [v] && Packed(out[..len], done, pending, iter, buf, len)
    ensures forall i :: capacity <= i < out.Length ==> out[i] == old(out[i])
  {
    hide Unpack, Bits;
    BitsNext(pending0, v);
    buf := buf0 * 64 + v;
    iter := iter0 + 1;
    len := len0;
    done, pending := done0, pending0 + [v];
    assert done + pending == done0 + pending0 + [v];
    ok := true;
    if iter == 4 {
      ok, len := StoreGroup(out, capacity, len, buf, pending);
      UnpackJoins(done, pending);
      BitsNext([], 0);
      done, pending := done + pending, [];
      assert done + [] == done;
      buf, iter := 0, 0;
    }
  }

  lemma TooManyValues(text: seq<byte>, i: nat, vs: seq<nat>, capacity: nat)
    requires Scanned(text, i, vs) && |vs| / 4 * 3 > capacity
    ensures T.Decode(text, capacity) == BufTooSmall
  {
    hide ScanText, Unpack;
    assert |vs| <= |ScanText(text).values|;
  }

  /** What decoding comes to once all values were taken. */
  lemma DecodeEnds(text: seq<byte>, done: seq<nat>, pending: seq<nat>, capacity: nat)
    requires Scanned(text, |text|, done + pending) && AllValues(done) && AllValues(pending)
    requires |done| % 4 == 0 && |pending| < 4 && |done| / 4 * 3 <= capacity
    ensures T.Decode(text, capacity) ==
            if |Unpack(done) + Unpack(pending)| > capacity then BufTooSmall else Ok(Unpack(done) + Unpack(pending))
  {
    ScanEnds(text, done + pending);
    UnpackJoins(done, pending);
    hide ScanText, Unpack;
    assert |done + pending| / 4 == |done| / 4;
  }

  /** chiaki_base64_decode; len is what it stores in out_size on success. */
  method Decode(text: seq<byte>, out: array<byte>, capacity: nat) returns (r: ErrorCode, len: nat)
    requires capacity <= out.Length
    modifies out
    ensures match T.Decode(text, capacity)
            case Ok(data) => r == Success && len == |data| && out[..len] == data
            case InvalidData => r == InvalidInput
            case BufTooSmall => r == TooSmall
    ensures forall i :: capacity <= i < out.Length ==> out[i] == old(out[i])
  {
    hide ScanText, Unpack, ClassOf, Bits, Scanned, T.Decode;
    ghost var done: seq<nat>, pending: seq<nat> := [], [];
    var iter: nat, buf: nat, i: nat := 0, 0, 0;
    var ok;
    len := 0;
    ScanEnds(text, []);
    BitsNext([], 0);
    UnpackNothing();
    assert done + pending == [];
    while i < |text|
      invariant i <= |text| && Scanned(text, i, done + pending)
      invariant len <= capacity && |done + pending| / 4 * 3 <= capacity && Packed(out[..len], done, pending, iter, buf, len)
      invariant forall i :: capacity <= i < out.Length ==> out[i] == old(out[i])
    {
      ScanStep(text, i, done + pending);
      var c := ClassOf(text[i]);
      i := i + 1;
      match c {
        case Whitespace =>
        case Invalid =>
          InvalidEnds(text, done + pending, capacity);
          return InvalidInput, len;
        case End =>
          i := |text|;
        case Value(v) =>
          ghost var vs := done + pending + [v];
          ok, iter, buf, len, done, pending := TakeValue(out, capacity, v, iter, buf, len, done, pending);
          if !ok {
            TooManyValues(text, i, vs, capacity);
            return TooSmall, len;
          }
      }
    }
    DecodeEnds(text, done, pending, capacity);
    ok, len := StoreRest(out, capacity, len, buf, iter, pending);
    if !ok {
      return TooSmall, len;
    }
    r := Success;
  }

  lemma InvalidEnds(text: seq<byte>, vs: seq<nat>, capacity: nat)
    requires ScanText(text) == Scan(vs, false) && |vs| / 4 * 3 <= capacity
    ensures T.Decode(text, capacity) == InvalidData
  {
  }
}
