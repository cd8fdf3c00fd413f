/** Base64 (section 4 of RFC 4648) as functions, and why decoding undoes encoding. */
module Base64Text {
  import opened Arith
  import opened Bytes

  const NEWLINE: byte := 10
  const EQUALS: byte := 61

  /** The alphabet. */
  function Char(v: nat): (c: byte)
    requires v < 64
  {
    if v < 26 then 65 + v else if v < 52 then 97 + (v - 26) else if v < 62 then 48 + (v - 52) else if v == 62 then 43 else 47
  }

  datatype Class = Value(v: nat) | Whitespace | End | Invalid

  /** The decoding table: only the line feed counts as whitespace. */
  function ClassOf(c: byte): (k: Class)
    ensures k.Value? ==> k.v < 64
  {
    if c == NEWLINE then Whitespace
    else if c == EQUALS then End
    else if c == 43 then Value(62)
    else if c == 47 then Value(63)
    else if 48 <= c < 58 then Value(c as int - 48 + 52)
    else if 65 <= c < 91 then Value(c as int - 65)
    else if 97 <= c < 123 then Value(c as int - 97 + 26)
    else Invalid
  }

  /** The decoder's table is the exact inverse of the alphabet. */
  lemma TableExact(v: nat, c: byte)
    requires v < 64
    ensures ClassOf(c) == Value(v) <==> c == Char(v)
  {
  }

  // ---------------------------------------------------------------- encoding

  /** Three bytes as one 24-bit number. */
  function Word(a: byte, b: byte, c: byte): (n: nat)
    ensures n < 0x100_0000
  {
    (a as int * 0x100 + b as int) * 0x100 + c as int
  }

  /** The sextets of up to three bytes: two, three or four of them. */
  function Sextets3(s: seq<byte>): (vs: seq<nat>)
    requires 1 <= |s| <= 3
    ensures |vs| == |s| + 1 && forall i :: 0 <= i < |vs| ==> vs[i] < 64
  {
    var n := Word(s[0], if |s| > 1 then s[1] else 0, if |s| > 2 then s[2] else 0);
    [n / 64 / 64 / 64, n / 64 / 64 % 64, n / 64 % 64, n % 64][..|s| + 1]
  }

  function SextetsSize(n: nat): nat {
    n / 3 * 4 + (if n % 3 == 0 then 0 else n % 3 + 1)
  }

  function Sextets(s: seq<byte>): (vs: seq<nat>)
    ensures forall i :: 0 <= i < |vs| ==> vs[i] < 64
    ensures |vs| == SextetsSize(|s|)
  {
    if s == [] then [] else if |s| <= 3 then Sextets3(s) else Sextets3(s[..3]) + Sextets(s[3..])
  }

  function Chars(vs: seq<nat>): (text: seq<byte>)
    requires forall i :: 0 <= i < |vs| ==> vs[i] < 64
    ensures |text| == |vs| && forall i :: 0 <= i < |vs| ==> text[i] == Char(vs[i])
  {
    seq(|vs|, i requires 0 <= i < |vs| => Char(vs[i]))
  }

  function Padding(n: nat): (text: seq<byte>)
    ensures |text| == (if n % 3 == 0 then 0 else 3 - n % 3)
  {
    seq(if n % 3 == 0 then 0 else 3 - n % 3, _ => EQUALS)
  }

  lemma PaddedSize(n: nat)
    ensures SextetsSize(n) + |Padding(n)| == (n + 2) / 3 * 4
  {
    var q, r := n / 3, n % 3;
    assert n == 3 * q + r;
    assert (n + 2) / 3 == if r == 0 then q else q + 1;
  }

  function Encode(s: seq<byte>): (text: seq<byte>)
    ensures |text| == (|s| + 2) / 3 * 4
  {
    PaddedSize(|s|);
    Chars(Sextets(s)) + Padding(|s|)
  }

  // ---------------------------------------------------------------- the encoding, bit by bit

  const UPPER: string := "ABCDEFGHIJKLMNOPQRSTUVWXYZ"
  const LOWER: string := "abcdefghijklmnopqrstuvwxyz"
  const DIGITS: string := "0123456789"

  /** The alphabet of section 4 of RFC 4648. */
  const ALPHABET: string := UPPER + LOWER + DIGITS + "+/"

  lemma LetterCodes(v: nat)
    requires v < 26
    ensures |UPPER| == |LOWER| == 26 && UPPER[v] as int == 65 + v && LOWER[v] as int == 97 + v
  {
  }

  lemma DigitCodes(v: nat)
    requires v < 10
    ensures |DIGITS| == 10 && DIGITS[v] as int == 48 + v
  {
  }

  lemma CharInAlphabet(v: nat)
    requires v < 64
    ensures |ALPHABET| == 64 && Char(v) == ALPHABET[v] as int
  {
    hide UPPER, LOWER, DIGITS;
    LetterCodes(if v < 26 then v else if v < 52 then v - 26 else 0);
    DigitCodes(if 52 <= v < 62 then v - 52 else 0);
  }

  /** Bit k of a byte string, the highest bit of the first byte first, and zeros
      behind its end. */
  function BitOf(s: seq<byte>, k: nat): (b: nat)
    ensures b < 2
  {
    if k / 8 < |s| then Bit(s[k / 8], 7 - k % 8) else 0
  }

  /** Bits 6 i to 6 i + 5 as a number. */
  function SextetAt(s: seq<byte>, i: nat): (v: nat)
    ensures v < 64
  {
    32 * BitOf(s, 6 * i) + 16 * BitOf(s, 6 * i + 1) + 8 * BitOf(s, 6 * i + 2)
    + 4 * BitOf(s, 6 * i + 3) + 2 * BitOf(s, 6 * i + 4) + BitOf(s, 6 * i + 5)
  }

  /** The number with these k bits of n, from bit i on. */
  function BitSum(n: nat, i: nat, k: nat): nat
    decreases k
  {
    if k == 0 then 0 else Bit(n, i) + 2 * BitSum(n, i + 1, k - 1)
  }

  lemma {:induction false} BitSumOfHalf(n: nat, i: nat, k: nat)
    ensures BitSum(n, i + 1, k) == BitSum(n / 2, i, k)
    decreases k
  {
    if k > 0 {
      BitSumOfHalf(n, i + 1, k - 1);
    }
  }

  lemma {:induction false} BitSumIsNumber(n: nat, k: nat)
    requires n < Pow2(k)
    ensures BitSum(n, 0, k) == n
  {
    if k > 0 {
      BitSumIsNumber(n / 2, k - 1);
      BitSumOfHalf(n, 0, k - 1);
    }
  }

  lemma {:induction false} ByteBits(b: byte)
    ensures b == 128 * Bit(b, 7) + 64 * Bit(b, 6) + 32 * Bit(b, 5) + 16 * Bit(b, 4)
                 + 8 * Bit(b, 3) + 4 * Bit(b, 2) + 2 * Bit(b, 1) + Bit(b, 0)
  {
    hide Bit;
    assert Pow2(4) == 16 && Pow2(8) == 256;
    BitSumIsNumber(b, 8);
    assert BitSum(b, 6, 2) == Bit(b, 6) + 2 * Bit(b, 7);
    assert BitSum(b, 4, 4) == Bit(b, 4) + 2 * Bit(b, 5) + 4 * BitSum(b, 6, 2);
    assert BitSum(b, 2, 6) == Bit(b, 2) + 2 * Bit(b, 3) + 4 * BitSum(b, 4, 4);
  }

  /** The bits of four sextets, in those of three bytes. */
  lemma {:induction false} GroupBits(a: byte, b: byte, c: byte)
    ensures var n := Word(a, b, c);
            && n / 64 / 64 / 64 == 32 * Bit(a, 7) + 16 * Bit(a, 6) + 8 * Bit(a, 5) + 4 * Bit(a, 4) + 2 * Bit(a, 3) + Bit(a, 2)
            && n / 64 / 64 % 64 == 32 * Bit(a, 1) + 16 * Bit(a, 0) + 8 * Bit(b, 7) + 4 * Bit(b, 6) + 2 * Bit(b, 5) + Bit(b, 4)
            && n / 64 % 64 == 32 * Bit(b, 3) + 16 * Bit(b, 2) + 8 * Bit(b, 1) + 4 * Bit(b, 0) + 2 * Bit(c, 7) + Bit(c, 6)
            && n % 64 == 32 * Bit(c, 5) + 16 * Bit(c, 4) + 8 * Bit(c, 3) + 4 * Bit(c, 2) + 2 * Bit(c, 1) + Bit(c, 0)
  {
    ByteBits(a);
    ByteBits(b);
    ByteBits(c);
    hide Bit;
  }

  lemma {:induction false} ZeroBits(i: nat)
    ensures Bit(0, i) == 0
  {
    if i > 0 {
      ZeroBits(i - 1);
    }
  }

  /** The bits of up to three bytes, by their places. */
  lemma {:induction false} BitPlaces(s: seq<byte>, a: byte, b: byte, c: byte, k: nat)
    requires 1 <= |s| && a == s[0] && b == (if |s| > 1 then s[1] else 0) && c == (if |s| > 2 then s[2] else 0) && k < 24
    ensures BitOf(s, k) == if k < 8 then Bit(a, 7 - k) else if k < 16 then Bit(b, 15 - k) else Bit(c, 23 - k)
  {
    ZeroBits(7 - k % 8);
  }

  lemma {:induction false} FirstSextets(s: seq<byte>, i: nat)
    requires 1 <= |s| && i <= |s| && i < 4
    ensures Sextets3(if |s| <= 3 then s else s[..3])[i] == SextetAt(s, i)
  {
    hide Bit, BitOf, Word;
    var a, b, c := s[0], if |s| > 1 then s[1] else 0, if |s| > 2 then s[2] else 0;
    GroupBits(a, b, c);
    SextetPlaces(s, a, b, c, i);
  }

  lemma {:induction false} SextetPlaces(s: seq<byte>, a: byte, b: byte, c: byte, i: nat)
    requires 1 <= |s| && a == s[0] && b == (if |s| > 1 then s[1] else 0) && c == (if |s| > 2 then s[2] else 0) && i < 4
    ensures SextetAt(s, i) ==
            match i
            case 0 => 32 * Bit(a, 7) + 16 * Bit(a, 6) + 8 * Bit(a, 5) + 4 * Bit(a, 4) + 2 * Bit(a, 3) + Bit(a, 2)
            case 1 => 32 * Bit(a, 1) + 16 * Bit(a, 0) + 8 * Bit(b, 7) + 4 * Bit(b, 6) + 2 * Bit(b, 5) + Bit(b, 4)
            case 2 => 32 * Bit(b, 3) + 16 * Bit(b, 2) + 8 * Bit(b, 1) + 4 * Bit(b, 0) + 2 * Bit(c, 7) + Bit(c, 6)
            case _ => 32 * Bit(c, 5) + 16 * Bit(c, 4) + 8 * Bit(c, 3) + 4 * Bit(c, 2) + 2 * Bit(c, 1) + Bit(c, 0)
  {
    hide Bit, BitOf;
    BitPlaces(s, a, b, c, 6 * i);
    BitPlaces(s, a, b, c, 6 * i + 1);
    BitPlaces(s, a, b, c, 6 * i + 2);
    BitPlaces(s, a, b, c, 6 * i + 3);
    BitPlaces(s, a, b, c, 6 * i + 4);
    BitPlaces(s, a, b, c, 6 * i + 5);
  }

  lemma {:induction false} BitBehind(s: seq<byte>, k: nat)
    requires |s| > 3
    ensures BitOf(s[3..], k) == BitOf(s, k + 24)
  {
    assert (k + 24) / 8 == k / 8 + 3 && (k + 24) % 8 == k % 8;
  }

  lemma {:induction false} SextetBehind(s: seq<byte>, i: nat)
    requires |s| > 3
    ensures SextetAt(s[3..], i) == SextetAt(s, i + 4)
  {
    hide BitOf;
    forall j | 6 * i <= j < 6 * i + 6
      ensures BitOf(s[3..], j) == BitOf(s, j + 24)
    {
      BitBehind(s, j);
    }
  }

  lemma {:induction false} SextetsAt(s: seq<byte>, i: nat)
    requires i < |Sextets(s)|
    ensures Sextets(s)[i] == SextetAt(s, i)
    decreases |s|
  {
    hide SextetAt, Sextets3;
    if |s| <= 3 || i < 4 {
      FirstSextets(s, i);
    } else {
      SextetsAt(s[3..], i - 4);
      SextetBehind(s, i - 4);
    }
  }

  /** Character i of an encoding is the letter for bits 6 i to 6 i + 5 of the data,
      filled up with zeros, or an equals sign if no data is left. */
  lemma {:induction false} EncodeExactly(s: seq<byte>, i: nat)
    requires i < |Encode(s)|
    ensures Encode(s)[i] == if 6 * i < 8 * |s| then ALPHABET[SextetAt(s, i)] as int else '=' as int
  {
    hide SextetAt, Char, Sextets;
    LettersEnd(|s|, i);
    if i < SextetsSize(|s|) {
      SextetsAt(s, i);
    }
    CharInAlphabet(SextetAt(s, i));
  }

  lemma LettersEnd(n: nat, i: nat)
    ensures i < SextetsSize(n) <==> 6 * i < 8 * n
  {
    var q, r := n / 3, n % 3;
    assert n == 3 * q + r;
  }

  // ---------------------------------------------------------------- decoding

  /** The values up to the end of the data, and whether no invalid character came
      before it. */
  datatype Scan = Scan(values: seq<nat>, valid: bool)

  function ScanText(text: seq<byte>): (r: Scan)
    ensures forall i :: 0 <= i < |r.values| ==> r.values[i] < 64
  {
    if text == [] then Scan([], true) else
      match ClassOf(text[0])
      case Whitespace => ScanText(text[1..])
      case Invalid => Scan([], false)
      case End => Scan([], true)
      case Value(v) => var rest := ScanText(text[1..]); Scan([v] + rest.values, rest.valid)
  }

  /** The 24 bits of four sextets, and the bytes they are made of. */
  function Number(a: nat, b: nat, c: nat, d: nat): (n: nat)
    requires a < 64 && b < 64 && c < 64 && d < 64
    ensures n < 0x100_0000
  {
    ((a * 64 + b) * 64 + c) * 64 + d
  }

  function Octets(n: nat): (s: seq<byte>)
    requires n < 0x100_0000
    ensures |s| == 3
  {
    [n / 0x100 / 0x100, n / 0x100 % 0x100, n % 0x100]
  }

  function UnpackedSize(n: nat): nat {
    n / 4 * 3 + (if n % 4 == 3 then 2 else if n % 4 == 2 then 1 else 0)
  }

  function Unpack(vs: seq<nat>): (s: seq<byte>)
    requires forall i :: 0 <= i < |vs| ==> vs[i] < 64
    ensures |s| == UnpackedSize(|vs|)
  {
    if |vs| >= 4 then
      Octets(Number(vs[0], vs[1], vs[2], vs[3])) + Unpack(vs[4..])
    else if |vs| == 3 then
      var n := (vs[0] * 64 + vs[1]) * 64 + vs[2];
      [n / 4 / 0x100, n / 4 % 0x100]
    else if |vs| == 2 then
      [(vs[0] * 64 + vs[1]) / 16]
    else []
  }

  datatype Decoded = Ok(data: seq<byte>) | InvalidData | BufTooSmall

  /** chiaki_base64_decode into a buffer of this capacity: the first error wins. */
  function Decode(text: seq<byte>, capacity: nat): Decoded {
    var scan := ScanText(text);
    if |scan.values| / 4 * 3 > capacity then BufTooSmall
    else if !scan.valid then InvalidData
    else if |Unpack(scan.values)| > capacity then BufTooSmall
    else Ok(Unpack(scan.values))
  }

  // ---------------------------------------------------------------- round trip

  lemma Unpack3(s: seq<byte>, rest: seq<nat>)
    requires |s| == 3 && forall i :: 0 <= i < |rest| ==> rest[i] < 64
    ensures Unpack(Sextets3(s) + rest) == s + Unpack(rest)
  {
    hide Octets, Number, Sextets3, Unpack, UnpackedSize;
    FourSextets(s);
    UnpackFour(Sextets3(s), rest);
  }

  lemma UnpackFour(four: seq<nat>, rest: seq<nat>)
    requires |four| == 4 && forall i :: 0 <= i < 4 ==> four[i] < 64
    requires forall i :: 0 <= i < |rest| ==> rest[i] < 64
    ensures Unpack(four + rest) == Octets(Number(four[0], four[1], four[2], four[3])) + Unpack(rest)
  {
    hide Octets, Number, UnpackedSize;
    assert (four + rest)[4..] == rest;
  }

  lemma FourSextets(s: seq<byte>)
    requires |s| == 3
    ensures var vs := Sextets3(s); Octets(Number(vs[0], vs[1], vs[2], vs[3])) == s
  {
    Recombine(Word(s[0], s[1], s[2]));
    Split(s[0], s[1], s[2]);
    hide Octets, Word;
  }

  lemma Recombine(n: nat)
    requires n < 0x100_0000
    ensures Number(n / 64 / 64 / 64, n / 64 / 64 % 64, n / 64 % 64, n % 64) == n
  {
  }

  lemma Split(a: byte, b: byte, c: byte)
    ensures Octets(Word(a, b, c)) == [a, b, c]
  {
    var n := Word(a, b, c);
    assert n / 0x100 == a as int * 0x100 + b as int;
  }

  /** The last sextet of a short group has spare bits. */
  lemma Short1(a: byte)
    ensures var n := Word(a, 0, 0); (n / 64 / 64 / 64 * 64 + n / 64 / 64 % 64) / 16 == a
  {
    var n := Word(a, 0, 0);
    assert n / 64 == a as int * 0x400;
    assert n / 64 / 64 == a as int * 0x10;
  }

  lemma Short2(a: byte, b: byte)
    ensures var n := Word(a, b, 0);
            var m := (n / 64 / 64 / 64 * 64 + n / 64 / 64 % 64) * 64 + n / 64 % 64;
            m / 4 / 0x100 == a && m / 4 % 0x100 == b
  {
    var n := Word(a, b, 0);
    assert n / 64 == a as int * 0x400 + b as int * 4;
    var q := n / 64;
    assert (q / 64 / 64 * 64 + q / 64 % 64) * 64 + q % 64 == q;
    assert q / 4 == a as int * 0x100 + b as int;
  }

  lemma UnpackShort(s: seq<byte>)
    requires |s| == 1 || |s| == 2
    ensures Unpack(Sextets3(s)) == s
  {
    hide Word;
    var vs := Sextets3(s);
    if |s| == 1 {
      Short1(s[0]);
      assert Unpack(vs) == [(vs[0] * 64 + vs[1]) / 16];
    } else {
      Short2(s[0], s[1]);
      var m := (vs[0] * 64 + vs[1]) * 64 + vs[2];
      assert Unpack(vs) == [m / 4 / 0x100, m / 4 % 0x100];
    }
  }

  lemma {:induction false} UnpackSextets(s: seq<byte>)
    ensures Unpack(Sextets(s)) == s
  {
    hide Sextets3, Unpack, SextetsSize, UnpackedSize;
    if |s| > 3 {
      Unpack3(s[..3], Sextets(s[3..]));
      UnpackSextets(s[3..]);
      assert s == s[..3] + s[3..];
    } else if |s| == 3 {
      Unpack3(s, []);
      assert Sextets3(s) + [] == Sextets3(s);
      UnpackNothing();
    } else if s == [] {
      UnpackNothing();
    } else {
      UnpackShort(s);
    }
  }

  lemma UnpackNothing()
    ensures Unpack([]) == []
  {
  }

  lemma {:induction false} ScanChars(vs: seq<nat>, tail: seq<byte>)
    requires (forall i :: 0 <= i < |vs| ==> vs[i] < 64) && (tail != [] ==> tail[0] == EQUALS)
    ensures ScanText(Chars(vs) + tail) == Scan(vs, true)
    decreases |vs|
  {
    var text := Chars(vs) + tail;
    if vs == [] {
      assert text == tail;
    } else {
      TableExact(vs[0], Char(vs[0]));
      assert text[0] == Char(vs[0]) && text[1..] == Chars(vs[1..]) + tail;
      ScanChars(vs[1..], tail);
    }
  }

  function Strip(text: seq<byte>): seq<byte> {
    if text == [] then [] else (if text[0] == NEWLINE then [] else [text[0]]) + Strip(text[1..])
  }

  lemma {:induction false} StripScans(text: seq<byte>)
    ensures ScanText(Strip(text)) == ScanText(text)
  {
    if text != [] {
      StripScans(text[1..]);
      if text[0] != NEWLINE {
        assert Strip(text)[1..] == Strip(text[1..]);
      } else {
        assert Strip(text) == Strip(text[1..]);
      }
    }
  }

  /** Decoding what was encoded, with line feeds inserted anywhere, gives back the
      bytes if the buffer has room for them, and otherwise says so. */
  lemma {:induction false} RoundTrip(s: seq<byte>, text: seq<byte>, capacity: nat)
    requires Strip(text) == Encode(s)
    ensures Decode(text, capacity) == if capacity >= |s| then Ok(s) else BufTooSmall
  {
    StripScans(text);
    ScanChars(Sextets(s), Padding(|s|));
    UnpackSextets(s);
  }

  lemma {:induction false} StripNothing(text: seq<byte>)
    requires NEWLINE !in text
    ensures Strip(text) == text
  {
    if text != [] {
      StripNothing(text[1..]);
    }
  }

  /** Decoding the encoder's own output, which contains no line feeds. */
  lemma {:induction false} EncodedDecodes(s: seq<byte>, capacity: nat)
    ensures Decode(Encode(s), capacity) == if capacity >= |s| then Ok(s) else BufTooSmall
  {
    StripNothing(Encode(s));
    RoundTrip(s, Encode(s), capacity);
  }
}
