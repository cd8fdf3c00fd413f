/** Authentication tags inside packets, and the key positions packets consume. */
module PacketMac {
  import opened Bytes

  const MAC_SIZE: nat := 4

  /** The 4-byte tag of a packet at a key position, left uninterpreted. */
  type Mac = s: seq<byte> | |s| == 4 witness [0, 0, 0, 0]

  datatype Offsets = Offsets(mac: nat, keyPos: nat, blankKeyPos: bool)

  /** Where a packet of this base type keeps its tag and key position, and
      whether the key position is blanked out for the tag. */
  function PacketOffsets(first: byte): Option<Offsets> {
    var t := first as int % 16;
    if t == 0 then Some(Offsets(5, 0x9, true))
    else if t == 2 || t == 3 then Some(Offsets(0xa, 0xe, false))
    else if t == 5 then Some(Offsets(7, 0xb, true))
    else None
  }

  function Splice(s: seq<byte>, at: nat, t: seq<byte>): (r: seq<byte>)
    requires at + |t| <= |s|
    ensures |r| == |s|
  {
    s[..at] + t + s[at + |t|..]
  }

  predicate HasMac(packet: seq<byte>) {
    |packet| > 0 && PacketOffsets(packet[0]).Some? &&
    var o := PacketOffsets(packet[0]).value;
    o.mac + MAC_SIZE <= |packet| && o.keyPos + 4 <= |packet|
  }

  /** The bytes the tag is computed over. */
  function Blank(packet: seq<byte>): (r: seq<byte>)
    requires HasMac(packet)
    ensures |r| == |packet|
  {
    var o := PacketOffsets(packet[0]).value;
    var p := Splice(packet, o.mac, Zeros(4));
    if o.blankKeyPos then Splice(p, o.keyPos, Zeros(4)) else p
  }

  function ReadMac(packet: seq<byte>): (m: Mac)
    requires HasMac(packet)
  {
    var o := PacketOffsets(packet[0]).value;
    packet[o.mac..o.mac + 4]
  }

  /** chiaki_takion_packet_mac: compute the tag and write it into the packet. */
  function Sign(mac: (nat, seq<byte>) -> Mac, packet: seq<byte>, keyPos: nat): (r: seq<byte>)
    requires HasMac(packet)
    ensures |r| == |packet|
  {
    Splice(packet, PacketOffsets(packet[0]).value.mac, mac(keyPos, Blank(packet)))
  }

  /** Without a local crypt the tag is set to zero. */
  function Seal(crypt: bool, mac: (nat, seq<byte>) -> Mac, packet: seq<byte>, keyPos: nat): (r: seq<byte>)
    requires HasMac(packet)
    ensures |r| == |packet|
  {
    if crypt then Sign(mac, packet, keyPos) else Splice(packet, PacketOffsets(packet[0]).value.mac, Zeros(4))
  }

  /** takion_handle_packet_mac compares the tag in the packet with the expected one. */
  predicate Authentic(mac: (nat, seq<byte>) -> Mac, packet: seq<byte>, keyPos: nat) {
    HasMac(packet) && ReadMac(packet) == mac(keyPos, Blank(packet))
  }

  /** Signing touches nothing but the tag, and a signed packet is authentic
      exactly at positions where the tag of its bytes is the same. */
  lemma {:induction false} SignedIsAuthentic(mac: (nat, seq<byte>) -> Mac, packet: seq<byte>, keyPos: nat,
      atKeyPos: nat)
    requires HasMac(packet)
    ensures var signed := Sign(mac, packet, keyPos);
            && HasMac(signed)
            && Blank(signed) == Blank(packet)
            && (Authentic(mac, signed, atKeyPos) <==> mac(keyPos, Blank(packet)) == mac(atKeyPos, Blank(packet)))
  {
    var signed := Sign(mac, packet, keyPos);
    var o := PacketOffsets(packet[0]).value;
    assert signed[0] == packet[0];
    assert Splice(signed, o.mac, Zeros(4)) == Splice(packet, o.mac, Zeros(4));
    assert ReadMac(signed) == mac(keyPos, Blank(packet));
  }

  // ---------------------------------------------------------------- what the tag covers

  /** Whether the tag covers byte i: every byte but those of the tag itself and,
      in control and congestion packets, of the key position behind it. */
  predicate Covers(first: byte, i: int) {
    match first as int % 16
    case 0 => !(5 <= i < 13)
    case 5 => !(7 <= i < 15)
    case _ => !(10 <= i < 14)
  }

  /** The packets that have a tag, by their type and size. */
  lemma {:induction false} HasMacExactly(packet: seq<byte>)
    ensures HasMac(packet) <==>
              |packet| > 0 && match packet[0] as int % 16
                              case 0 => |packet| >= 13
                              case 2 => |packet| >= 18
                              case 3 => |packet| >= 18
                              case 5 => |packet| >= 15
                              case _ => false
  {
  }

  /** Byte by byte, the tag is computed over what it covers, and zeros. */
  lemma {:induction false} BlankBytes(packet: seq<byte>)
    requires HasMac(packet)
    ensures forall i :: 0 <= i < |packet| ==> Blank(packet)[i] == if Covers(packet[0], i) then packet[i] else 0
  {
    var o := PacketOffsets(packet[0]).value;
    SpliceBytes(packet, o.mac, Zeros(4));
    SpliceBytes(Splice(packet, o.mac, Zeros(4)), o.keyPos, Zeros(4));
    hide Splice;
  }

  lemma {:induction false} SpliceBytes(s: seq<byte>, at: nat, t: seq<byte>)
    requires at + |t| <= |s|
    ensures forall i :: 0 <= i < |s| ==> Splice(s, at, t)[i] == if at <= i < at + |t| then t[i - at] else s[i]
  {
  }

  /** Two packets give the tag the same bytes exactly if they agree in size and in
      every byte the tag covers. */
  lemma {:induction false} CoveredExactly(p: seq<byte>, q: seq<byte>)
    requires HasMac(p) && HasMac(q)
    ensures Blank(p) == Blank(q) <==> |p| == |q| && forall i :: 0 <= i < |p| && Covers(p[0], i) ==> p[i] == q[i]
  {
    BlankBytes(p);
    BlankBytes(q);
    hide Blank, HasMac;
    if |p| == |q| && forall i :: 0 <= i < |p| && Covers(p[0], i) ==> p[i] == q[i] {
      assert Covers(p[0], 0);
      forall i | 0 <= i < |p|
        ensures Blank(p)[i] == Blank(q)[i]
      {
      }
    } else if |p| == |q| {
      var i :| 0 <= i < |p| && Covers(p[0], i) && p[i] != q[i];
      assert Covers(p[0], 0) && Covers(q[0], 0);
      assert Blank(p)[0] == p[0] && Blank(q)[0] == q[0];
      assert p[0] == q[0] ==> Blank(p)[i] != Blank(q)[i];
    }
  }

  /** Signing writes the tag of the packet's bytes into it and changes nothing
      else. Control packets have it at byte 5, congestion packets at 7, video and
      audio packets at 10. */
  lemma {:induction false} SignedBytes(mac: (nat, seq<byte>) -> Mac, packet: seq<byte>, keyPos: nat)
    requires HasMac(packet)
    ensures var at := match packet[0] as int % 16 case 0 => 5 case 5 => 7 case _ => 10;
            var signed := Sign(mac, packet, keyPos);
            && at + 4 <= |packet|
            && signed[at..at + 4] == mac(keyPos, Blank(packet)) == ReadMac(signed)
            && forall i :: 0 <= i < |packet| && !(at <= i < at + 4) ==> signed[i] == packet[i]
  {
    SpliceBytes(packet, PacketOffsets(packet[0]).value.mac, mac(keyPos, Blank(packet)));
    hide Blank;
  }

  // ---------------------------------------------------------------- key positions

  /** chiaki_takion_crypt_advance_key_pos on the local position. */
  function Advance(cur: nat, size: nat): (r: Option<nat>) {
    if SIZE_MAX - cur < size then None else Some(cur + size)
  }

  /** Anything that consumes key positions: plain packets only reserve them,
      feedback packets also encrypt their payload 16 bytes into theirs. */
  datatype Use = Reserve(size: nat) | Feedback(payloadSize: nat)

  datatype Span = Span(from: nat, to: nat)

  function Size(u: Use): nat {
    match u
    case Reserve(size) => size
    case Feedback(payloadSize) => payloadSize + 16
  }

  /** The key stream each successful feedback send encrypts with. */
  function Spans(cur: nat, uses: seq<Use>): (spans: seq<Span>)
    ensures forall i :: 0 <= i < |spans| ==> spans[i].from <= spans[i].to
    decreases |uses|
  {
    if uses == [] then [] else
      match Advance(cur, Size(uses[0]))
      case None => Spans(cur, uses[1..])
      case Some(next) =>
        (if uses[0].Feedback? then [Span(cur + 16, next)] else []) + Spans(next, uses[1..])
  }

  /** No key position is ever used twice, and none past the last one. */
  lemma {:induction false} SpansDisjoint(cur: nat, uses: seq<Use>)
    requires cur <= SIZE_MAX
    ensures forall i :: 0 <= i < |Spans(cur, uses)| ==>
              cur + 16 <= Spans(cur, uses)[i].from <= Spans(cur, uses)[i].to <= SIZE_MAX
    ensures forall i, j :: 0 <= i < j < |Spans(cur, uses)| ==> Spans(cur, uses)[i].to <= Spans(cur, uses)[j].from
    decreases |uses|
  {
    if uses != [] {
      match Advance(cur, Size(uses[0]))
      case None =>
        SpansDisjoint(cur, uses[1..]);
      case Some(next) =>
        SpansDisjoint(next, uses[1..]);
    }
  }
}
