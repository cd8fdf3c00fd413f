/** Feedback packets on the wire: encrypted, signed, and read back by a console
    that rebuilds the key position. */
module FeedbackPacket {
  import opened Bytes
  import opened GkCrypt
  import opened PacketMac
  import H = FeedbackHistory
  import K = KeyState
  import KeyStream

  const FEEDBACK_HEADER_SIZE: nat := 0xc
  const FEEDBACK_HISTORY: byte := 1

  /** A packet before it is encrypted and signed (chiaki_takion_send_feedback_history). */
  function Plain(kind: byte, p: H.Packet): (s: seq<byte>)
    requires p.seqNum < 0x1_0000
    ensures |s| == FEEDBACK_HEADER_SIZE + |p.payload|
  {
    [kind] + Write16(p.seqNum) + [0] + Zeros(8) + p.payload
  }

  /** How many key positions a packet of this size uses up. */
  function PacketUse(size: nat): nat
    requires size >= FEEDBACK_HEADER_SIZE
  {
    Size(Feedback(size - FEEDBACK_HEADER_SIZE))
  }

  /** The tag covers the key position and the encrypted payload. */
  function UnsignedWith(plain: seq<byte>, crypted: seq<byte>, keyPos: nat): (s: seq<byte>)
    requires |plain| == FEEDBACK_HEADER_SIZE + |crypted|
    ensures |s| == |plain|
  {
    Splice(plain[..FEEDBACK_HEADER_SIZE] + crypted, 4, Write32(keyPos % U32))
  }

  function SealedWith(mac: (nat, seq<byte>) -> Mac, plain: seq<byte>, crypted: seq<byte>, keyPos: nat): (s: seq<byte>)
    requires |plain| == FEEDBACK_HEADER_SIZE + |crypted|
    ensures |s| == |plain|
  {
    Splice(UnsignedWith(plain, crypted, keyPos), 8, mac(keyPos, UnsignedWith(plain, crypted, keyPos)))
  }

  /** The payload is encrypted one block into the reserved key stream. */
  function Unsigned(c: KeyStream.Cipher, plain: seq<byte>, keyPos: nat): (s: seq<byte>)
    requires |plain| >= FEEDBACK_HEADER_SIZE
    ensures |s| == |plain|
  {
    UnsignedWith(plain, Crypt(c, keyPos + 16, plain[FEEDBACK_HEADER_SIZE..]), keyPos)
  }

  /** What takion_send_feedback_packet puts on the wire. */
  function Sealed(c: KeyStream.Cipher, mac: (nat, seq<byte>) -> Mac, plain: seq<byte>, keyPos: nat): (s: seq<byte>)
    requires |plain| >= FEEDBACK_HEADER_SIZE
    ensures |s| == |plain|
  {
    SealedWith(mac, plain, Crypt(c, keyPos + 16, plain[FEEDBACK_HEADER_SIZE..]), keyPos)
  }

  /** The other end: the position is rebuilt from the last one, the tag checked,
      the payload decrypted. */
  function Open(c: KeyStream.Cipher, mac: (nat, seq<byte>) -> Mac, prev: nat, packet: seq<byte>): Option<H.Packet>
    requires prev < U64
  {
    if |packet| < FEEDBACK_HEADER_SIZE then None else
      var keyPos := K.RequestPos(prev, Read32(packet, 4));
      if packet[8..12] != mac(keyPos, Splice(packet, 8, Zeros(4))) then None
      else Some(H.Packet(Read16(packet, 1), Crypt(c, keyPos + 16, packet[FEEDBACK_HEADER_SIZE..])))
  }

  /** The blocks a packet of this size is encrypted with are looked up inside the
      ring, */
  ghost predicate InRing(gkcrypt: GkCrypt, keyPos: nat, size: nat)
    requires size >= FEEDBACK_HEADER_SIZE
    reads gkcrypt
  {
    gkcrypt.InRing(BlockStart(keyPos + 16), BlocksSize(keyPos + 16, size - FEEDBACK_HEADER_SIZE))
  }

  /** and in the right place. */
  ghost predicate ReadRight(gkcrypt: GkCrypt, keyPos: nat, size: nat)
    requires size >= FEEDBACK_HEADER_SIZE
    reads gkcrypt
  {
    gkcrypt.ReadRight(BlockStart(keyPos + 16), BlocksSize(keyPos + 16, size - FEEDBACK_HEADER_SIZE))
  }

  /** That is always so if the key positions used up end a block below 2^64. */
  lemma EarlyReadRight(gkcrypt: GkCrypt, keyPos: nat, size: nat)
    requires FEEDBACK_HEADER_SIZE <= size && keyPos + PacketUse(size) <= U64 - 16
    ensures ReadRight(gkcrypt, keyPos, size)
  {
    BlocksEnd(keyPos + 16, size - FEEDBACK_HEADER_SIZE);
  }

  /** The part of takion_send_feedback_packet between reserving the key positions
      and sending. */
  method SealInPlace(gkcrypt: GkCrypt, mac: (nat, seq<byte>) -> Mac, buf: array<byte>, keyPos: nat)
    requires gkcrypt.Valid() && gkcrypt.keyBuf != buf && FEEDBACK_HEADER_SIZE <= buf.Length < U64 / 4
    requires keyPos + 16 < U64 && InRing(gkcrypt, keyPos, buf.Length)
    modifies gkcrypt`lastKeyPos, buf
    ensures gkcrypt.Valid()
    ensures buf[..] == old(SealedWith(mac, buf[..], gkcrypt.Crypted(keyPos + 16, buf[FEEDBACK_HEADER_SIZE..]), keyPos))
    ensures old(ReadRight(gkcrypt, keyPos, buf.Length)) ==> buf[..] == Sealed(gkcrypt.cipher, mac, old(buf[..]), keyPos)
  {
    hide GkCrypt.Valid, GkCrypt.Crypted, GkCrypt.InRing, GkCrypt.ReadRight, Crypt, Write32;
    ghost var plain := buf[..];
    ghost var crypted := gkcrypt.Crypted(keyPos + 16, buf[FEEDBACK_HEADER_SIZE..]);
    EncryptPayload(gkcrypt, buf, keyPos + 16);
    Memcpy(buf, 4, Write32(keyPos % U32));
    assert buf[..] == UnsignedWith(plain, crypted, keyPos);
    Memcpy(buf, 8, mac(keyPos, buf[..]));
  }

  method EncryptPayload(gkcrypt: GkCrypt, buf: array<byte>, keyPos: nat)
    requires gkcrypt.Valid() && gkcrypt.keyBuf != buf && FEEDBACK_HEADER_SIZE <= buf.Length < U64 / 4 && keyPos < U64
    requires gkcrypt.InRing(BlockStart(keyPos), BlocksSize(keyPos, buf.Length - FEEDBACK_HEADER_SIZE))
    modifies gkcrypt`lastKeyPos, buf
    ensures gkcrypt.Valid()
    ensures var crypted := old(gkcrypt.Crypted(keyPos, buf[FEEDBACK_HEADER_SIZE..]));
            && buf[..] == old(buf[..FEEDBACK_HEADER_SIZE]) + crypted
            && (old(gkcrypt.ReadRight(BlockStart(keyPos), BlocksSize(keyPos, buf.Length - FEEDBACK_HEADER_SIZE))) ==>
                  crypted == Crypt(gkcrypt.cipher, keyPos, old(buf[FEEDBACK_HEADER_SIZE..])))
  {
    hide GkCrypt.Valid, GkCrypt.Crypted, GkCrypt.InRing, GkCrypt.ReadRight, Crypt;
    ghost var plain := buf[..];
    var payload := new byte[buf.Length - FEEDBACK_HEADER_SIZE];
    Memcpy(payload, 0, buf[FEEDBACK_HEADER_SIZE..]);
    assert payload[..] == plain[FEEDBACK_HEADER_SIZE..];
    gkcrypt.Decrypt(keyPos, payload);
    Memcpy(buf, FEEDBACK_HEADER_SIZE, payload[..]);
    assert buf[..] == plain[..FEEDBACK_HEADER_SIZE] + payload[..];
  }

  lemma SpliceParts(s: seq<byte>, at: nat, t: seq<byte>)
    requires at + |t| <= |s|
    ensures var r := Splice(s, at, t);
            r[at..at + |t|] == t && r[..at] == s[..at] && r[at + |t|..] == s[at + |t|..]
  {
  }

  lemma {:induction false} UnsignedParts(c: KeyStream.Cipher, plain: seq<byte>, keyPos: nat)
    requires |plain| >= FEEDBACK_HEADER_SIZE && plain[8..12] == Zeros(4)
    ensures var s := Unsigned(c, plain, keyPos);
            && s[..4] == plain[..4] && s[4..8] == Write32(keyPos % U32) && s[8..12] == Zeros(4)
            && s[FEEDBACK_HEADER_SIZE..] == Crypt(c, keyPos + 16, plain[FEEDBACK_HEADER_SIZE..])
  {
    var crypted := Crypt(c, keyPos + 16, plain[FEEDBACK_HEADER_SIZE..]);
    hide Crypt;
    var whole := plain[..FEEDBACK_HEADER_SIZE] + crypted;
    SpliceParts(whole, 4, Write32(keyPos % U32));
    var s := Splice(whole, 4, Write32(keyPos % U32));
    assert s[8..][..4] == whole[8..][..4];
    assert whole[8..][..4] == plain[8..12] && s[8..][..4] == s[8..12];
    assert s[8..][4..] == whole[8..][4..] == crypted;
    assert s[8..][4..] == s[FEEDBACK_HEADER_SIZE..];
  }

  lemma {:induction false} SealedParts(c: KeyStream.Cipher, mac: (nat, seq<byte>) -> Mac, plain: seq<byte>, keyPos: nat)
    requires |plain| >= FEEDBACK_HEADER_SIZE && plain[8..12] == Zeros(4)
    ensures var s := Sealed(c, mac, plain, keyPos);
            && s[..4] == plain[..4] && s[4..8] == Write32(keyPos % U32)
            && s[8..12] == mac(keyPos, Unsigned(c, plain, keyPos))
            && Splice(s, 8, Zeros(4)) == Unsigned(c, plain, keyPos)
            && s[FEEDBACK_HEADER_SIZE..] == Crypt(c, keyPos + 16, plain[FEEDBACK_HEADER_SIZE..])
  {
    UnsignedParts(c, plain, keyPos);
    var u := Unsigned(c, plain, keyPos);
    hide Unsigned, Crypt, Splice;
    SpliceParts(u, 8, mac(keyPos, u));
    var s := Splice(u, 8, mac(keyPos, u));
    assert s[..8][..4] == u[..8][..4] && s[..8][4..] == u[..8][4..];
    assert s[..8][..4] == s[..4] && u[..8][..4] == u[..4] && s[..8][4..] == s[4..8] && u[..8][4..] == u[4..8];
    SpliceBack(s, u);
  }

  lemma SpliceBack(s: seq<byte>, u: seq<byte>)
    requires |s| == |u| >= 12 && s[..8] == u[..8] && s[12..] == u[12..] && u[8..12] == Zeros(4)
    ensures Splice(s, 8, Zeros(4)) == u
  {
    assert u == u[..8] + u[8..12] + u[12..];
  }

  /** A packet that was sent is read back as it was, by a console whose last
      position is close enough for the sender's to be rebuilt. */
  lemma {:induction false} SealedOpens(c: KeyStream.Cipher, mac: (nat, seq<byte>) -> Mac, p: H.Packet, keyPos: nat,
      prev: nat)
    requires p.seqNum < 0x1_0000 && prev < U64 && keyPos < U64 && K.Recoverable(prev, keyPos)
    ensures Open(c, mac, prev, Sealed(c, mac, Plain(FEEDBACK_HISTORY, p), keyPos)) == Some(p)
  {
    var plain := Plain(FEEDBACK_HISTORY, p);
    var s := Sealed(c, mac, plain, keyPos);
    PlainParts(p);
    SealedParts(c, mac, plain, keyPos);
    K.RecoveredExactly(prev, keyPos);
    CryptTwice(c, keyPos + 16, p.payload);
    hide Sealed, Unsigned, Crypt, Splice, Plain, K.RequestPos, K.Recoverable;
    assert Read32(s, 4) == Read32(s[4..8], 0);
    assert s[..4][1..3] == s[1..3] && plain[..4][1..3] == plain[1..3];
    assert Read16(s, 1) == Read16(s[1..3], 0);
  }

  /** A packet that keeps the tag but differs in any other byte, or in size, is
      opened only if two different inputs collide under the tag function. */
  lemma {:induction false} AlteredNotOpened(c: KeyStream.Cipher, mac: (nat, seq<byte>) -> Mac, p: H.Packet, keyPos: nat,
      prev: nat, q: seq<byte>)
    requires p.seqNum < 0x1_0000 && prev < U64 && |q| >= 12
    requires var s := Sealed(c, mac, Plain(FEEDBACK_HISTORY, p), keyPos); q != s && q[8..12] == s[8..12]
    ensures Open(c, mac, prev, q).Some? ==>
              var u, v := Unsigned(c, Plain(FEEDBACK_HISTORY, p), keyPos), Splice(q, 8, Zeros(4));
              u != v && mac(K.RequestPos(prev, Read32(q, 4)), v) == mac(keyPos, u)
  {
    var plain := Plain(FEEDBACK_HISTORY, p);
    PlainParts(p);
    SealedParts(c, mac, plain, keyPos);
    var s := Sealed(c, mac, plain, keyPos);
    hide Sealed, Unsigned, Crypt, Plain, K.RequestPos;
    SpliceTells(s, q);
  }

  lemma SpliceTells(s: seq<byte>, q: seq<byte>)
    requires |s| >= 12 && |q| >= 12
    ensures s == q <==> Splice(s, 8, Zeros(4)) == Splice(q, 8, Zeros(4)) && s[8..12] == q[8..12]
  {
    SpliceParts(s, 8, Zeros(4));
    SpliceParts(q, 8, Zeros(4));
    assert s == s[..8] + s[8..12] + s[12..] && q == q[..8] + q[8..12] + q[12..];
    hide Splice;
  }

  /** A history packet on the wire: its kind, its number, a zero, the low half of
      the key position and the tag of everything around it, all in network byte
      order; then the events, their bits flipped by the key stream from 16 bytes
      after that position on. */
  lemma {:induction false} SealedLayout(c: KeyStream.Cipher, mac: (nat, seq<byte>) -> Mac, p: H.Packet, keyPos: nat)
    requires p.seqNum < 0x1_0000
    ensures var s := Sealed(c, mac, Plain(FEEDBACK_HISTORY, p), keyPos);
            && |s| == 12 + |p.payload|
            && s[0] == 1 && s[1] as int * 0x100 + s[2] as int == p.seqNum && s[3] == 0
            && s[4] as int * 0x100_0000 + s[5] as int * 0x1_0000 + s[6] as int * 0x100 + s[7] as int == keyPos % 0x1_0000_0000
            && s[8..12] == mac(keyPos, s[..8] + [0, 0, 0, 0] + s[12..])
            && Encrypts(c, keyPos + 16, p.payload, s[12..])
  {
    var plain := Plain(FEEDBACK_HISTORY, p);
    var s := Sealed(c, mac, plain, keyPos);
    PlainParts(p);
    SealedParts(c, mac, plain, keyPos);
    CryptExactly(c, keyPos + 16, p.payload, s[12..]);
    PlainStart(p);
    hide Sealed, Unsigned, Crypt, Plain, Encrypts;
    assert s[..4] == plain[..4] && s[0] == s[..4][0] && s[1] == s[..4][1] && s[2] == s[..4][2] && s[3] == s[..4][3];
    assert Read32(s[4..8], 0) == keyPos % U32;
    assert Splice(s, 8, Zeros(4)) == s[..8] + [0, 0, 0, 0] + s[12..];
  }

  lemma PlainStart(p: H.Packet)
    requires p.seqNum < 0x1_0000
    ensures var start := Plain(FEEDBACK_HISTORY, p)[..4];
            start[0] == 1 && start[1] as int * 0x100 + start[2] as int == p.seqNum && start[3] == 0
  {
  }

  lemma PlainParts(p: H.Packet)
    requires p.seqNum < 0x1_0000
    ensures var plain := Plain(FEEDBACK_HISTORY, p);
            && plain[1..3] == Write16(p.seqNum) && plain[8..12] == Zeros(4) && plain[FEEDBACK_HEADER_SIZE..] == p.payload
  {
  }
}
