/** The byte layout of Takion control messages, data chunks and data
    acknowledgements, written and read back. */
module TakionMessage {
  import opened Bytes

  const HEADER_SIZE: nat := 0x10
  const A_RWND: nat := 0x19000
  const CHUNK_DATA: byte := 0
  const CHUNK_DATA_ACK: byte := 3
  const PACKET_CONTROL: byte := 0

  /** takion_write_message_header; the authentication tag is still zero. */
  function Header(tag: nat, keyPos: nat, chunkType: byte, chunkFlags: byte, payloadSize: nat): (h: seq<byte>)
    requires tag < U32
    ensures |h| == HEADER_SIZE
  {
    Write32(tag) + [0, 0, 0, 0] + Write32(keyPos % U32) + [chunkType, chunkFlags] + Write16((payloadSize + 4) % 0x1_0000)
  }

  datatype Message = Message(keyPosLow: nat, chunkType: byte, chunkFlags: byte, payload: seq<byte>)

  datatype ParseResult = Parsed(message: Message) | TooShort | TagMismatch | SizeMismatch

  /** takion_parse_message, without the key position bookkeeping. */
  function Parse(buf: seq<byte>, tagLocal: nat): ParseResult {
    if |buf| < HEADER_SIZE then TooShort
    else if Read32(buf, 0) != tagLocal then TagMismatch
    else if |buf| != Read16(buf, 0xe) + 0xc then SizeMismatch
    else Parsed(Message(Read32(buf, 8), buf[0xc], buf[0xd], buf[0x10..]))
  }

  lemma HeaderFields(tag: nat, keyPos: nat, chunkType: byte, chunkFlags: byte, payload: seq<byte>)
    requires tag < U32
    ensures var buf := Header(tag, keyPos, chunkType, chunkFlags, |payload|) + payload;
            && Read32(buf, 0) == tag && Read32(buf, 8) == keyPos % U32
            && buf[0xc] == chunkType && buf[0xd] == chunkFlags
            && Read16(buf, 0xe) == (|payload| + 4) % 0x1_0000 && buf[0x10..] == payload
  {
    var buf := Header(tag, keyPos, chunkType, chunkFlags, |payload|) + payload;
    Shifted32(buf, 0, tag);
    Shifted32(buf, 8, keyPos % U32);
    Shifted16(buf, 0xe, (|payload| + 4) % 0x1_0000);
  }

  lemma Shifted32(buf: seq<byte>, at: nat, n: nat)
    requires n < U32 && at + 4 <= |buf| && buf[at..at + 4] == Write32(n)
    ensures Read32(buf, at) == n
  {
    assert Read32(buf[at..at + 4], 0) == n;
  }

  lemma Shifted16(buf: seq<byte>, at: nat, n: nat)
    requires n < 0x1_0000 && at + 2 <= |buf| && buf[at..at + 2] == Write16(n)
    ensures Read16(buf, at) == n
  {
    assert Read16(buf[at..at + 2], 0) == n;
  }

  /** A message on the wire: the peer's tag, room for the authentication tag, the low
      half of the key position, the chunk's type and flags, and its size
      including these last four bytes, all in network byte order. */
  lemma HeaderLayout(tag: nat, keyPos: nat, chunkType: byte, chunkFlags: byte, payloadSize: nat)
    requires tag < U32
    ensures var h := Header(tag, keyPos, chunkType, chunkFlags, payloadSize);
            && |h| == 16 && BigEndian(h[0..4], tag) && h[4..8] == [0, 0, 0, 0] && BigEndian(h[8..12], keyPos % 0x1_0000_0000)
            && h[12] == chunkType && h[13] == chunkFlags && BigEndian(h[14..16], (payloadSize + 4) % 0x1_0000)
  {
    WrittenBigEndian(tag);
    WrittenBigEndian(keyPos % U32);
    WrittenShort((payloadSize + 4) % 0x1_0000);
    hide Write32, Write16, BigEndian;
    var h := Header(tag, keyPos, chunkType, chunkFlags, payloadSize);
    assert h[0..4] == Write32(tag) && h[8..12] == Write32(keyPos % U32) && h[14..16] == Write16((payloadSize + 4) % 0x1_0000);
  }

  /** The chunk of a data message: its number, its channel, three zeros, its body. */
  lemma DataLayout(seqNum: nat, channel: nat, body: seq<byte>)
    requires seqNum < U32 && channel < 0x1_0000
    ensures var p := DataPayload(seqNum, channel, body);
            && |p| == 9 + |body| && BigEndian(p[0..4], seqNum) && BigEndian(p[4..6], channel)
            && p[6..9] == [0, 0, 0] && p[9..] == body
  {
    WrittenBigEndian(seqNum);
    WrittenShort(channel);
    hide Write32, Write16, BigEndian;
    var p := DataPayload(seqNum, channel, body);
    assert p[0..4] == Write32(seqNum) && p[4..6] == Write16(channel);
  }

  /** The chunk of an acknowledgement: the number, a receive window of 0x19000, and
      no gaps or duplicates. */
  lemma AckLayout(seqNum: nat)
    requires seqNum < U32
    ensures var p := AckPayload(seqNum);
            |p| == 12 && BigEndian(p[0..4], seqNum) && p[4..] == [0x00, 0x01, 0x90, 0x00, 0, 0, 0, 0]
  {
    WrittenBigEndian(seqNum);
    var p := AckPayload(seqNum);
    assert p[0..4] == Write32(seqNum);
  }

  /** A written message is read back, field by field, exactly by the peer it is
      addressed to and as long as its 16-bit size field does not wrap. */
  lemma MessageRoundTrip(tag: nat, keyPos: nat, chunkType: byte, chunkFlags: byte, payload: seq<byte>, tagLocal: nat)
    requires tag < U32
    ensures Parse(Header(tag, keyPos, chunkType, chunkFlags, |payload|) + payload, tagLocal)
              == Parsed(Message(keyPos % U32, chunkType, chunkFlags, payload))
            <==> tag == tagLocal && |payload| + 4 < 0x1_0000
  {
    HeaderFields(tag, keyPos, chunkType, chunkFlags, payload);
  }

  // ---------------------------------------------------------------- data chunks

  const DATA_HEADER_SIZE: nat := 9

  /** The payload of a data chunk. */
  function DataPayload(seqNum: nat, channel: nat, body: seq<byte>): (p: seq<byte>)
    requires seqNum < U32 && channel < 0x1_0000
    ensures |p| == DATA_HEADER_SIZE + |body|
  {
    Write32(seqNum) + Write16(channel) + [0, 0] + [0] + body
  }

  datatype DataEvent = DataEvent(dataType: byte, body: seq<byte>)

  /** The data types that reach the callback. */
  predicate KnownDataType(t: byte) {
    t == 0 || t == 7 || t == 9 || t == 11
  }

  /** What pulling an entry hands to the callback (takion_flush_data_queue). */
  function Callback(payload: seq<byte>): Option<DataEvent> {
    if |payload| < DATA_HEADER_SIZE then None
    else if !KnownDataType(payload[8]) then None
    else Some(DataEvent(payload[8], payload[9..]))
  }

  /** Entries of the four known types reach the callback, with what follows their
      nine bytes. */
  lemma CalledBackExactly(head: seq<byte>, t: byte, body: seq<byte>)
    requires |head| == 8
    ensures Callback(head + [t] + body) == if t in {0, 7, 9, 11} then Some(DataEvent(t, body)) else None
  {
    assert (head + [t] + body)[9..] == body;
  }

  /** A sent body reaches the peer's callback unchanged, under its number. */
  lemma DataRoundTrip(seqNum: nat, channel: nat, body: seq<byte>)
    requires seqNum < U32 && channel < 0x1_0000
    ensures var p := DataPayload(seqNum, channel, body);
            Read32(p, 0) == seqNum && Read16(p, 4) == channel && Callback(p) == Some(DataEvent(0, body))
  {
    var p := DataPayload(seqNum, channel, body);
    assert p[0..4] == Write32(seqNum) && p[4..6] == Write16(channel);
    Shifted32(p, 0, seqNum);
    Shifted16(p, 4, channel);
    assert p[9..] == body;
  }

  // ---------------------------------------------------------------- acknowledgements

  const ACK_SIZE: nat := 0xc

  function AckPayload(seqNum: nat): (p: seq<byte>)
    requires seqNum < U32
    ensures |p| == ACK_SIZE
  {
    Write32(seqNum) + Write32(A_RWND) + [0, 0] + [0, 0]
  }

  /** The cumulative number of an acceptable acknowledgement. */
  function ReadAck(payload: seq<byte>): Option<nat> {
    if |payload| != ACK_SIZE then None
    else if |payload| != Read16(payload, 8) * 4 + ACK_SIZE then None
    else Some(Read32(payload, 0))
  }

  /** An acknowledgement is accepted exactly if it has twelve bytes and no gaps; what
      it says of the receive window and of duplicates is not looked at. */
  lemma ReadAckExactly(payload: seq<byte>)
    ensures match ReadAck(payload)
            case Some(n) =>
              && |payload| == 12 && payload[8] == 0 && payload[9] == 0
              && n == payload[0] as int * 0x100_0000 + payload[1] as int * 0x1_0000 + payload[2] as int * 0x100 + payload[3]
            case None => |payload| != 12 || payload[8] != 0 || payload[9] != 0
  {
  }

  lemma AckRoundTrip(seqNum: nat)
    requires seqNum < U32
    ensures ReadAck(AckPayload(seqNum)) == Some(seqNum)
  {
    var p := AckPayload(seqNum);
    assert p[0..4] == Write32(seqNum);
    Shifted32(p, 0, seqNum);
  }
}
