/** What one end of a Takion connection does, as functions of its state: number
    and seal a message, keep it until it is acknowledged, and handle a packet.
    X is what the send buffer holds of a sent packet. */
module TakionEnd {
  import opened Bytes
  import opened SeqNum
  import opened TakionMessage
  import opened PacketMac
  import W = ReorderWindow
  import B = SendBuffer
  import D = DataChannel
  import K = KeyState

  datatype Event = Data(event: DataEvent) | DataAck(seqNum: int)

  /** The callbacks a run of pulled items causes. */
  function Callbacks(items: seq<W.Item<D.Payload>>): seq<Event> {
    if items == [] then [] else
      var n := |items| - 1;
      Callbacks(items[..n]) + (match Callback(items[n].1) case None => [] case Some(e) => [Data(e)])
  }

  function AckEvents(nums: seq<int>): seq<Event> {
    seq(|nums|, i requires 0 <= i < |nums| => DataAck(nums[i]))
  }

  // ---------------------------------------------------------------- packets

  /** A control packet before signing. */
  function ControlPacket(tag: nat, keyPos: nat, chunkType: byte, flags: byte, payload: seq<byte>): (p: seq<byte>)
    requires tag < U32
    ensures HasMac(p) && |p| == 1 + HEADER_SIZE + |payload|
  {
    [PACKET_CONTROL] + Header(tag, keyPos, chunkType, flags, |payload|) + payload
  }

  /** A data packet before signing. */
  function DataPacket(tag: nat, keyPos: nat, flags: byte, seqNum: nat, channel: nat, body: seq<byte>): (p: seq<byte>)
    requires tag < U32 && seqNum < U32 && channel < 0x1_0000
    ensures HasMac(p)
  {
    ControlPacket(tag, keyPos, CHUNK_DATA, flags, DataPayload(seqNum, channel, body))
  }

  /** An acknowledgement packet before signing. */
  function AckPacket(tag: nat, keyPos: nat, seqNum: nat): (p: seq<byte>)
    requires tag < U32 && seqNum < U32
    ensures HasMac(p) && |p| == 0x1d
  {
    ControlPacket(tag, keyPos, CHUNK_DATA_ACK, 0, AckPayload(seqNum))
  }

  /** takion_thread_func receives into a buffer of this size; recv drops the rest
      of a longer datagram. */
  const RECV_SIZE: nat := 1500

  function Received(datagram: seq<byte>): (packet: seq<byte>)
    ensures |packet| <= |datagram| && |packet| <= RECV_SIZE && (packet == [] <==> datagram == [])
  {
    if |datagram| <= RECV_SIZE then datagram else datagram[..RECV_SIZE]
  }

  /** What a packet says to the end with this tag. */
  datatype Incoming = DataChunk(payload: seq<byte>) | AckChunk(seqNum: nat) | Ignored

  function Read(packet: seq<byte>, tagLocal: nat): (r: Incoming)
    requires |packet| > 0
    ensures r.DataChunk? ==> DATA_HEADER_SIZE <= |r.payload| == |packet| - 1 - HEADER_SIZE
    ensures r != Ignored ==> packet[0] as int % 16 == PACKET_CONTROL as int
  {
    if packet[0] as int % 16 != PACKET_CONTROL as int then Ignored else
      match Parse(packet[1..], tagLocal)
      case Parsed(m) =>
        if m.chunkType == CHUNK_DATA then (if |m.payload| < DATA_HEADER_SIZE then Ignored else DataChunk(m.payload))
        else if m.chunkType == CHUNK_DATA_ACK then
          match ReadAck(m.payload) case None => Ignored case Some(n) => AckChunk(n)
        else Ignored
      case _ => Ignored
  }

  // ---------------------------------------------------------------- the state and its steps

  type Tagger = (nat, seq<byte>) -> Mac

  /** remoteMac is the peer's tag function once its crypt is available, prev the
      last key position received. */
  datatype End<X> = End(tagLocal: nat, tagRemote: nat, crypt: bool, mac: Tagger, keyPosLocal: nat, seqNumLocal: nat,
                        remoteMac: Option<Tagger>, prev: nat,
                        window: W.Window<D.Payload>, buffer: seq<B.Packet<X>>, events: seq<Event>) {
    predicate Wf() {
      tagLocal < U32 && tagRemote < U32 && keyPosLocal <= SIZE_MAX && seqNumLocal < U32 && prev < U64
    }
  }

  /** An end right after a successful handshake: the first number sent is its own
      tag, the first number expected is the peer's. */
  function Connected<X>(tagLocal: nat, tagRemote: nat, mac: Tagger): End<X> {
    End(tagLocal, tagRemote, false, mac, 0, tagLocal, None, 0, W.Window(tagRemote, 0, map[]), [], [])
  }

  datatype KeysTaken<X> = KeysTaken(end: End<X>, keyPos: nat)

  /** chiaki_takion_crypt_advance_key_pos. */
  function TakeKeys<X>(e: End<X>, size: nat): Option<KeysTaken<X>> {
    if !e.crypt then Some(KeysTaken(e, 0)) else
      match Advance(e.keyPosLocal, size)
      case None => None
      case Some(next) => Some(KeysTaken(e.(keyPosLocal := next), e.keyPosLocal))
  }

  /** Whether an end can reserve this many key positions: without a crypt none
      are counted, with one they must not run out. */
  predicate HasKeys<X>(e: End<X>, size: nat) {
    e.crypt ==> e.keyPosLocal + size <= 0xffff_ffff_ffff_ffff
  }

  /** Reserving yields the first position reserved, which is 0 without a crypt,
      and moves past exactly as many positions. */
  predicate Reserves<X>(e: End<X>, size: nat, keyPos: nat, f: End<X>) {
    f.crypt == e.crypt &&
    if e.crypt then keyPos == e.keyPosLocal && f.keyPosLocal == keyPos + size
    else keyPos == 0 && f.keyPosLocal == e.keyPosLocal
  }

  lemma TakesKeys<X>(e: End<X>, size: nat)
    requires e.Wf()
    ensures TakeKeys(e, size).Some? <==> HasKeys(e, size)
    ensures TakeKeys(e, size).Some? ==>
              var r := TakeKeys(e, size).value;
              Reserves(e, size, r.keyPos, r.end) && r.end == e.(keyPosLocal := r.end.keyPosLocal)
  {
  }

  datatype Numbered<X> = Numbered(end: End<X>, seqNum: nat, packet: seq<byte>)

  /** The first half of chiaki_takion_send_message_data, up to the sealed packet. */
  function Number<X>(e: End<X>, flags: byte, channel: nat, body: seq<byte>): Option<Numbered<X>>
    requires e.Wf() && channel < 0x1_0000
  {
    match TakeKeys(e, |body|)
    case None => None
    case Some(r) =>
      var plain := DataPacket(e.tagRemote, r.keyPos, flags, e.seqNumLocal, channel, body);
      Some(Numbered(r.end.(seqNumLocal := Add(Bits32, e.seqNumLocal, 1)), e.seqNumLocal, Seal(e.crypt, e.mac, plain, r.keyPos)))
  }

  /** A packet that was sent is kept, if the send buffer takes it. */
  function Kept<X>(e: End<X>, seqNum: int, x: X, now: nat): End<X> {
    if D.CanBuffer(e.buffer, seqNum) then e.(buffer := e.buffer + [B.Packet(seqNum, 0, now, x)]) else e
  }

  /** The end after takion_send_buffer_resend; the buffers of what was overdue go
      to the socket once more. */
  function Resent<X>(e: End<X>, now: nat): End<X> {
    e.(buffer := seq(|e.buffer|, i requires 0 <= i < |e.buffer| => B.Refreshed(e.buffer[i], now)))
  }

  /** The end after takion_handle_packet_mac, if it accepts the packet. */
  function Checked<X>(e: End<X>, packet: seq<byte>): Option<End<X>>
    requires e.Wf()
  {
    match e.remoteMac
    case None => Some(e)
    case Some(mac) =>
      if !HasMac(packet) then None else
        var pos := K.RequestPos(e.prev, Read32(packet, PacketOffsets(packet[0]).value.keyPos));
        if Authentic(mac, packet, pos) then Some(e.(prev := pos)) else None
  }

  /** takion_parse_message commits the key position before it looks at the rest. */
  function Seen<X>(e: End<X>, packet: seq<byte>): End<X>
    requires e.Wf() && |packet| > 0
  {
    if |packet| - 1 < HEADER_SIZE then e else e.(prev := K.RequestPos(e.prev, Read32(packet[1..], 8)))
  }

  /** The end after a packet, the items it pulled, and the acknowledgement it
      gives to the socket. */
  datatype Handled<X> = Handled(end: End<X>, items: seq<W.Item<D.Payload>>, ack: Option<seq<byte>>)

  /** takion_handle_packet_message_data. */
  function HandledData<X>(e: End<X>, payload: seq<byte>): Handled<X>
    requires e.Wf() && |payload| >= DATA_HEADER_SIZE
  {
    var pos := Filed(Bits32, e.window.base, Read32(payload, 0));
    Flushed(e.(window := W.Push(e.window, D.QUEUE_SIZE, W.DropEnd, pos, payload).window))
  }

  /** takion_flush_data_queue. */
  function Flushed<X>(e: End<X>): Handled<X>
    requires e.Wf()
  {
    var d := D.Drain(e.window);
    var pulled := e.(window := d.window, events := e.events + Callbacks(d.items));
    if d.items == [] then Handled(pulled, [], None) else Acknowledged(pulled, d.items)
  }

  /** One acknowledgement of the last item, unless the key positions run out. */
  function Acknowledged<X>(e: End<X>, items: seq<W.Item<D.Payload>>): Handled<X>
    requires e.Wf() && items != []
  {
    match TakeKeys(e, 0x1d)
    case None => Handled(e, items, None)
    case Some(r) =>
      var plain := AckPacket(e.tagRemote, r.keyPos, Num(Bits32, items[|items| - 1].0));
      Handled(r.end, items, Some(Seal(e.crypt, e.mac, plain, r.keyPos)))
  }

  /** takion_handle_packet_message_data_ack, with one event for each number freed. */
  function HandledAck<X>(e: End<X>, seqNum: nat): End<X> {
    e.(buffer := B.Kept(e.buffer, seqNum), events := e.events + AckEvents(B.Covered(e.buffer, seqNum)))
  }

  /** takion_handle_packet. */
  function Handle<X>(e: End<X>, packet: seq<byte>): Handled<X>
    requires e.Wf() && |packet| > 0
  {
    match Checked(e, packet)
    case None => Handled(e, [], None)
    case Some(checked) =>
      if packet[0] as int % 16 != PACKET_CONTROL as int then Handled(checked, [], None) else
        var seen := Seen(checked, packet);
        match Read(packet, e.tagLocal)
        case Ignored => Handled(seen, [], None)
        case DataChunk(payload) => HandledData(seen, payload)
        case AckChunk(seqNum) => Handled(HandledAck(seen, seqNum), [], None)
  }

  /** What an end makes of a packet: what it says, if it is accepted. */
  function Heard<X>(e: End<X>, packet: seq<byte>): Incoming
    requires e.Wf() && |packet| > 0
  {
    if Checked(e, packet) == None then Ignored else Read(packet, e.tagLocal)
  }

  /** The acknowledgement of position last that an end sends next. */
  function SealedAck<X>(e: End<X>, last: int): (packet: seq<byte>)
    requires e.Wf()
  {
    var keyPos := if e.crypt then e.keyPosLocal else 0;
    Seal(e.crypt, e.mac, AckPacket(e.tagRemote, keyPos, Num(Bits32, last)), keyPos)
  }

  /** Everything but the keys, the positions, and what a packet can change. */
  predicate SameEnd<X>(e: End<X>, f: End<X>) {
    f.Wf() && f.tagLocal == e.tagLocal && f.tagRemote == e.tagRemote && f.seqNumLocal == e.seqNumLocal
  }

  /** The acknowledgement that follows a data chunk: one if anything was pulled
      and 0x1d key positions are left, and then the peer reads the number of the
      last item in it. */
  ghost predicate Acknowledges<X>(e: End<X>, h: Handled<X>)
    requires e.Wf()
  {
    && (h.ack.Some? <==> h.items != [] && HasKeys(e, 0x1d))
    && if h.ack == None then h.end.keyPosLocal == e.keyPosLocal else
         var keyPos := if e.crypt then e.keyPosLocal else 0;
         && Reserves(e, 0x1d, keyPos, h.end)
         && |h.ack.value| == 0x1d
         && Read(Received(h.ack.value), e.tagRemote) == AckChunk(Num(Bits32, h.items[|h.items| - 1].0))
         && Read32(h.ack.value, 9) == keyPos % U32
         && (e.crypt ==> Authentic(e.mac, h.ack.value, keyPos))
  }

  /** A data chunk is received as by the data channel and acknowledged once, by
      its last item. */
  ghost predicate Receives<X>(e: End<X>, payload: seq<byte>, h: Handled<X>)
    requires e.Wf()
  {
    && |payload| >= DATA_HEADER_SIZE
    && D.Drained(h.end.window, h.items) == D.Receive(e.window, payload)
    && h.end.buffer == e.buffer && h.end.events == e.events + Callbacks(h.items)
    && (h.ack.Some? ==> h.items != [] && h.ack.value == SealedAck(e, h.items[|h.items| - 1].0))
    && Acknowledges(e, h)
  }

  /** What is pulled is acknowledged whenever the key positions allow it. */
  lemma PulledIsAcknowledged<X>(e: End<X>, items: seq<W.Item<D.Payload>>)
    requires e.Wf() && items != []
    ensures Acknowledges(e, Acknowledged(e, items))
  {
    hide Seal, AckPacket, Num, Authentic, Read, HasMac;
    TakesKeys(e, 0x1d);
    if HasKeys(e, 0x1d) {
      var keyPos := TakeKeys(e, 0x1d).value.keyPos;
      var n := Num(Bits32, items[|items| - 1].0);
      AckReads(e.crypt, e.mac, e.tagRemote, keyPos, n);
      AckSealed(e.crypt, e.mac, e.tagRemote, keyPos, n);
    }
  }

  lemma AckSealed(crypt: bool, mac: Tagger, tag: nat, keyPos: nat, seqNum: nat)
    requires tag < U32 && seqNum < U32
    ensures var p := Seal(crypt, mac, AckPacket(tag, keyPos, seqNum), keyPos);
            Read32(p, 9) == keyPos % U32 && (crypt ==> Authentic(mac, p, keyPos))
  {
    hide Parse, AckPayload, Blank, Authentic;
    SealedParses(crypt, mac, tag, keyPos, CHUNK_DATA_ACK, 0, AckPayload(seqNum), tag);
    SignedIsAuthentic(mac, AckPacket(tag, keyPos, seqNum), keyPos, keyPos);
  }

  lemma DataDoes<X>(e: End<X>, payload: seq<byte>)
    requires e.Wf() && |payload| >= DATA_HEADER_SIZE
    ensures var h := HandledData(e, payload); SameEnd(e, h.end) && Receives(e, payload, h)
  {
    hide Seal, AckPacket, Acknowledges;
    var pushed := W.Push(e.window, D.QUEUE_SIZE, W.DropEnd, Filed(Bits32, e.window.base, Read32(payload, 0)), payload).window;
    var d := D.Drain(pushed);
    if d.items != [] {
      var pulled := e.(window := d.window, events := e.events + Callbacks(d.items));
      PulledIsAcknowledged(pulled, d.items);
      assert HandledData(e, payload) == Acknowledged(pulled, d.items);
      SameAcknowledged(e, pulled, Acknowledged(pulled, d.items));
    } else {
      NothingAcknowledged(e, HandledData(e, payload));
    }
  }

  /** Only keys, tags and positions matter to an acknowledgement. */
  lemma SameAcknowledged<X>(e: End<X>, f: End<X>, h: Handled<X>)
    requires e.Wf() && f == e.(window := f.window, events := f.events, prev := f.prev) && f.Wf() && Acknowledges(f, h)
    ensures Acknowledges(e, h)
  {
    hide Read, Authentic, Num;
  }

  lemma NothingAcknowledged<X>(e: End<X>, h: Handled<X>)
    requires e.Wf() && h.items == [] && h.ack == None && h.end.keyPosLocal == e.keyPosLocal
    ensures Acknowledges(e, h)
  {
  }

  /** Handling a packet does what was heard, whatever becomes of the keys. */
  lemma HandleDoes<X>(e: End<X>, packet: seq<byte>)
    requires e.Wf() && |packet| > 0
    ensures var h := Handle(e, packet);
            && SameEnd(e, h.end)
            && match Heard(e, packet)
               case Ignored =>
                 && h.end.window == e.window && h.end.buffer == e.buffer && h.end.events == e.events && h.items == []
                 && h.ack == None && h.end.keyPosLocal == e.keyPosLocal
               case DataChunk(payload) => Receives(e, payload, h)
               case AckChunk(n) =>
                 && h.end.window == e.window && h.items == [] && h.ack == None && h.end.keyPosLocal == e.keyPosLocal
                 && h.end.buffer == B.Kept(e.buffer, n) && h.end.events == e.events + AckEvents(B.Covered(e.buffer, n))
  {
    hide Read, HandledData, B.Kept, B.Covered, AckEvents, Authentic, HasMac, K.RequestPos, D.Receive, Callbacks,
      Acknowledges;
    if Heard(e, packet).DataChunk? {
      var seen, payload := Seen(Checked(e, packet).value, packet), Heard(e, packet).payload;
      DataDoes(seen, payload);
      SameAcknowledged(e, seen, HandledData(seen, payload));
    }
  }

  /** Which key position is remembered. A rejected packet changes nothing. An
      accepted control packet with a whole header moves it to the position rebuilt
      from bytes 9 to 12, whether or not there is a crypt and whatever else the
      message says; other packets do so only if there is one, from their place. */
  lemma {:induction false} HandleCommits<X>(e: End<X>, packet: seq<byte>)
    requires e.Wf() && |packet| > 0
    ensures var prev := Handle(e, packet).end.prev;
            var at := match packet[0] as int % 16 case 0 => 9 case 5 => 11 case _ => 14;
            if Checked(e, packet) == None then prev == e.prev
            else if e.remoteMac.Some? then at + 4 <= |packet| && prev == K.RequestPos(e.prev, Read32(packet, at))
            else if packet[0] as int % 16 == 0 && |packet| >= 17 then prev == K.RequestPos(e.prev, Read32(packet, 9))
            else prev == e.prev
  {
    hide Read, HandledData, Authentic, K.RequestPos, HandledAck;
    if Checked(e, packet).Some? {
      var checked := Checked(e, packet).value;
      var seen := Seen(checked, packet);
      if packet[0] as int % 16 == 0 && |packet| >= 17 {
        assert Read32(packet[1..], 8) == Read32(packet, 9);
        K.CommittedIsStable(checked.prev);
        RebuiltAgain(e.prev, Read32(packet, 9));
      }
      match Read(packet, e.tagLocal)
      case Ignored =>
      case DataChunk(payload) => DataKeepsPrev(seen, payload);
      case AckChunk(n) => AckKeepsPrev(seen, n);
    }
  }

  lemma RebuiltAgain(prev: nat, low: nat)
    requires prev < U64 && low < U32
    ensures var pos := K.RequestPos(prev, low); pos % U32 == low && K.RequestPos(pos, low) == pos
  {
    K.CommittedIsStable(K.RequestPos(prev, low));
  }

  lemma DataKeepsPrev<X>(e: End<X>, payload: seq<byte>)
    requires e.Wf() && |payload| >= DATA_HEADER_SIZE
    ensures HandledData(e, payload).end.prev == e.prev
  {
    hide Seal, AckPacket, D.Drain, W.Push;
  }

  lemma AckKeepsPrev<X>(e: End<X>, n: nat)
    ensures HandledAck(e, n).prev == e.prev
  {
  }

  // ---------------------------------------------------------------- nothing depends on what the buffer holds

  function MappedBuffer<X, Y>(ps: seq<B.Packet<X>>, f: X -> Y): (r: seq<B.Packet<Y>>)
    ensures |r| == |ps|
    ensures forall i :: 0 <= i < |ps| ==> r[i] == B.Packet(ps[i].seqNum, ps[i].tries, ps[i].lastSendMs, f(ps[i].buf))
  {
    Images(ps, OnBuffer(f))
  }

  function OnBuffer<X, Y>(f: X -> Y): B.Packet<X> -> B.Packet<Y> {
    (p: B.Packet<X>) => B.Packet(p.seqNum, p.tries, p.lastSendMs, f(p.buf))
  }

  function Mapped<X, Y>(e: End<X>, f: X -> Y): (r: End<Y>)
    ensures e.Wf() ==> r.Wf()
  {
    End(e.tagLocal, e.tagRemote, e.crypt, e.mac, e.keyPosLocal, e.seqNumLocal, e.remoteMac, e.prev, e.window,
        MappedBuffer(e.buffer, f), e.events)
  }

  lemma AckedMapped<X, Y>(ps: seq<B.Packet<X>>, f: X -> Y, n: int)
    ensures MappedBuffer(B.Kept(ps, n), f) == B.Kept(MappedBuffer(ps, f), n)
    ensures B.Covered(ps, n) == B.Covered(MappedBuffer(ps, f), n)
  {
    B.AckImages(ps, OnBuffer(f), n);
  }

  lemma {:induction false} OverdueMapped<X, Y>(ps: seq<B.Packet<X>>, f: X -> Y, now: nat)
    ensures B.Overdue(MappedBuffer(ps, f), now) == Images(B.Overdue(ps, now), f)
    decreases |ps|
  {
    hide B.Due;
    if ps == [] {
      assert MappedBuffer(ps, f) == [];
    } else {
      var front, last := ps[..|ps| - 1], ps[|ps| - 1];
      OverdueMapped(front, f, now);
      assert MappedBuffer(ps, f)[..|ps| - 1] == MappedBuffer(front, f);
      assert B.Due(MappedBuffer(ps, f)[|ps| - 1], now) == B.Due(last, now) by {
        DueMapped(last, f(last.buf), now);
      }
      assert Images(B.Overdue(front, now) + [last.buf], f) == Images(B.Overdue(front, now), f) + [f(last.buf)];
    }
  }

  lemma DueMapped<X, Y>(p: B.Packet<X>, y: Y, now: nat)
    ensures B.Due(B.Packet(p.seqNum, p.tries, p.lastSendMs, y), now) == B.Due(p, now)
  {
  }

  lemma NumberMapped<X, Y>(e: End<X>, f: X -> Y, flags: byte, channel: nat, body: seq<byte>)
    requires e.Wf() && channel < 0x1_0000
    ensures Number(Mapped(e, f), flags, channel, body)
            == match Number(e, flags, channel, body)
               case None => None
               case Some(m) => Some(Numbered(Mapped(m.end, f), m.seqNum, m.packet))
  {
    hide Seal, DataPacket;
  }

  lemma KeptMapped<X, Y>(e: End<X>, f: X -> Y, seqNum: int, x: X, now: nat)
    ensures Mapped(Kept(e, seqNum, x, now), f) == Kept(Mapped(e, f), seqNum, f(x), now)
  {
  }

  lemma ResentMapped<X, Y>(e: End<X>, f: X -> Y, now: nat)
    ensures Mapped(Resent(e, now), f) == Resent(Mapped(e, f), now)
  {
  }

  lemma DataMapped<X, Y>(e: End<X>, f: X -> Y, payload: seq<byte>)
    requires e.Wf() && |payload| >= DATA_HEADER_SIZE
    ensures var h := HandledData(e, payload);
            HandledData(Mapped(e, f), payload) == Handled(Mapped(h.end, f), h.items, h.ack)
  {
    hide Seal, AckPacket;
  }

  /** A packet does to an end and to its image what it does. */
  lemma HandleMapped<X, Y>(e: End<X>, f: X -> Y, packet: seq<byte>)
    requires e.Wf() && |packet| > 0
    ensures var h := Handle(e, packet);
            Handle(Mapped(e, f), packet) == Handled(Mapped(h.end, f), h.items, h.ack)
  {
    hide Read, HandledData, Authentic, K.RequestPos, B.Kept, B.Covered, AckEvents, MappedBuffer;
    match Heard(e, packet)
    case Ignored =>
    case DataChunk(payload) => DataMapped(Seen(Checked(e, packet).value, packet), f, payload);
    case AckChunk(n) => AckedMapped(e.buffer, f, n);
  }

  // ---------------------------------------------------------------- from one end to the other

  /** The tag is no part of what a message says. */
  lemma {:induction false} ParseIgnoresMac(buf: seq<byte>, m: seq<byte>, tagLocal: nat)
    requires |m| == 4 && |buf| >= HEADER_SIZE
    ensures Parse(Splice(buf, 4, m), tagLocal) == Parse(buf, tagLocal)
  {
    var s := Splice(buf, 4, m);
    assert forall i :: 0 <= i < 4 || 8 <= i < |buf| ==> s[i] == buf[i];
    assert s[0x10..] == buf[0x10..];
  }

  /** A sealed control packet is read, by the end it is addressed to, as the
      message it was made of, exactly if its size field does not wrap. */
  lemma {:induction false} SealedParses(crypt: bool, mac: Tagger, tag: nat, keyPos: nat, chunkType: byte, flags: byte,
      payload: seq<byte>, tagLocal: nat)
    requires tag < U32
    ensures var p := Seal(crypt, mac, ControlPacket(tag, keyPos, chunkType, flags, payload), keyPos);
            && p[0] == PACKET_CONTROL && HasMac(p)
            && Read32(p, 9) == Read32(p[1..], 8) == keyPos % U32
            && Parse(p[1..], tagLocal) ==
                 if tag != tagLocal then TagMismatch
                 else if |payload| + 4 < 0x1_0000 then Parsed(Message(keyPos % U32, chunkType, flags, payload))
                 else SizeMismatch
  {
    var plain := ControlPacket(tag, keyPos, chunkType, flags, payload);
    var p := Seal(crypt, mac, plain, keyPos);
    HeaderFields(tag, keyPos, chunkType, flags, payload);
    var message := Header(tag, keyPos, chunkType, flags, |payload|) + payload;
    var m := if crypt then mac(keyPos, Blank(plain)) else Zeros(4);
    hide Header, Blank, Seal, HasMac;
    assert plain[1..] == message;
    SealedBytes(crypt, mac, plain, keyPos);
    assert p[1..] == Splice(message, 4, m);
    ParseIgnoresMac(message, m, tagLocal);
    assert forall i :: 8 <= i < 12 ==> p[1..][i] == p[i + 1] == message[i];
  }

  /** What a sealed packet has in its header and after it. */
  lemma {:induction false} SealedFields(crypt: bool, mac: Tagger, tag: nat, keyPos: nat, chunkType: byte, flags: byte,
      payload: seq<byte>)
    requires tag < U32
    ensures var buf := Seal(crypt, mac, ControlPacket(tag, keyPos, chunkType, flags, payload), keyPos)[1..];
            && Read32(buf, 0) == tag && Read16(buf, 0xe) == (|payload| + 4) % 0x1_0000
            && buf[0xc] == chunkType && buf[0xd] == flags && buf[0x10..] == payload
  {
    var plain := ControlPacket(tag, keyPos, chunkType, flags, payload);
    HeaderFields(tag, keyPos, chunkType, flags, payload);
    var message := Header(tag, keyPos, chunkType, flags, |payload|) + payload;
    hide Header, Blank, Seal, HasMac;
    assert plain[1..] == message;
    SealedBytes(crypt, mac, plain, keyPos);
    var buf := Seal(crypt, mac, plain, keyPos)[1..];
    assert buf == Splice(message, 4, if crypt then mac(keyPos, Blank(plain)) else Zeros(4));
    assert forall i :: 0 <= i < 4 || 8 <= i < |buf| ==> buf[i] == message[i];
    assert buf[0x10..] == message[0x10..];
  }

  /** A control packet on the wire, byte by byte. */
  lemma {:induction false} SealedLayout(crypt: bool, mac: Tagger, tag: nat, keyPos: nat, chunkType: byte, flags: byte,
      payload: seq<byte>)
    requires tag < U32
    ensures var plain := ControlPacket(tag, keyPos, chunkType, flags, payload);
            var p := Seal(crypt, mac, plain, keyPos);
            && |p| == 17 + |payload| && p[0] == 0
            && BigEndian(p[1..5], tag) && p[5..9] == (if crypt then mac(keyPos, Blank(plain)) else [0, 0, 0, 0])
            && BigEndian(p[9..13], keyPos % 0x1_0000_0000) && p[13] == chunkType && p[14] == flags
            && BigEndian(p[15..17], (|payload| + 4) % 0x1_0000) && p[17..] == payload
  {
    var plain := ControlPacket(tag, keyPos, chunkType, flags, payload);
    HeaderLayout(tag, keyPos, chunkType, flags, |payload|);
    SealedBytes(crypt, mac, plain, keyPos);
    var h := Header(tag, keyPos, chunkType, flags, |payload|);
    assert plain == [0] + h + payload;
    hide Header, Blank, Seal, HasMac, ControlPacket, BigEndian;
    SealedOnWire(plain, h, payload, if crypt then mac(keyPos, Blank(plain)) else Zeros(4));
  }

  lemma {:induction false} SealedOnWire(plain: seq<byte>, h: seq<byte>, payload: seq<byte>, m: seq<byte>)
    requires |h| == 16 && plain == [0] + h + payload && |m| == 4
    ensures var p := Splice(plain, 5, m);
            && p[0] == 0 && p[1..5] == h[0..4] && p[5..9] == m && p[9..13] == h[8..12] && p[13] == h[12] && p[14] == h[13]
            && p[15..17] == h[14..16] && p[17..] == payload
  {
    var p := Splice(plain, 5, m);
    assert forall i :: 1 <= i < 5 || 9 <= i < 17 ==> p[i] == h[i - 1];
    assert forall i :: 17 <= i < |p| ==> p[i] == payload[i - 17];
    assert forall i :: 5 <= i < 9 ==> p[i] == m[i - 5];
  }

  /** A data message on the wire is chunk type 0 with flags, number, channel and
      body as given; an acknowledgement is chunk type 3 with its number. */
  lemma {:induction false} ChunksOnWire(crypt: bool, mac: Tagger, tag: nat, keyPos: nat, flags: byte, seqNum: nat,
      channel: nat, body: seq<byte>)
    requires tag < U32 && seqNum < U32 && channel < 0x1_0000
    ensures var p := Seal(crypt, mac, DataPacket(tag, keyPos, flags, seqNum, channel, body), keyPos);
            && |p| == 26 + |body| && p[0] == 0 && BigEndian(p[1..5], tag) && p[13] == 0 && p[14] == flags
            && BigEndian(p[17..][0..4], seqNum) && BigEndian(p[17..][4..6], channel)
            && p[17..][6..9] == [0, 0, 0] && p[17..][9..] == body
    ensures var p := Seal(crypt, mac, AckPacket(tag, keyPos, seqNum), keyPos);
            && |p| == 29 && p[0] == 0 && BigEndian(p[1..5], tag) && p[13] == 3 && p[14] == 0
            && BigEndian(p[17..][0..4], seqNum) && p[17..][4..] == [0x00, 0x01, 0x90, 0x00, 0, 0, 0, 0]
  {
    SealedLayout(crypt, mac, tag, keyPos, CHUNK_DATA, flags, DataPayload(seqNum, channel, body));
    SealedLayout(crypt, mac, tag, keyPos, CHUNK_DATA_ACK, 0, AckPayload(seqNum));
    DataLayout(seqNum, channel, body);
    AckLayout(seqNum);
    hide Seal, ControlPacket, DataPayload, AckPayload, HasMac, BigEndian;
  }

  /** Sealing a control packet replaces bytes 5 to 8. */
  lemma {:induction false} SealedBytes(crypt: bool, mac: Tagger, plain: seq<byte>, keyPos: nat)
    requires HasMac(plain) && plain[0] == PACKET_CONTROL
    ensures Seal(crypt, mac, plain, keyPos) == Splice(plain, 5, if crypt then mac(keyPos, Blank(plain)) else Zeros(4))
    ensures HasMac(Seal(crypt, mac, plain, keyPos))
  {
  }

  /** A signed packet that names the low half of its key position, control packets
      at byte 9, congestion packets at 11, video and audio packets at 14, is
      accepted exactly if its bytes have the same tag at the position rebuilt from
      that; where the position can be rebuilt it always is. */
  lemma {:induction false} SignedIsAccepted<X>(e: End<X>, mac: Tagger, packet: seq<byte>, keyPos: nat)
    requires e.Wf() && e.remoteMac == Some(mac) && HasMac(packet) && keyPos < U64
    requires Read32(packet, match packet[0] as int % 16 case 0 => 9 case 5 => 11 case _ => 14) == keyPos % U32
    ensures var pos := K.RequestPos(e.prev, keyPos % U32);
            Checked(e, Sign(mac, packet, keyPos))
              == if mac(pos, Blank(packet)) == mac(keyPos, Blank(packet)) then Some(e.(prev := pos)) else None
    ensures K.Recoverable(e.prev, keyPos) ==> Checked(e, Sign(mac, packet, keyPos)) == Some(e.(prev := keyPos))
  {
    var signed := Sign(mac, packet, keyPos);
    SignedIsAuthentic(mac, packet, keyPos, K.RequestPos(e.prev, keyPos % U32));
    SignedBytes(mac, packet, keyPos);
    var at := PacketOffsets(packet[0]).value.keyPos;
    assert forall i :: at <= i < at + 4 ==> signed[i] == packet[i];
    assert signed[0] == packet[0];
    K.RecoveredExactly(e.prev, keyPos);
    hide Blank, Sign, K.RequestPos, K.Recoverable, HasMac, Authentic;
  }

  /** A signed control packet is accepted exactly if its bytes have the same tag
      at the position rebuilt from it; that is so wherever the position can be
      rebuilt. */
  lemma {:induction false} SignedAccepted<X>(e: End<X>, mac: Tagger, tag: nat, keyPos: nat, chunkType: byte, flags: byte,
      payload: seq<byte>)
    requires e.Wf() && e.remoteMac == Some(mac) && tag < U32 && keyPos < U64
    ensures var plain := ControlPacket(tag, keyPos, chunkType, flags, payload);
            var pos := K.RequestPos(e.prev, keyPos % U32);
            Checked(e, Seal(true, mac, plain, keyPos))
              == if mac(pos, Blank(plain)) == mac(keyPos, Blank(plain)) then Some(e.(prev := pos)) else None
    ensures K.Recoverable(e.prev, keyPos) ==> K.RequestPos(e.prev, keyPos % U32) == keyPos
  {
    var plain := ControlPacket(tag, keyPos, chunkType, flags, payload);
    SealedParses(true, mac, tag, keyPos, chunkType, flags, payload, tag);
    SignedIsAuthentic(mac, plain, keyPos, K.RequestPos(e.prev, keyPos % U32));
    K.RecoveredExactly(e.prev, keyPos);
    hide ControlPacket, Parse, Blank, K.RequestPos, K.Recoverable, HasMac, Authentic;
  }

  /** A packet that still has the tag it was signed with but differs from the
      signed one in size or in a byte the tag covers. */
  predicate Altered(signed: seq<byte>, q: seq<byte>)
    requires HasMac(signed)
  {
    && (HasMac(q) ==> ReadMac(q) == ReadMac(signed))
    && (|q| != |signed| || exists i :: 0 <= i < |q| && Covers(signed[0], i) && q[i] != signed[i])
  }

  /** An altered packet is accepted exactly if two different inputs collide under
      the peer's tag function. Otherwise it is dropped without a trace: no key
      position is committed, nothing is pulled, nothing is sent. */
  lemma {:induction false} AlteredIsDropped<X>(e: End<X>, mac: Tagger, packet: seq<byte>, keyPos: nat, q: seq<byte>)
    requires e.Wf() && e.remoteMac == Some(mac) && HasMac(packet) && q != []
    requires Altered(Sign(mac, packet, keyPos), q)
    ensures HasMac(q) ==> Blank(q) != Blank(packet)
    ensures if HasMac(q) && mac(K.RequestPos(e.prev, Read32(q, PacketOffsets(q[0]).value.keyPos)), Blank(q))
                            == mac(keyPos, Blank(packet))
            then Checked(e, q).Some? else Handle(e, q) == Handled(e, [], None)
  {
    var signed := Sign(mac, packet, keyPos);
    SignedIsAuthentic(mac, packet, keyPos, keyPos);
    SignedBytes(mac, packet, keyPos);
    if HasMac(q) {
      CoveredExactly(signed, q);
    }
    hide Blank, Sign, HasMac, K.RequestPos, Read, Seen, HandledData, HandledAck;
  }

  /** A packet that was cut off is rejected, unless its size field wrapped to just
      the size it was cut to. */
  lemma {:induction false} CutParses(buf: seq<byte>, n: nat, tagLocal: nat)
    requires HEADER_SIZE <= n < |buf|
    ensures Parse(buf[..n], tagLocal) ==
              if Read32(buf, 0) != tagLocal then TagMismatch
              else if n != Read16(buf, 0xe) + 0xc then SizeMismatch
              else Parsed(Message(Read32(buf, 8), buf[0xc], buf[0xd], buf[0x10..n]))
  {
    assert buf[..n][0x10..] == buf[0x10..n];
  }

  /** What a sealed data packet says to its addressee: number, channel and body
      as they were sent if it fits the receive buffer. A longer one is cut off and
      says nothing, but for sizes no datagram has: there the size field wraps to
      that of the piece. */
  lemma {:induction false} DataReads(crypt: bool, mac: Tagger, tag: nat, keyPos: nat, flags: byte, seqNum: nat,
      channel: nat, body: seq<byte>)
    requires tag < U32 && seqNum < U32 && channel < 0x1_0000
    ensures var size := 26 + |body|;
            Read(Received(Seal(crypt, mac, DataPacket(tag, keyPos, flags, seqNum, channel, body), keyPos)), tag)
            == if size <= 1500 then DataChunk(DataPayload(seqNum, channel, body))
               else if size % 0x1_0000 == 1500 then DataChunk(DataPayload(seqNum, channel, body)[..1483])
               else Ignored
  {
    hide Parse, Seal, ControlPacket, DataPayload, HasMac;
    var payload := DataPayload(seqNum, channel, body);
    SealedParses(crypt, mac, tag, keyPos, CHUNK_DATA, flags, payload, tag);
    if DataSize(body) > RECV_SIZE {
      CutPacketParses(crypt, mac, tag, keyPos, CHUNK_DATA, flags, payload);
    }
  }

  lemma {:induction false} CutPacketParses(crypt: bool, mac: Tagger, tag: nat, keyPos: nat, chunkType: byte, flags: byte,
      payload: seq<byte>)
    requires tag < U32 && |payload| > RECV_SIZE - 17
    ensures var p := Received(Seal(crypt, mac, ControlPacket(tag, keyPos, chunkType, flags, payload), keyPos));
            && p[0] == PACKET_CONTROL
            && if (|payload| + 17) % 0x1_0000 != RECV_SIZE then Parse(p[1..], tag) == SizeMismatch
               else Parse(p[1..], tag) == Parsed(Message(keyPos % U32, chunkType, flags, payload[..RECV_SIZE - 17]))
  {
    hide Parse, Seal, ControlPacket, HasMac;
    var p := Seal(crypt, mac, ControlPacket(tag, keyPos, chunkType, flags, payload), keyPos);
    SealedParses(crypt, mac, tag, keyPos, chunkType, flags, payload, tag);
    SealedFields(crypt, mac, tag, keyPos, chunkType, flags, payload);
    assert Received(p)[1..] == p[1..][..RECV_SIZE - 1];
    CutParses(p[1..], RECV_SIZE - 1, tag);
    assert p[1..][0x10..RECV_SIZE - 1] == p[1..][0x10..][..RECV_SIZE - 17];
  }

  /** The size of a data packet. */
  function DataSize(body: seq<byte>): nat {
    1 + HEADER_SIZE + DATA_HEADER_SIZE + |body|
  }

  lemma {:induction false} AckReads(crypt: bool, mac: Tagger, tag: nat, keyPos: nat, seqNum: nat)
    requires tag < U32 && seqNum < U32
    ensures var p := Seal(crypt, mac, AckPacket(tag, keyPos, seqNum), keyPos);
            Received(p) == p && Read(p, tag) == AckChunk(seqNum)
  {
    SealedParses(crypt, mac, tag, keyPos, CHUNK_DATA_ACK, 0, AckPayload(seqNum), tag);
    AckRoundTrip(seqNum);
    hide Parse, Seal, ControlPacket, AckPayload, ReadAck, HasMac;
  }

  /** Sending a message fails exactly if the key positions do not reach for its
      body. Otherwise it takes the next number and one position for each byte of
      the body; the packet names the first of these, is signed at it, and says
      the message to the peer if it fits the receive buffer. */
  lemma {:induction false} NumberSends<X>(e: End<X>, flags: byte, channel: nat, body: seq<byte>)
    requires e.Wf() && channel < 0x1_0000
    ensures Number(e, flags, channel, body).Some? <==> HasKeys(e, |body|)
    ensures Number(e, flags, channel, body).Some? ==>
              var m := Number(e, flags, channel, body).value;
              var keyPos := if e.crypt then e.keyPosLocal else 0;
              && m.end == e.(seqNumLocal := (e.seqNumLocal + 1) % 0x1_0000_0000, keyPosLocal := m.end.keyPosLocal)
              && Reserves(e, |body|, keyPos, m.end) && m.seqNum == e.seqNumLocal
              && |m.packet| == 26 + |body| && Read32(m.packet, 9) == keyPos % U32
              && (if e.crypt then Authentic(e.mac, m.packet, keyPos) else m.packet[5..9] == [0, 0, 0, 0])
              && (|m.packet| <= 1500 ==>
                    Read(Received(m.packet), e.tagRemote) == DataChunk(DataPayload(e.seqNumLocal, channel, body)))
  {
    hide DataPacket, Seal, Authentic, Read, Received;
    TakesKeys(e, |body|);
    if HasKeys(e, |body|) {
      var keyPos := TakeKeys(e, |body|).value.keyPos;
      DataSealed(e.crypt, e.mac, e.tagRemote, keyPos, flags, e.seqNumLocal, channel, body);
      DataReads(e.crypt, e.mac, e.tagRemote, keyPos, flags, e.seqNumLocal, channel, body);
    }
  }

  lemma {:induction false} DataSealed(crypt: bool, mac: Tagger, tag: nat, keyPos: nat, flags: byte, seqNum: nat,
      channel: nat, body: seq<byte>)
    requires tag < U32 && seqNum < U32 && channel < 0x1_0000
    ensures var p := Seal(crypt, mac, DataPacket(tag, keyPos, flags, seqNum, channel, body), keyPos);
            && |p| == DataSize(body) && Read32(p, 9) == keyPos % U32
            && if crypt then Authentic(mac, p, keyPos) else p[5..9] == [0, 0, 0, 0]
  {
    var payload := DataPayload(seqNum, channel, body);
    SealedParses(crypt, mac, tag, keyPos, CHUNK_DATA, flags, payload, tag);
    var plain := ControlPacket(tag, keyPos, CHUNK_DATA, flags, payload);
    SignedIsAuthentic(mac, plain, keyPos, keyPos);
    SealedBytes(crypt, mac, plain, keyPos);
    hide Parse, DataPayload, Blank, Authentic, HasMac, Header;
  }

  /** A data packet signed for this end, at a position it can rebuild, is received
      with its number, channel and body if it fits the receive buffer. A longer
      datagram is ignored. */
  lemma {:induction false} SentDataArrives<X>(e: End<X>, mac: Tagger, keyPos: nat, flags: byte, seqNum: nat,
      channel: nat, body: seq<byte>)
    requires e.Wf() && e.remoteMac == Some(mac) && keyPos < U64 && K.Recoverable(e.prev, keyPos)
    requires seqNum < U32 && channel < 0x1_0000
    ensures var p := Received(Seal(true, mac, DataPacket(e.tagLocal, keyPos, flags, seqNum, channel, body), keyPos));
            if 26 + |body| <= 1500 then Handle(e, p) == HandledData(e.(prev := keyPos), DataPayload(seqNum, channel, body))
            else 26 + |body| < 0x1_0000 ==> Heard(e, p) == Ignored
  {
    hide Parse, Seal, ControlPacket, DataPayload, HasMac, Checked, Read, HandledData, K.RequestPos, K.Recoverable;
    var payload := DataPayload(seqNum, channel, body);
    DataReads(true, mac, e.tagLocal, keyPos, flags, seqNum, channel, body);
    if DataSize(body) <= RECV_SIZE {
      SignedAccepted(e, mac, e.tagLocal, keyPos, CHUNK_DATA, flags, payload);
      SealedParses(true, mac, e.tagLocal, keyPos, CHUNK_DATA, flags, payload, e.tagLocal);
      K.CommittedIsStable(keyPos);
    }
  }

  /** So is an acknowledgement. */
  lemma {:induction false} SentAckArrives<X>(e: End<X>, mac: Tagger, keyPos: nat, seqNum: nat)
    requires e.Wf() && e.remoteMac == Some(mac) && keyPos < U64 && K.Recoverable(e.prev, keyPos) && seqNum < U32
    ensures Handle(e, Received(Seal(true, mac, AckPacket(e.tagLocal, keyPos, seqNum), keyPos)))
            == Handled(HandledAck(e.(prev := keyPos), seqNum), [], None)
  {
    SignedAccepted(e, mac, e.tagLocal, keyPos, CHUNK_DATA_ACK, 0, AckPayload(seqNum));
    SealedParses(true, mac, e.tagLocal, keyPos, CHUNK_DATA_ACK, 0, AckPayload(seqNum), e.tagLocal);
    AckReads(true, mac, e.tagLocal, keyPos, seqNum);
    K.CommittedIsStable(keyPos);
    hide Parse, Seal, ControlPacket, AckPayload, HasMac, Checked, Read, HandledAck, K.RequestPos, K.Recoverable;
  }
}
