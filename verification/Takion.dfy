/** One end of a Takion connection after the handshake, as the object its handlers
    update: each does to the ring, the send buffer and the key state what the
    function of TakionEnd does to its view. */
module Takion {
  import opened Bytes
  import opened SeqNum
  import opened TakionMessage
  import opened PacketMac
  import opened TakionEnd
  import W = ReorderWindow
  import R = ReorderQueue
  import B = SendBuffer
  import D = DataChannel
  import K = KeyState
  import FP = FeedbackPacket
  import G = GkCrypt

  const REORDER_QUEUE_SIZE_EXP: nat := 4

  datatype InitAck = InitAck(tag: nat, outboundStreams: nat, inboundStreams: nat)

  lemma NoAckEvents()
    ensures AckEvents([]) == []
  {
  }

  lemma {:induction false} AckEventsSnoc(nums: seq<int>, n: int)
    ensures AckEvents(nums + [n]) == AckEvents(nums) + [DataAck(n)]
  {
  }

  // Facts about draining, one pull at a time.

  /** Pulling done has led from window m0 to window m. */
  ghost predicate DrainedSoFar(m0: W.Window<D.Payload>, done: seq<W.Item<D.Payload>>, m: W.Window<D.Payload>) {
    D.Drain(m0) == D.Drained(D.Drain(m).window, done + D.Drain(m).items)
  }

  lemma {:induction false} DrainBegins(m0: W.Window<D.Payload>)
    ensures DrainedSoFar(m0, [], m0) && Callbacks([]) == []
  {
  }

  lemma {:induction false} PullCounts(m: W.Window<D.Payload>)
    ensures var p := W.Pull(m); p.item.Some? ==> m.count > 0 && p.window.count == m.count - 1
    ensures var p := W.Pull(m); p.item == None ==> p.window == m
  {
  }

  lemma {:induction false} DrainContinues(m0: W.Window<D.Payload>, done: seq<W.Item<D.Payload>>, m: W.Window<D.Payload>)
    requires DrainedSoFar(m0, done, m) && W.Pull(m).item.Some?
    ensures var item := W.Pull(m).item.value;
            && DrainedSoFar(m0, done + [item], W.Pull(m).window)
            && Callbacks(done + [item]) == Callbacks(done) + (if Callback(item.1).Some? then [Data(Callback(item.1).value)] else [])
  {
    var item, rest := W.Pull(m).item.value, D.Drain(W.Pull(m).window).items;
    assert done + ([item] + rest) == done + [item] + rest;
    assert (done + [item])[..|done|] == done;
  }

  lemma {:induction false} DrainEnds(m0: W.Window<D.Payload>, done: seq<W.Item<D.Payload>>, m: W.Window<D.Payload>)
    requires DrainedSoFar(m0, done, m) && W.Pull(m).item == None
    ensures D.Drain(m0) == D.Drained(m, done)
  {
  }

  class Takion {
    const tagLocal: nat
    const tagRemote: nat
    const mac: Tagger
    var crypt: bool
    var keyPosLocal: nat
    var seqNumLocal: nat
    /** The peer's tag function once its crypt is available, and the last
        position received. */
    var remoteMac: Option<Tagger>
    const keyState: K.KeyState
    const queue: R.ReorderQueue<D.Payload>
    const sendBuffer: B.SendBuffer<seq<byte>>
    /** Datagrams given to the socket, and calls made to the callback. */
    var sent: seq<seq<byte>>
    var events: seq<Event>

    ghost predicate Valid()
      reads this, keyState, queue, queue.queue, sendBuffer, sendBuffer.packets
    {
      && tagLocal < U32 && tagRemote < U32 && seqNumLocal < U32 && keyPosLocal <= SIZE_MAX && keyState.prev < U64
      && queue.Valid() && queue.width == Bits32 && queue.size == D.QUEUE_SIZE && queue.dropStrategy == W.DropEnd
      && sendBuffer.Valid() && sendBuffer.packets.Length == D.SEND_BUFFER_SIZE
    }

    /** The state the steps of a connection are about. */
    ghost function View(): (e: End<seq<byte>>)
      requires Valid()
      reads this, keyState, queue, queue.queue, sendBuffer, sendBuffer.packets
      ensures e.Wf()
    {
      End(tagLocal, tagRemote, crypt, mac, keyPosLocal, seqNumLocal, remoteMac, keyState.prev,
          queue.Model(), sendBuffer.packets[..sendBuffer.count], events)
    }

    /** The state right after a handshake whose answer takion_handshake accepted:
        the first number sent is the local tag, the first number expected is the
        peer's. */
    constructor (tagLocal: nat, initAck: InitAck, mac: Tagger)
      requires tagLocal < U32 && 0 < initAck.tag < U32
      requires 0 < initAck.outboundStreams <= 0x64 <= initAck.inboundStreams
      ensures Valid() && fresh(queue) && fresh(queue.queue) && fresh(sendBuffer) && fresh(sendBuffer.packets) && fresh(keyState)
      ensures View() == Connected(tagLocal, initAck.tag, mac) && sent == []
      ensures this.tagLocal == seqNumLocal == tagLocal && this.tagRemote == queue.Model().base == initAck.tag
      ensures !crypt && remoteMac == None && keyPosLocal == keyState.prev == 0
      ensures queue.Model().count == sendBuffer.count == 0 && events == []
      ensures queue.size == sendBuffer.packets.Length == 16
    {
      this.tagLocal, this.tagRemote, this.mac := tagLocal, initAck.tag, mac;
      crypt, keyPosLocal, seqNumLocal, remoteMac := false, 0, tagLocal, None;
      keyState := new K.KeyState();
      var q := new R.ReorderQueue<D.Payload>(Bits32, REORDER_QUEUE_SIZE_EXP, initAck.tag);
      q.dropCb := true;
      queue := q;
      sendBuffer := new B.SendBuffer<seq<byte>>(D.SEND_BUFFER_SIZE);
      sent, events := [], [];
    }

    /** chiaki_takion_crypt_advance_key_pos. */
    method AdvanceKeyPos(size: nat) returns (r: Option<nat>)
      requires Valid()
      modifies this`keyPosLocal
      ensures Valid()
      ensures match TakeKeys(old(View()), size)
              case None => r == None && View() == old(View())
              case Some(reserved) => r == Some(reserved.keyPos) && View() == reserved.end
    {
      if crypt {
        if SIZE_MAX - keyPosLocal < size {
          return None;
        }
        r := Some(keyPosLocal);
        keyPosLocal := keyPosLocal + size;
      } else {
        r := Some(0);
      }
    }

    /** chiaki_takion_send_message_data. The number is used up even if the socket
        refuses the datagram; only a datagram that was sent is buffered, and
        whether the buffer took it goes unnoticed. */
    method SendMessageData(flags: byte, channel: nat, body: seq<byte>, socketOk: bool,
        now: nat) returns (seqNum: Option<nat>)
      requires Valid() && channel < 0x1_0000
      modifies this`keyPosLocal, this`seqNumLocal, this`sent, sendBuffer`count, sendBuffer.packets
      ensures Valid()
      ensures match Number(old(View()), flags, channel, body)
              case None => seqNum == None && View() == old(View()) && sent == old(sent)
              case Some(m) =>
                if socketOk then
                  && seqNum == Some(m.seqNum) && sent == old(sent) + [m.packet]
                  && View() == Kept(m.end, m.seqNum, m.packet, now)
                else
                  seqNum == None && View() == m.end && sent == old(sent)
    {
      hide DataPacket, Seal, Add, HasMac, TakeKeys;
      var k := AdvanceKeyPos(|body|);
      if k == None {
        return None;
      }
      var packet := DataPacket(tagRemote, k.value, flags, seqNumLocal, channel, body);
      var n := seqNumLocal;
      seqNumLocal := Add(Bits32, seqNumLocal, 1);
      packet := Seal(crypt, mac, packet, k.value);
      if !socketOk {
        return None;
      }
      sent := sent + [packet];
      var r := sendBuffer.Push(n, packet, now);
      seqNum := Some(n);
    }

    /** takion_send_feedback_packet: encrypts and signs the packet in its buffer.
        Whether the socket takes it goes unnoticed. */
    method SendFeedbackPacket(gkcrypt: G.GkCrypt, buf: array<byte>, socketOk: bool) returns (ok: bool)
      requires Valid() && crypt && FP.FEEDBACK_HEADER_SIZE <= buf.Length < U64 / 4
      requires gkcrypt.Valid() && gkcrypt.keyBuf != buf
      requires Advance(keyPosLocal, FP.PacketUse(buf.Length)).Some? ==> FP.InRing(gkcrypt, keyPosLocal, buf.Length)
      modifies this`keyPosLocal, this`sent, gkcrypt`lastKeyPos, buf
      ensures Valid() && gkcrypt.Valid()
      ensures ok <==> old(keyPosLocal) + buf.Length + 4 <= 0xffff_ffff_ffff_ffff
      ensures ok ==> keyPosLocal == old(keyPosLocal) + buf.Length + 4
      ensures match Advance(old(keyPosLocal), FP.PacketUse(buf.Length))
              case None => !ok && keyPosLocal == old(keyPosLocal) && sent == old(sent) && buf[..] == old(buf[..])
              case Some(next) =>
                && ok && keyPosLocal == next
                && buf[..] == old(FP.SealedWith(mac, buf[..],
                                                gkcrypt.Crypted(keyPosLocal + 16, buf[FP.FEEDBACK_HEADER_SIZE..]),
                                                keyPosLocal))
                && (next <= U64 - 16 || old(FP.ReadRight(gkcrypt, keyPosLocal, buf.Length)) ==>
                      buf[..] == FP.Sealed(gkcrypt.cipher, mac, old(buf[..]), old(keyPosLocal)))
                && sent == old(sent) + (if socketOk then [buf[..]] else [])
    {
      hide G.GkCrypt.Valid, G.GkCrypt.Crypted, FP.Sealed, FP.SealedWith, FP.ReadRight, FP.InRing;
      var k := AdvanceKeyPos(buf.Length - FP.FEEDBACK_HEADER_SIZE + 16);
      if k == None {
        return false;
      }
      if keyPosLocal <= U64 - 16 {
        FP.EarlyReadRight(gkcrypt, k.value, buf.Length);
      }
      FP.SealInPlace(gkcrypt, mac, buf, k.value);
      if socketOk {
        sent := sent + [buf[..]];
      }
      ok := true;
    }

    /** takion_send_buffer_resend. */
    method ResendOverdue(now: nat)
      requires Valid()
      modifies this`sent, sendBuffer.packets
      ensures Valid()
      ensures View() == Resent(old(View()), now) && sent == old(sent) + B.Overdue(old(View()).buffer, now)
    {
      hide B.Refreshed, B.Overdue;
      var again := sendBuffer.Resend(now);
      sent := sent + again;
    }

    /** Pulls until nothing comes, handing each entry to the callback. */
    method PullAll() returns (last: Option<int>)
      requires queue.Valid() && queue.width == Bits32
      modifies this`events, queue`begin, queue`count, queue`base
      ensures queue.Valid()
      ensures var d := D.Drain(old(queue.Model()));
              && queue.Model() == d.window
              && events == old(events) + Callbacks(d.items)
              && last == if d.items == [] then None else Some(Num(Bits32, d.items[|d.items| - 1].0))
    {
      hide D.Drain, W.Pull, Callbacks, Callback, Num, DrainedSoFar;
      ghost var m0 := queue.Model();
      ghost var done: seq<W.Item<D.Payload>> := [];
      DrainBegins(m0);
      last := None;
      var more := true;
      while more
        invariant queue.Valid()
        invariant DrainedSoFar(m0, done, queue.Model())
        invariant !more ==> W.Pull(queue.Model()).item == None
        invariant events == old(events) + Callbacks(done)
        invariant last == if done == [] then None else Some(Num(Bits32, done[|done| - 1].0))
        decreases queue.count, more
      {
        ghost var m := queue.Model();
        PullCounts(m);
        var r := queue.Pull();
        if r == None {
          more := false;
        } else {
          DrainContinues(m0, done, m);
          done := done + [W.Pull(m).item.value];
          last := Some(r.value.0);
          var e := Callback(r.value.1);
          if e.Some? {
            events := events + [Data(e.value)];
          }
        }
      }
      DrainEnds(m0, done, queue.Model());
    }

    /** takion_flush_data_queue. */
    method FlushDataQueue(socketOk: bool)
      requires Valid()
      modifies this`keyPosLocal, this`sent, this`events, queue`begin, queue`count, queue`base
      ensures Valid()
      ensures var h := Flushed(old(View()));
              View() == h.end && sent == old(sent) + (if socketOk && h.ack.Some? then [h.ack.value] else [])
    {
      hide D.Drain, Callbacks, Num, TakionEnd.Acknowledged, TakeKeys;
      var last := PullAll();
      if last.Some? {
        SendAck(last.value, socketOk, D.Drain(old(queue.Model())).items);
      }
    }

    /** chiaki_takion_send_message_data_ack, of the last of these items. */
    method SendAck(seqNum: nat, socketOk: bool, ghost items: seq<W.Item<D.Payload>>)
      requires Valid() && items != [] && seqNum == Num(Bits32, items[|items| - 1].0)
      modifies this`keyPosLocal, this`sent
      ensures Valid()
      ensures var h := Acknowledged(old(View()), items);
              View() == h.end && sent == old(sent) + (if socketOk && h.ack.Some? then [h.ack.value] else [])
    {
      hide Seal, AckPacket, HasMac, TakeKeys, Num;
      var k := AdvanceKeyPos(0x1d);
      if k.Some? && socketOk {
        sent := sent + [Seal(crypt, mac, AckPacket(tagRemote, k.value, seqNum), k.value)];
      }
    }

    /** takion_handle_packet_mac: the position is rebuilt from the wire, and
        remembered only if the packet is authentic there. */
    method HandlePacketMac(packet: seq<byte>) returns (ok: bool)
      requires Valid()
      modifies keyState
      ensures Valid()
      ensures match Checked(old(View()), packet)
              case None => !ok && View() == old(View())
              case Some(checked) => ok && View() == checked
    {
      if remoteMac == None {
        return true;
      }
      if !HasMac(packet) {
        return false;
      }
      var keyPos := keyState.Request(Read32(packet, PacketOffsets(packet[0]).value.keyPos), false);
      if !Authentic(remoteMac.value, packet, keyPos) {
        return false;
      }
      keyState.Commit(keyPos);
      ok := true;
    }

    /** takion_parse_message: the key position is committed before the tag and the
        size are looked at. */
    method ParseMessage(packet: seq<byte>) returns (r: ParseResult)
      requires Valid() && |packet| > 0
      modifies keyState
      ensures Valid()
      ensures r == Parse(packet[1..], tagLocal) && View() == Seen(old(View()), packet)
    {
      var buf := packet[1..];
      if |buf| < HEADER_SIZE {
        return TooShort;
      }
      var keyPos := keyState.Request(Read32(buf, 8), true);
      if Read32(buf, 0) != tagLocal {
        return TagMismatch;
      }
      if |buf| != Read16(buf, 0xe) + 0xc {
        return SizeMismatch;
      }
      return Parsed(Message(Read32(buf, 8), buf[0xc], buf[0xd], buf[0x10..]));
    }

    /** takion_handle_packet and takion_handle_packet_message. */
    method HandlePacket(packet: seq<byte>, socketOk: bool)
      requires Valid() && |packet| > 0
      modifies this`keyPosLocal, this`sent, this`events, keyState
      modifies queue`begin, queue`count, queue`base, queue`dropped, queue.queue, sendBuffer`count, sendBuffer.packets
      ensures Valid()
      ensures var h := Handle(old(View()), packet);
              View() == h.end && sent == old(sent) + (if socketOk && h.ack.Some? then [h.ack.value] else [])
    {
      hide Checked, Seen, HandledData, HandledAck, Parse, ReadAck;
      var ok := HandlePacketMac(packet);
      if !ok || packet[0] as int % 16 != PACKET_CONTROL as int {
        return;
      }
      var r := ParseMessage(packet);
      if r.Parsed? {
        if r.message.chunkType == CHUNK_DATA {
          HandleData(r.message.payload, socketOk);
        } else if r.message.chunkType == CHUNK_DATA_ACK {
          HandleAck(r.message.payload);
        }
      }
    }

    /** A turn of the receive loop of takion_thread_func, with what the socket has. */
    method ReceiveDatagram(datagram: seq<byte>, socketOk: bool)
      requires Valid() && |datagram| > 0
      modifies this`keyPosLocal, this`sent, this`events, keyState
      modifies queue`begin, queue`count, queue`base, queue`dropped, queue.queue, sendBuffer`count, sendBuffer.packets
      ensures Valid()
      ensures var h := Handle(old(View()), Received(datagram));
              View() == h.end && sent == old(sent) + (if socketOk && h.ack.Some? then [h.ack.value] else [])
    {
      hide Handle;
      var receivedSize := RECV_SIZE;
      if |datagram| < receivedSize {
        receivedSize := |datagram|;
      }
      assert datagram[..receivedSize] == Received(datagram);
      HandlePacket(datagram[..receivedSize], socketOk);
    }

    /** takion_handle_packet_message_data. */
    method HandleData(payload: seq<byte>, socketOk: bool)
      requires Valid()
      modifies this`keyPosLocal, this`sent, this`events
      modifies queue`begin, queue`count, queue`base, queue`dropped, queue.queue
      ensures Valid()
      ensures |payload| < DATA_HEADER_SIZE ==> View() == old(View()) && sent == old(sent)
      ensures |payload| >= DATA_HEADER_SIZE ==>
                var h := HandledData(old(View()), payload);
                View() == h.end && sent == old(sent) + (if socketOk && h.ack.Some? then [h.ack.value] else [])
    {
      hide D.Drain, Callbacks, TakionEnd.Acknowledged, W.Push, Filed;
      if |payload| < DATA_HEADER_SIZE {
        return;
      }
      queue.Push(Read32(payload, 0), payload);
      FlushDataQueue(socketOk);
    }

    /** takion_handle_packet_message_data_ack. */
    method HandleAck(payload: seq<byte>)
      requires Valid()
      modifies this`events, sendBuffer`count, sendBuffer.packets
      ensures Valid()
      ensures match ReadAck(payload)
              case None => View() == old(View())
              case Some(n) => View() == HandledAck(old(View()), n)
    {
      hide ReadAck, B.Kept, B.Covered;
      match ReadAck(payload)
      case None =>
      case Some(n) =>
        var acked := new int[D.SEND_BUFFER_SIZE];
        var count := sendBuffer.Ack(n, acked);
        ReportAcked(acked, count);
    }

    /** The event loop of takion_handle_packet_message_data_ack. */
    method ReportAcked(acked: array<int>, count: nat)
      requires count <= acked.Length
      modifies this`events
      ensures events == old(events) + AckEvents(acked[..count])
    {
      hide AckEvents;
      ghost var nums := acked[..count];
      NoAckEvents();
      assert nums[..0] == [];
      for i := 0 to count
        invariant events == old(events) + AckEvents(nums[..i])
      {
        events := events + [DataAck(acked[i])];
        AckEventsSnoc(nums[..i], acked[i]);
        assert nums[..i + 1] == nums[..i] + [acked[i]];
      }
      assert nums[..count] == nums;
    }
  }
}
