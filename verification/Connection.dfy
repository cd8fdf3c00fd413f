/** Two ends of a Takion connection and the network between them. Every step is
    one of the ends' handlers on the bytes of a sealed packet; seen from either
    side, a run of the connection is a run of the data channel. */
module Connection {
  import opened Bytes
  import opened SeqNum
  import opened TakionMessage
  import opened PacketMac
  import opened TakionEnd
  import W = ReorderWindow
  import B = SendBuffer
  import D = DataChannel
  import K = KeyState

  datatype Who = Client | Console {
    function Other(): Who {
      if Client? then Console else Client
    }
  }

  /** A packet in the network. Its sender, what kind of packet it is and which
      message it carries or acknowledges are recorded for the proof; no handler
      looks at anything but the bytes. */
  datatype Datagram = Datagram(from: Who, bytes: seq<byte>, isAck: bool, flight: D.Flight)

  /** An end with the history of what it sent and pulled. */
  datatype Party = Party(end: End<Datagram>, log: seq<D.Message>, stages: seq<D.Stage>, packets: seq<Datagram>,
                         pulled: seq<W.Item<D.Payload>>)

  datatype State = State(client: Party, console: Party, net: set<Datagram>) {
    function Of(w: Who): Party {
      if w.Client? then client else console
    }

    function With(w: Who, p: Party): State {
      if w.Client? then this.(client := p) else this.(console := p)
    }

    predicate Wf() {
      client.end.Wf() && console.end.Wf()
    }
  }

  /** Both ends right after the handshake. */
  function Init(clientTag: nat, consoleTag: nat, clientMac: Tagger, consoleMac: Tagger): (s: State)
    requires clientTag < U32 && consoleTag < U32
    ensures s.Wf()
  {
    State(Party(Connected(clientTag, consoleTag, clientMac), [], [], [], []),
          Party(Connected(consoleTag, clientTag, consoleMac), [], [], [], []), {})
  }

  // ---------------------------------------------------------------- steps

  /** Keys is everything else an end does to its keys and positions: set up a
      crypt, send other packets, receive other packets. */
  datatype Event =
    | Keys(who: Who, crypt: bool, keyPosLocal: nat, remoteMac: Option<Tagger>, prev: nat)
    | TakeNumber(who: Who, flags: byte, msg: D.Message)
    | Transmit(who: Who, id: nat, ok: bool)
    | Keep(who: Who, id: nat, now: nat)
    | Resend(who: Who, now: nat)
    | Lose(d: Datagram)
    | Deliver(d: Datagram, socketOk: bool)

  /** The length field of a UDP datagram has 16 bits and counts the 8 bytes of its
      header (RFC 768): sockets refuse longer packets. */
  const UDP_MAX: nat := 0xffff - 8

  /** The network has not kept the packet for longer than half the number space. */
  ghost predicate Timely(receiver: End<Datagram>, d: Datagram) {
    if d.isAck then forall p :: p in receiver.buffer ==> D.Near(p.buf.flight.id, d.flight.id)
    else D.Near(receiver.tagRemote + d.flight.id, receiver.window.base)
  }

  ghost predicate Enabled(s: State, e: Event)
    requires s.Wf()
  {
    match e
    case Keys(_, _, keyPosLocal, _, prev) => keyPosLocal <= SIZE_MAX && prev < U64
    case TakeNumber(w, flags, msg) => Number(s.Of(w).end, flags, msg.channel, msg.body).Some?
    case Transmit(w, id, ok) =>
      var p := s.Of(w);
      id < |p.packets| && id < |p.stages| && p.stages[id] == D.Numbered && (ok ==> |p.packets[id].bytes| <= UDP_MAX)
    case Keep(w, id, _) => var p := s.Of(w); id < |p.packets| && id < |p.stages| && p.stages[id] == D.OnWire
    case Resend(_, _) => true
    case Lose(d) => d in s.net
    case Deliver(d, _) => d in s.net && d.bytes != [] && Timely(s.Of(d.from.Other()).end, d)
  }

  function Numbering(w: Who, p: Party, flags: byte, msg: D.Message): Party
    requires p.end.Wf() && Number(p.end, flags, msg.channel, msg.body).Some?
  {
    var m := Number(p.end, flags, msg.channel, msg.body).value;
    var d := Datagram(w, m.packet, false, D.Flight(|p.log|, DataPayload(m.seqNum, msg.channel, msg.body)));
    Party(m.end, p.log + [msg], p.stages + [D.Numbered], p.packets + [d], p.pulled)
  }

  function Keeping(p: Party, id: nat, now: nat): Party
    requires id < |p.packets| && id < |p.stages|
  {
    var n := NumberOf(p, id);
    p.(end := Kept(p.end, n, p.packets[id], now),
       stages := p.stages[id := if D.CanBuffer(p.end.buffer, n) then D.Buffered else D.NotBuffered])
  }

  /** The acknowledgement given to the socket, as a datagram. */
  function AckSent(w: Who, tagRemote: nat, h: Handled<Datagram>, socketOk: bool): set<Datagram> {
    if socketOk && h.ack.Some? then set f | f in D.AckFor(tagRemote, h.items) :: Datagram(w, h.ack.value, true, f) else {}
  }

  function OverdueSet(p: Party, now: nat): set<Datagram> {
    set d | d in B.Overdue(p.end.buffer, now)
  }

  function Next(s: State, e: Event): State
    requires s.Wf() && Enabled(s, e)
  {
    match e
    case Keys(w, crypt, keyPosLocal, remoteMac, prev) =>
      var p := s.Of(w);
      s.With(w, p.(end := p.end.(crypt := crypt, keyPosLocal := keyPosLocal, remoteMac := remoteMac, prev := prev)))
    case TakeNumber(w, flags, msg) => s.With(w, Numbering(w, s.Of(w), flags, msg))
    case Transmit(w, id, ok) =>
      var p := s.Of(w);
      var t := s.With(w, p.(stages := p.stages[id := if ok then D.OnWire else D.Aborted]));
      if ok then t.(net := t.net + {p.packets[id]}) else t
    case Keep(w, id, now) => s.With(w, Keeping(s.Of(w), id, now))
    case Resend(w, now) =>
      var p := s.Of(w);
      var t := s.With(w, p.(end := Resent(p.end, now)));
      t.(net := t.net + OverdueSet(p, now))
    case Lose(d) => s.(net := s.net - {d})
    case Deliver(d, socketOk) =>
      var w := d.from.Other();
      var p := s.Of(w);
      var h := Handle(p.end, Received(d.bytes));
      var t := s.With(w, p.(end := h.end, pulled := p.pulled + h.items));
      t.(net := t.net + AckSent(w, p.end.tagRemote, h, socketOk))
  }

  // ---------------------------------------------------------------- what the bytes mean

  /** As long as it can be sent, the addressee reads what the datagram is recorded
      to carry, or nothing. */
  predicate Honest(d: Datagram, tag: nat) {
    d.bytes != [] && (|d.bytes| <= UDP_MAX ==> SaysOnly(d, tag))
  }

  predicate SaysOnly(d: Datagram, tag: nat)
    requires d.bytes != []
  {
    match Read(Received(d.bytes), tag)
    case Ignored => true
    case DataChunk(payload) => !d.isAck && payload == d.flight.payload
    case AckChunk(n) => d.isAck && ReadAck(d.flight.payload) == Some(n)
  }

  /** The number of the message with this id. */
  function NumberOf(p: Party, id: int): int {
    Num(Bits32, p.end.tagLocal + id)
  }

  /** The packets of a party carry its messages, under their numbers. */
  ghost predicate PacketsOk(w: Who, p: Party) {
    && |p.packets| == |p.stages| == |p.log|
    && p.end.seqNumLocal == NumberOf(p, |p.log|)
    && forall id :: 0 <= id < |p.packets| ==>
         var d := p.packets[id];
         && d.from == w && !d.isAck && Honest(d, p.end.tagRemote)
         && d.flight == D.Flight(id, D.PayloadOf(p.end.tagLocal, p.log, id))
         && (p.stages[id] == D.OnWire ==> |d.bytes| <= UDP_MAX)
  }

  /** Only its own packets, unaltered, are kept. */
  ghost predicate BufferOk(p: Party) {
    forall x :: x in p.end.buffer ==>
      x.buf.flight.id < |p.packets| && x.buf == p.packets[x.buf.flight.id] && |x.buf.bytes| <= UDP_MAX
  }

  ghost predicate NetOk(s: State) {
    forall d :: d in s.net ==> Honest(d, s.Of(d.from).end.tagRemote) && |d.bytes| <= UDP_MAX
  }

  ghost predicate Inv(s: State) {
    && s.Wf() && NetOk(s)
    && (forall w: Who :: PacketsOk(w, s.Of(w)) && BufferOk(s.Of(w)))
    && forall w: Who :: s.Of(w).end.tagRemote == s.Of(w.Other()).end.tagLocal
  }

  // ---------------------------------------------------------------- what every step keeps

  lemma {:induction false} OverdueMember(ps: seq<B.Packet<Datagram>>, now: nat, d: Datagram)
    requires d in B.Overdue(ps, now)
    ensures exists i :: 0 <= i < |ps| && ps[i].buf == d
  {
    var n := |ps| - 1;
    if d in B.Overdue(ps[..n], now) {
      OverdueMember(ps[..n], now, d);
      var i :| 0 <= i < n && ps[..n][i].buf == d;
      assert ps[i].buf == d;
    } else {
      assert ps[n].buf == d;
    }
  }

  lemma OverdueFlights(s: State, who: Who, now: nat)
    requires Inv(s)
    ensures var p := s.Of(who);
            forall d :: d in OverdueSet(p, now) ==>
              d.from == who && !d.isAck && Honest(d, p.end.tagRemote) && |d.bytes| <= UDP_MAX
              && exists i :: 0 <= i < |p.end.buffer| && p.end.buffer[i].buf == d
  {
    hide Honest, NetOk, B.Overdue;
    var p := s.Of(who);
    forall d | d in OverdueSet(p, now)
      ensures d.from == who && !d.isAck && Honest(d, p.end.tagRemote) && |d.bytes| <= UDP_MAX
      ensures exists i :: 0 <= i < |p.end.buffer| && p.end.buffer[i].buf == d
    {
      OverdueMember(p.end.buffer, now, d);
      var i :| 0 <= i < |p.end.buffer| && p.end.buffer[i].buf == d;
      assert p.end.buffer[i] in p.end.buffer;
    }
  }

  /** The receiving end after a delivery, and the acknowledgements it sends. */
  function Delivery(s: State, e: Event): Handled<Datagram>
    requires s.Wf() && Enabled(s, e) && e.Deliver?
  {
    Handle(s.Of(e.d.from.Other()).end, Received(e.d.bytes))
  }

  /** What the receiver hears is what the datagram carries. */
  lemma HeardHonest(s: State, e: Event)
    requires Inv(s) && Enabled(s, e) && e.Deliver?
    ensures match Heard(s.Of(e.d.from.Other()).end, Received(e.d.bytes))
            case Ignored => true
            case DataChunk(payload) => !e.d.isAck && payload == e.d.flight.payload
            case AckChunk(n) => e.d.isAck && ReadAck(e.d.flight.payload) == Some(n)
  {
    hide Read, ReadAck, Checked, PacketsOk, BufferOk;
  }

  lemma InitInv(clientTag: nat, consoleTag: nat, clientMac: Tagger, consoleMac: Tagger)
    requires clientTag < U32 && consoleTag < U32
    ensures Inv(Init(clientTag, consoleTag, clientMac, consoleMac))
  {
  }

  /** q is p after some steps of its own. */
  ghost predicate Replaces(w: Who, p: Party, q: Party) {
    && q.end.Wf() && q.end.tagLocal == p.end.tagLocal && q.end.tagRemote == p.end.tagRemote
    && PacketsOk(w, q) && BufferOk(q)
  }

  lemma ReplacedInv(s: State, w: Who, q: Party, net: set<Datagram>)
    requires Inv(s) && Replaces(w, s.Of(w), q)
    requires forall d :: d in net ==>
               d in s.net || (d.from == w && Honest(d, s.Of(w).end.tagRemote) && |d.bytes| <= UDP_MAX)
    ensures Inv(s.With(w, q).(net := net))
  {
    hide Honest, PacketsOk, BufferOk;
    assert s.With(w, q).(net := net).Of(w) == q && s.With(w, q).(net := net).Of(w.Other()) == s.Of(w.Other());
  }

  /** Numbering a message changes nothing but keys and the next number. */
  lemma NumberDoes(e: End<Datagram>, flags: byte, msg: D.Message)
    requires e.Wf() && Number(e, flags, msg.channel, msg.body).Some?
    ensures var m := Number(e, flags, msg.channel, msg.body).value;
            && m.end == e.(keyPosLocal := m.end.keyPosLocal, seqNumLocal := Add(Bits32, e.seqNumLocal, 1)) && m.end.Wf()
            && m.seqNum == e.seqNumLocal
  {
    hide Seal, DataPacket, HasMac;
  }

  /** A freshly sealed message says what it is recorded to carry. */
  lemma NewPacketOk(w: Who, p: Party, flags: byte, msg: D.Message)
    requires p.end.Wf() && PacketsOk(w, p) && Number(p.end, flags, msg.channel, msg.body).Some?
    ensures var d := Numbering(w, p, flags, msg).packets[|p.packets|];
            && d.from == w && !d.isAck && Honest(d, p.end.tagRemote)
            && d.flight == D.Flight(|p.log|, D.PayloadOf(p.end.tagLocal, p.log + [msg], |p.log|))
  {
    hide Read, Seal, Header, Num, DataPayload;
    var keyPos := TakeKeys(p.end, |msg.body|).value.keyPos;
    DataReads(p.end.crypt, p.end.mac, p.end.tagRemote, keyPos, flags, p.end.seqNumLocal, msg.channel, msg.body);
  }

  lemma PayloadStays(tag: nat, log: seq<D.Message>, msg: D.Message, id: nat)
    requires id < |log|
    ensures D.PayloadOf(tag, log + [msg], id) == D.PayloadOf(tag, log, id)
  {
  }

  lemma NumberingOk(w: Who, p: Party, flags: byte, msg: D.Message)
    requires p.end.Wf() && PacketsOk(w, p) && BufferOk(p) && Number(p.end, flags, msg.channel, msg.body).Some?
    ensures Replaces(w, p, Numbering(w, p, flags, msg))
  {
    hide Honest, Number, D.PayloadOf, Num, Add;
    NumberDoes(p.end, flags, msg);
    NewPacketOk(w, p, flags, msg);
    AddWire(Bits32, p.end.tagLocal + |p.log|, 1);
    forall id | 0 <= id < |p.log|
      ensures D.PayloadOf(p.end.tagLocal, p.log + [msg], id) == D.PayloadOf(p.end.tagLocal, p.log, id)
    {
      PayloadStays(p.end.tagLocal, p.log, msg, id);
    }
  }

  lemma KeepingOk(w: Who, p: Party, id: nat, now: nat)
    requires p.end.Wf() && PacketsOk(w, p) && BufferOk(p)
    requires id < |p.packets| && id < |p.stages| && p.stages[id] == D.OnWire
    ensures Replaces(w, p, Keeping(p, id, now))
  {
    hide Honest, D.PayloadOf, Num, D.CanBuffer;
  }

  lemma ResendingOk(w: Who, p: Party, now: nat)
    requires p.end.Wf() && PacketsOk(w, p) && BufferOk(p)
    ensures Replaces(w, p, p.(end := Resent(p.end, now)))
  {
    hide Honest, D.PayloadOf, Num;
    forall x | x in Resent(p.end, now).buffer
      ensures x.buf.flight.id < |p.packets| && x.buf == p.packets[x.buf.flight.id]
    {
      var i :| 0 <= i < |p.end.buffer| && B.Refreshed(p.end.buffer[i], now) == x;
      assert p.end.buffer[i] in p.end.buffer;
    }
  }

  lemma DeliveringOk(s: State, e: Event)
    requires Inv(s) && Enabled(s, e) && e.Deliver?
    ensures var w, h := e.d.from.Other(), Delivery(s, e);
            Replaces(w, s.Of(w), s.Of(w).(end := h.end, pulled := s.Of(w).pulled + h.items))
  {
    hide PacketsOk, BufferOk, Replaces, NetOk, Handle, Heard, D.Receive, SealedAck, Callbacks, AckEvents;
    hide B.Kept, B.Covered, Timely, Honest;
    var w, h := e.d.from.Other(), Delivery(s, e);
    var p := s.Of(w);
    HandleDoes(p.end, Received(e.d.bytes));
    if Heard(p.end, Received(e.d.bytes)).AckChunk? {
      B.KeptMembers(p.end.buffer, Heard(p.end, Received(e.d.bytes)).seqNum);
    }
    UnnumberedOk(w, p, p.(end := h.end, pulled := p.pulled + h.items));
  }

  /** So does an acknowledgement. */
  lemma AcksHonest(s: State, e: Event)
    requires Inv(s) && Enabled(s, e) && e.Deliver?
    ensures var w, h := e.d.from.Other(), Delivery(s, e);
            forall d :: d in AckSent(w, s.Of(w).end.tagRemote, h, e.socketOk) ==>
              d.from == w && Honest(d, s.Of(w).end.tagRemote) && |d.bytes| <= UDP_MAX
  {
    hide Read, Handle, Heard, D.Receive, Callbacks, AckEvents, B.Kept, B.Covered, Seal, HasMac, AckPacket, ReadAck,
      AckPayload, Num, PacketsOk, BufferOk, NetOk, Timely;
    var q, h := s.Of(e.d.from.Other()), Delivery(s, e);
    HandleDoes(q.end, Received(e.d.bytes));
    if h.ack.Some? {
      var n := Num(Bits32, h.items[|h.items| - 1].0);
      AckReads(q.end.crypt, q.end.mac, q.end.tagRemote, if q.end.crypt then q.end.keyPosLocal else 0, n);
      AckRoundTrip(n);
    }
  }

  lemma StepKeepsInv(s: State, e: Event)
    requires Inv(s) && Enabled(s, e)
    ensures Inv(Next(s, e))
  {
    hide Honest, PacketsOk, BufferOk, Number, Numbering, Keeping, Resent, Handle, B.Overdue, AckSent, Timely, Replaces;
    match e
    case Keys(_, _, _, _, _) => KeysKeepInv(s, e);
    case TakeNumber(w, flags, msg) =>
      NumberingOk(w, s.Of(w), flags, msg);
      ReplacedInv(s, w, Numbering(w, s.Of(w), flags, msg), s.net);
    case Transmit(_, _, _) => TransmitKeepsInv(s, e);
    case Keep(w, id, now) =>
      KeepingOk(w, s.Of(w), id, now);
      ReplacedInv(s, w, Keeping(s.Of(w), id, now), s.net);
    case Resend(_, _) => ResendKeepsInv(s, e);
    case Lose(d) =>
    case Deliver(_, _) => DeliverKeepsInv(s, e);
  }

  lemma KeysKeepInv(s: State, e: Event)
    requires Inv(s) && Enabled(s, e) && e.Keys?
    ensures Inv(Next(s, e))
  {
    hide Honest, PacketsOk, BufferOk, NetOk, Replaces;
    var p := s.Of(e.who);
    var q := p.(end := p.end.(crypt := e.crypt, keyPosLocal := e.keyPosLocal, remoteMac := e.remoteMac, prev := e.prev));
    UnnumberedOk(e.who, p, q);
    ReplacedInv(s, e.who, q, s.net);
  }

  lemma ResendKeepsInv(s: State, e: Event)
    requires Inv(s) && Enabled(s, e) && e.Resend?
    ensures Inv(Next(s, e))
  {
    hide Honest, PacketsOk, BufferOk, NetOk, Resent, OverdueSet, Replaces;
    var p := s.Of(e.who);
    ResendingOk(e.who, p, e.now);
    OverdueFlights(s, e.who, e.now);
    ReplacedInv(s, e.who, p.(end := Resent(p.end, e.now)), s.net + OverdueSet(p, e.now));
  }

  lemma TransmitKeepsInv(s: State, e: Event)
    requires Inv(s) && Enabled(s, e) && e.Transmit?
    ensures Inv(Next(s, e))
  {
    hide Honest, PacketsOk, BufferOk, Replaces;
    var p := s.Of(e.who);
    var q := p.(stages := p.stages[e.id := if e.ok then D.OnWire else D.Aborted]);
    TransmittedOk(e.who, p, e.id, e.ok);
    SentHonest(e.who, p, e.id);
    ReplacedInv(s, e.who, q, if e.ok then s.net + {p.packets[e.id]} else s.net);
  }

  lemma DeliverKeepsInv(s: State, e: Event)
    requires Inv(s) && Enabled(s, e) && e.Deliver?
    ensures Inv(Next(s, e))
  {
    hide Honest, PacketsOk, BufferOk, Handle, AckSent, Timely, Replaces;
    var w := e.d.from.Other();
    var p, h := s.Of(w), Delivery(s, e);
    DeliveringOk(s, e);
    AcksHonest(s, e);
    ReplacedInv(s, w, p.(end := h.end, pulled := p.pulled + h.items), s.net + AckSent(w, p.end.tagRemote, h, e.socketOk));
  }

  /** Nothing depends on keys and what was pulled. */
  lemma UnnumberedOk(w: Who, p: Party, q: Party)
    requires PacketsOk(w, p) && BufferOk(p) && SameEnd(p.end, q.end)
    requires q.log == p.log && q.packets == p.packets && q.stages == p.stages
    requires forall x :: x in q.end.buffer ==> x in p.end.buffer
    ensures Replaces(w, p, q)
  {
    hide Honest, D.PayloadOf, Num;
  }

  lemma TransmittedOk(w: Who, p: Party, id: nat, ok: bool)
    requires p.end.Wf() && PacketsOk(w, p) && BufferOk(p) && id < |p.packets| && id < |p.stages|
    requires ok ==> |p.packets[id].bytes| <= UDP_MAX
    ensures Replaces(w, p, p.(stages := p.stages[id := if ok then D.OnWire else D.Aborted]))
  {
    hide Honest, D.PayloadOf, Num;
  }

  lemma SentHonest(w: Who, p: Party, id: nat)
    requires PacketsOk(w, p) && id < |p.packets|
    ensures p.packets[id].from == w && Honest(p.packets[id], p.end.tagRemote)
  {
    hide Honest, D.PayloadOf, Num;
  }

  // ---------------------------------------------------------------- the steps are the handlers

  /** An end as the handlers see it: its send buffer holds bytes. */
  function Plain(e: End<Datagram>): End<seq<byte>> {
    Mapped(e, (d: Datagram) => d.bytes)
  }

  function BytesOf(ds: set<Datagram>): set<seq<byte>> {
    set d | d in ds :: d.bytes
  }

  /** The bytes of what is sent again. */
  lemma OverdueBytes(p: Party, now: nat)
    ensures BytesOf(OverdueSet(p, now)) == set b | b in B.Overdue(Plain(p.end).buffer, now)
  {
    hide B.Overdue, MappedBuffer, Images;
    var ds := B.Overdue(p.end.buffer, now);
    OverdueMapped(p.end.buffer, (d: Datagram) => d.bytes, now);
    var bs := Images(ds, (d: Datagram) => d.bytes);
    assert B.Overdue(Plain(p.end).buffer, now) == bs;
    forall b | b in bs
      ensures b in BytesOf(OverdueSet(p, now))
    {
      var i :| 0 <= i < |bs| && bs[i] == b;
      assert ds[i] in OverdueSet(p, now) && ds[i].bytes == b;
    }
    forall d | d in OverdueSet(p, now)
      ensures d.bytes in bs
    {
      var i :| 0 <= i < |ds| && ds[i] == d;
      assert bs[i] == d.bytes;
    }
  }

  /** Taking a number: the number, the packet and the end afterwards are those of
      the first half of sending a message. */
  lemma TakesNumber(s: State, e: Event)
    requires Inv(s) && Enabled(s, e) && e.TakeNumber?
    ensures var p, q := s.Of(e.who), Next(s, e).Of(e.who);
            && Number(Plain(p.end), e.flags, e.msg.channel, e.msg.body)
               == Some(Numbered(Plain(q.end), NumberOf(p, |p.log|), q.packets[|p.log|].bytes))
  {
    hide Seal, DataPacket, HasMac, NetOk, BufferOk, Honest;
    NumberMapped(s.Of(e.who).end, (d: Datagram) => d.bytes, e.flags, e.msg.channel, e.msg.body);
  }

  /** Keeping a packet and sending overdue ones again. */
  lemma KeepsAndResends(s: State, e: Event)
    requires Inv(s) && Enabled(s, e) && (e.Keep? || e.Resend?)
    ensures var p, q := s.Of(e.who), Next(s, e).Of(e.who);
            && (e.Keep? ==> Plain(q.end) == Kept(Plain(p.end), NumberOf(p, e.id), p.packets[e.id].bytes, e.now))
            && (e.Resend? ==> Plain(q.end) == Resent(Plain(p.end), e.now))
    ensures e.Resend? ==> Next(s, e).net == s.net + OverdueSet(s.Of(e.who), e.now)
    ensures e.Resend? ==> BytesOf(OverdueSet(s.Of(e.who), e.now)) == set b | b in B.Overdue(Plain(s.Of(e.who).end).buffer, e.now)
  {
    hide Kept, Resent, Mapped, NetOk, BufferOk, PacketsOk, B.Overdue;
    var p := s.Of(e.who);
    if e.Keep? {
      KeptMapped(p.end, (d: Datagram) => d.bytes, NumberOf(p, e.id), p.packets[e.id], e.now);
    } else {
      ResentMapped(p.end, (d: Datagram) => d.bytes, e.now);
      OverdueBytes(p, e.now);
    }
  }

  /** A delivery: the end afterwards and what goes into the network are those of
      handling the packet's bytes. */
  lemma Delivers(s: State, e: Event)
    requires Inv(s) && Enabled(s, e) && e.Deliver?
    ensures var w := e.d.from.Other();
            var h := Handle(Plain(s.Of(w).end), Received(e.d.bytes));
            && Plain(Next(s, e).Of(w).end) == h.end
            && exists acks: set<Datagram> ::
                 && Next(s, e).net == s.net + acks
                 && BytesOf(acks) == if e.socketOk && h.ack.Some? then {h.ack.value} else {}
  {
    hide Handle, Heard, NetOk, BufferOk, PacketsOk, Mapped, D.Receive, Callbacks, SealedAck, Honest, Timely;
    var w := e.d.from.Other();
    var p, h := s.Of(w), Delivery(s, e);
    HandleMapped(p.end, (d: Datagram) => d.bytes, Received(e.d.bytes));
    HandleDoes(p.end, Received(e.d.bytes));
    var acks := AckSent(w, p.end.tagRemote, h, e.socketOk);
    AckBytes(w, p.end.tagRemote, h, e.socketOk);
    assert Next(s, e).net == s.net + acks;
  }

  /** An acknowledgement from w of position last, as its peer reads it. */
  ghost predicate AckInNet(net: set<Datagram>, w: Who, tagRemote: nat, last: int) {
    exists d :: d in net && d.from == w && d.isAck && d.bytes != []
                && Read(Received(d.bytes), tagRemote) == AckChunk(Num(Bits32, last))
  }

  /** What a delivery pulls is acknowledged: with a socket that takes it and 0x1d
      key positions left, the number of the last message pulled goes into the
      network. In every other case nothing does. */
  lemma PulledIsAcknowledged(s: State, e: Event)
    requires Inv(s) && Enabled(s, e) && e.Deliver?
    ensures var w := e.d.from.Other();
            var p, pulled := s.Of(w), Next(s, e).Of(w).pulled;
            && p.pulled <= pulled
            && if |pulled| > |p.pulled| && e.socketOk && HasKeys(p.end, 0x1d)
               then AckInNet(Next(s, e).net, w, p.end.tagRemote, pulled[|pulled| - 1].0)
               else Next(s, e).net == s.net
  {
    hide Handle, NetOk, BufferOk, PacketsOk, D.Receive, Callbacks, SealedAck, Honest, Timely, Read, Authentic, Num,
      HasKeys, Reserves, B.Kept, B.Covered, AckEvents;
    var w := e.d.from.Other();
    var p, h := s.Of(w), Delivery(s, e);
    HandleDoes(p.end, Received(e.d.bytes));
    AckBytes(w, p.end.tagRemote, h, e.socketOk);
    var acks := AckSent(w, p.end.tagRemote, h, e.socketOk);
    if h.ack.Some? && e.socketOk {
      assert h.ack.value in BytesOf(acks);
    } else {
      assert s.net + acks == s.net;
    }
  }

  lemma AckBytes(w: Who, tag: nat, h: Handled<Datagram>, socketOk: bool)
    requires h.ack.Some? ==> h.items != []
    ensures BytesOf(AckSent(w, tag, h, socketOk)) == if socketOk && h.ack.Some? then {h.ack.value} else {}
  {
    if socketOk && h.ack.Some? {
      assert D.AckFor(tag, h.items) != {};
      var f :| f in D.AckFor(tag, h.items);
      assert Datagram(w, h.ack.value, true, f) in AckSent(w, tag, h, socketOk);
    }
  }
}
