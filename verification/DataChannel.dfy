/** The reliable data channel end to end: a sender that numbers and buffers
    messages, a network that loses, duplicates and reorders datagrams in both
    directions, and a receiver that reorders, pulls and acknowledges.

    Numbers on the wire wrap at 2^32. Every datagram carries, for the proof
    only, the unbounded id of its message; no step reads it except to say that
    the network does not keep a datagram for longer than half the number
    space (Near). */
module DataChannel {
  import opened Bytes
  import opened SeqNum
  import W = ReorderWindow
  import B = SendBuffer
  import T = TakionMessage

  const QUEUE_SIZE: nat := 16
  const SEND_BUFFER_SIZE: nat := 16

  type Channel = n: nat | n < 0x1_0000

  datatype Message = Message(channel: Channel, body: seq<byte>)

  /** How far sending a message has come. Numbers are taken before the datagram
      is sent, and a packet enters the send buffer only after it was sent. */
  datatype Stage = Numbered | Aborted | OnWire | Buffered | NotBuffered

  datatype Flight = Flight(id: nat, payload: seq<byte>)

  type Payload = seq<byte>

  datatype State = State(tag: nat, log: seq<Message>, stages: seq<Stage>, buffer: seq<B.Packet<Flight>>,
                         wire: set<Flight>, acks: set<Flight>,
                         window: W.Window<Payload>, pulled: seq<W.Item<Payload>>)

  /** The first expected number is the sender's tag. */
  function Init(tag: nat): State {
    State(tag, [], [], [], {}, {}, W.Window(tag, 0, map[]), [])
  }

  /** The bytes of message number id. */
  function PayloadOf(tag: nat, log: seq<Message>, id: nat): Payload
    requires id < |log|
  {
    T.DataPayload(Num(Bits32, tag + id), log[id].channel, log[id].body)
  }

  // ---------------------------------------------------------------- the two ends

  datatype Drained = Drained(window: W.Window<Payload>, items: seq<W.Item<Payload>>)

  /** Pull until nothing comes (takion_flush_data_queue). */
  function Drain(w: W.Window<Payload>): Drained
    decreases w.count
  {
    var p := W.Pull(w);
    if p.item == None then Drained(w, []) else
      var rest := Drain(p.window);
      Drained(rest.window, [p.item.value] + rest.items)
  }

  /** takion_handle_packet_message_data. */
  function Receive(w: W.Window<Payload>, payload: Payload): Drained
    requires |payload| >= T.DATA_HEADER_SIZE
  {
    var pos := Filed(Bits32, w.base, Read32(payload, 0));
    Drain(W.Push(w, QUEUE_SIZE, W.DropEnd, pos, payload).window)
  }

  /** Whether the send buffer takes one more packet. */
  predicate CanBuffer<X>(buffer: seq<B.Packet<X>>, seqNum: int) {
    |buffer| < SEND_BUFFER_SIZE && forall i :: 0 <= i < |buffer| ==> buffer[i].seqNum != seqNum
  }

  /** One cumulative acknowledgement of the last item, if anything was pulled. */
  function AckFor(tag: nat, items: seq<W.Item<Payload>>): set<Flight> {
    if items == [] then {} else
      var last := items[|items| - 1].0;
      {Flight(if last >= tag then last - tag else 0, T.AckPayload(Num(Bits32, last)))}
  }

  // ---------------------------------------------------------------- steps

  datatype Event =
    | TakeNumber(msg: Message)
    | Transmit(id: nat, ok: bool)
    | Keep(id: nat, now: nat)
    | Resend(index: nat)
    | LoseData(f: Flight)
    | LoseAck(f: Flight)
    | DeliverData(f: Flight, ackSent: bool)
    | DeliverAck(f: Flight)

  /** Close enough for serial numbers to be ordered. */
  predicate Near(x: int, y: int) {
    x - y < Bits32.Half() && y - x < Bits32.Half()
  }

  ghost predicate Enabled(s: State, e: Event) {
    match e
    case TakeNumber(msg) => true
    case Transmit(id, ok) => id < |s.stages| && s.stages[id] == Numbered && id < |s.log|
    case Keep(id, now) => id < |s.stages| && s.stages[id] == OnWire && id < |s.log|
    case Resend(index) => index < |s.buffer|
    case LoseData(f) => f in s.wire
    case LoseAck(f) => f in s.acks
    case DeliverData(f, _) =>
      && f in s.wire && |f.payload| >= T.DATA_HEADER_SIZE
      && Near(s.tag + f.id, s.window.base)
    case DeliverAck(f) =>
      f in s.acks && forall p :: p in s.buffer ==> Near(p.buf.id, f.id)
  }

  function Next(s: State, e: Event): State
    requires Enabled(s, e)
  {
    match e
    case TakeNumber(msg) =>
      s.(log := s.log + [msg], stages := s.stages + [Numbered])
    case Transmit(id, ok) =>
      if ok then s.(stages := s.stages[id := OnWire], wire := s.wire + {Flight(id, PayloadOf(s.tag, s.log, id))})
      else s.(stages := s.stages[id := Aborted])
    case Keep(id, now) =>
      var seqNum := Num(Bits32, s.tag + id);
      if CanBuffer(s.buffer, seqNum) then
        s.(stages := s.stages[id := Buffered],
           buffer := s.buffer + [B.Packet(seqNum, 0, now, Flight(id, PayloadOf(s.tag, s.log, id)))])
      else
        s.(stages := s.stages[id := NotBuffered])
    case Resend(index) =>
      s.(wire := s.wire + {s.buffer[index].buf})
    case LoseData(f) => s.(wire := s.wire - {f})
    case LoseAck(f) => s.(acks := s.acks - {f})
    case DeliverData(f, ackSent) =>
      var d := Receive(s.window, f.payload);
      s.(window := d.window, pulled := s.pulled + d.items,
         acks := s.acks + (if ackSent then AckFor(s.tag, d.items) else {}))
    case DeliverAck(f) =>
      match T.ReadAck(f.payload)
      case None => s
      case Some(n) => s.(buffer := B.Kept(s.buffer, n))
  }

  // ---------------------------------------------------------------- the invariant

  /** id is the id of a message and payload is what that message looks like on
      the wire. */
  ghost predicate Genuine(tag: nat, log: seq<Message>, id: int, payload: Payload) {
    0 <= id < |log| && payload == PayloadOf(tag, log, id)
  }

  ghost predicate BufferOk(tag: nat, log: seq<Message>, buffer: seq<B.Packet<Flight>>) {
    forall p :: p in buffer ==> Genuine(tag, log, p.buf.id, p.buf.payload) && p.seqNum == Num(Bits32, tag + p.buf.id)
  }

  ghost predicate WireOk(tag: nat, log: seq<Message>, wire: set<Flight>) {
    forall f :: f in wire ==> Genuine(tag, log, f.id, f.payload)
  }

  /** Only what has been pulled is ever acknowledged. */
  ghost predicate AcksOk(tag: nat, acks: set<Flight>, pulled: nat) {
    forall f :: f in acks ==> f.id < pulled && f.payload == T.AckPayload(Num(Bits32, tag + f.id))
  }

  ghost predicate WindowOk(tag: nat, log: seq<Message>, window: W.Window<Payload>, pulled: nat) {
    && window.Wf(QUEUE_SIZE)
    && window.base == tag + pulled
    && forall p :: p in window.held ==> Genuine(tag, log, p - tag, window.held[p])
  }

  /** The receiver has pulled exactly the first messages, in order, each once. */
  ghost predicate PulledOk(tag: nat, log: seq<Message>, pulled: seq<W.Item<Payload>>) {
    && |pulled| <= |log|
    && forall i :: 0 <= i < |pulled| ==> pulled[i].0 == tag + i && Genuine(tag, log, i, pulled[i].1)
  }

  /** Whatever entered the send buffer is still there or has been pulled. */
  ghost predicate NothingLost(stages: seq<Stage>, buffer: seq<B.Packet<Flight>>, pulled: nat) {
    forall id :: 0 <= id < |stages| && stages[id] == Buffered ==> id < pulled || InBuffer(buffer, id)
  }

  ghost predicate InBuffer(buffer: seq<B.Packet<Flight>>, id: nat) {
    exists p :: p in buffer && p.buf.id == id
  }

  ghost predicate Inv(s: State) {
    && |s.stages| == |s.log|
    && BufferOk(s.tag, s.log, s.buffer)
    && WireOk(s.tag, s.log, s.wire)
    && AcksOk(s.tag, s.acks, |s.pulled|)
    && WindowOk(s.tag, s.log, s.window, |s.pulled|)
    && PulledOk(s.tag, s.log, s.pulled)
    && NothingLost(s.stages, s.buffer, |s.pulled|)
  }

  // ---------------------------------------------------------------- the receiver

  lemma {:induction false} DrainExact(w: W.Window<Payload>)
    requires w.Wf(QUEUE_SIZE)
    ensures var d := Drain(w);
            && d.window.Wf(QUEUE_SIZE)
            && d.window.base == w.base + |d.items|
            && (forall p :: p in d.window.held ==> p in w.held && d.window.held[p] == w.held[p])
            && (forall p :: p in w.held && p >= d.window.base ==> p in d.window.held)
            && (forall i :: 0 <= i < |d.items| ==> d.items[i].0 == w.base + i && PulledFrom(w, d.items[i]))
            && W.Pull(d.window).item == None
    decreases w.count
  {
    var p := W.Pull(w);
    if p.item != None {
      DrainExact(p.window);
      var d, rest := Drain(w), Drain(p.window);
      forall i | 0 <= i < |d.items|
        ensures d.items[i].0 == w.base + i && PulledFrom(w, d.items[i])
      {
        if i > 0 {
          assert d.items[i] == rest.items[i - 1];
          assert PulledFrom(p.window, rest.items[i - 1]);
        }
      }
    }
  }

  /** Receiving a whole sequence of datagrams, draining after each. */
  function ReceiveAll(w: W.Window<Payload>, xs: seq<W.Item<Payload>>): Drained
    requires forall i :: 0 <= i < |xs| ==> |xs[i].1| >= T.DATA_HEADER_SIZE
    decreases |xs|
  {
    if xs == [] then Drained(w, []) else
      var n := |xs| - 1;
      var before := ReceiveAll(w, xs[..n]);
      var d := Receive(before.window, xs[n].1);
      Drained(d.window, before.items + d.items)
  }

  /** Of these elements, payload is the first one for position p. */
  ghost predicate FirstFor(xs: seq<W.Item<Payload>>, p: int, payload: Payload) {
    exists i :: 0 <= i < |xs| && xs[i] == (p, payload) && forall j :: 0 <= j < i ==> xs[j].0 != p
  }

  ghost predicate Arrives(xs: seq<W.Item<Payload>>, p: int) {
    exists i :: 0 <= i < |xs| && xs[i].0 == p
  }

  lemma {:induction false} FirstNext(xs: seq<W.Item<Payload>>, x: W.Item<Payload>)
    ensures forall p, payload :: FirstFor(xs, p, payload) ==> FirstFor(xs + [x], p, payload)
    ensures !Arrives(xs, x.0) ==> FirstFor(xs + [x], x.0, x.1)
    ensures forall p :: Arrives(xs + [x], p) <==> Arrives(xs, p) || p == x.0
  {
    var ys := xs + [x];
    forall p, payload | FirstFor(xs, p, payload)
      ensures FirstFor(ys, p, payload)
    {
      var i :| 0 <= i < |xs| && xs[i] == (p, payload) && forall j :: 0 <= j < i ==> xs[j].0 != p;
      assert ys[i] == xs[i] && forall j :: 0 <= j < i ==> ys[j] == xs[j];
    }
    if !Arrives(xs, x.0) {
      assert ys[|xs|] == x && forall j :: 0 <= j < |xs| ==> ys[j] == xs[j];
    }
    forall p
      ensures Arrives(ys, p) <==> Arrives(xs, p) || p == x.0
    {
      if Arrives(xs, p) {
        var i :| 0 <= i < |xs| && xs[i].0 == p;
        assert ys[i].0 == p;
      }
      if p == x.0 {
        assert ys[|xs|].0 == p;
      }
    }
  }

  /** A push within the window's reach. */
  lemma {:induction false} PushWithin(w: W.Window<Payload>, pos: int, payload: Payload)
    requires w.Wf(QUEUE_SIZE) && w.base <= pos < w.base + QUEUE_SIZE
    ensures var r := W.Push(w, QUEUE_SIZE, W.DropEnd, pos, payload).window;
            r.Wf(QUEUE_SIZE) && r.base == w.base && r.held == if pos in w.held then w.held else w.held[pos := payload]
  {
  }

  /** A datagram that carries the number of a position within the reach of a
      window that began at base. */
  predicate Within(base: int, x: W.Item<Payload>) {
    && base <= x.0 < base + QUEUE_SIZE
    && |x.1| >= T.DATA_HEADER_SIZE && Read32(x.1, 0) == Num(Bits32, x.0)
  }

  /** After these arrivals: the delivered items are consecutive from base, what
      has arrived is delivered or held, and each as it first arrived. */
  ghost predicate Delivering(base: int, xs: seq<W.Item<Payload>>, d: Drained) {
    && d.window.Wf(QUEUE_SIZE) && d.window.base == base + |d.items|
    && W.Pull(d.window).item == None
    && (forall p :: Arrives(xs, p) ==> p < d.window.base || p in d.window.held)
    && (forall p :: p in d.window.held ==> FirstFor(xs, p, d.window.held[p]))
    && forall k :: 0 <= k < |d.items| ==> d.items[k].0 == base + k && FirstFor(xs, base + k, d.items[k].1)
  }

  /** A push below the window is dropped, one within its reach is held unless its
      position is taken. */
  lemma {:induction false} PushReached(w: W.Window<Payload>, pos: int, payload: Payload)
    requires w.Wf(QUEUE_SIZE) && pos < w.base + QUEUE_SIZE
    ensures var r := W.Push(w, QUEUE_SIZE, W.DropEnd, pos, payload).window;
            && r.Wf(QUEUE_SIZE) && r.base == w.base
            && r.held == if pos < w.base || pos in w.held then w.held else w.held[pos := payload]
  {
    if pos >= w.base {
      PushWithin(w, pos, payload);
    }
  }

  lemma {:induction false} DeliverOne(base: int, xs: seq<W.Item<Payload>>, d: Drained, x: W.Item<Payload>)
    requires Delivering(base, xs, d) && Within(base, x) && |d.items| <= QUEUE_SIZE
    ensures var r := Receive(d.window, x.1);
            Delivering(base, xs + [x], Drained(r.window, d.items + r.items))
  {
    hide FirstFor, Arrives, W.Push, W.Pull, Drain, Num, Read32, Filed;
    NumberFiled(d.window.base, x);
    PushReached(d.window, x.0, x.1);
    var w := W.Push(d.window, QUEUE_SIZE, W.DropEnd, x.0, x.1).window;
    assert w == W.Push(d.window, QUEUE_SIZE, W.DropEnd, Filed(Bits32, d.window.base, Read32(x.1, 0)), x.1).window;
    DrainExact(w);
    FirstNext(xs, x);
    var r := Drain(w);
    var all := d.items + r.items;
    forall p | p in w.held
      ensures FirstFor(xs + [x], p, w.held[p])
    {
    }
    forall k | 0 <= k < |all|
      ensures all[k].0 == base + k && FirstFor(xs + [x], base + k, all[k].1)
    {
      if k >= |d.items| {
        assert PulledFrom(w, r.items[k - |d.items|]);
      }
    }
  }

  lemma NumberFiled(base: int, x: W.Item<Payload>)
    requires |x.1| >= T.DATA_HEADER_SIZE && Read32(x.1, 0) == Num(Bits32, x.0) && -0x1000 < x.0 - base < 0x1000
    ensures Filed(Bits32, base, Read32(x.1, 0)) == x.0
  {
    UnwrapUnique(Bits32, base, x.0);
  }

  lemma {:induction false} AllDelivering(base: int, xs: seq<W.Item<Payload>>)
    requires forall i :: 0 <= i < |xs| ==> Within(base, xs[i]) && |xs[i].1| >= T.DATA_HEADER_SIZE
    ensures Delivering(base, xs, ReceiveAll(W.Window(base, 0, map[]), xs))
    decreases |xs|
  {
    if xs != [] {
      hide Delivering, Receive, Within;
      var n := |xs| - 1;
      AllDelivering(base, xs[..n]);
      var d := ReceiveAll(W.Window(base, 0, map[]), xs[..n]);
      FewDelivered(base, xs[..n], d);
      DeliverOne(base, xs[..n], d, xs[n]);
      assert xs == xs[..n] + [xs[n]];
    }
  }

  lemma WithinHeader(base: int, xs: seq<W.Item<Payload>>)
    requires forall i :: 0 <= i < |xs| ==> Within(base, xs[i])
    ensures forall i :: 0 <= i < |xs| ==> |xs[i].1| >= T.DATA_HEADER_SIZE
  {
  }

  /** Only what arrived is delivered. */
  lemma {:induction false} FewDelivered(base: int, xs: seq<W.Item<Payload>>, d: Drained)
    requires Delivering(base, xs, d) && forall i :: 0 <= i < |xs| ==> Within(base, xs[i])
    ensures |d.items| <= QUEUE_SIZE
  {
    if |d.items| > 0 {
      assert FirstFor(xs, base + (|d.items| - 1), d.items[|d.items| - 1].1);
    }
  }

  /** Whatever order the next n messages arrive in, however often each of them
      and whatever else within the window's reach arrives in between: receiving
      them delivers all n, in order, each as it first arrived. */
  lemma {:induction false} AnyOrderDelivered(base: int, xs: seq<W.Item<Payload>>, n: nat)
    requires forall i :: 0 <= i < |xs| ==> Within(base, xs[i])
    requires forall p :: base <= p < base + n ==> Arrives(xs, p)
    ensures forall i :: 0 <= i < |xs| ==> |xs[i].1| >= T.DATA_HEADER_SIZE
    ensures var d := ReceiveAll(W.Window(base, 0, map[]), xs);
            && |d.items| >= n
            && forall k :: 0 <= k < |d.items| ==> d.items[k].0 == base + k && FirstFor(xs, base + k, d.items[k].1)
  {
    WithinHeader(base, xs);
    hide ReceiveAll, Within, FirstFor, Arrives;
    AllDelivering(base, xs);
    var d := ReceiveAll(W.Window(base, 0, map[]), xs);
    assert base + |d.items| !in d.window.held;
    assert !Arrives(xs, base + |d.items|);
  }

  ghost predicate PulledFrom(w: W.Window<Payload>, x: W.Item<Payload>) {
    x.0 in w.held && x.1 == w.held[x.0]
  }

  /** Under DropEnd the window never moves on a push, and holds nothing new but
      the pushed element. */
  lemma {:induction false} PushExact(w: W.Window<Payload>, pos: int, payload: Payload)
    requires w.Wf(QUEUE_SIZE)
    ensures var r := W.Push(w, QUEUE_SIZE, W.DropEnd, pos, payload).window;
            && r.Wf(QUEUE_SIZE) && r.base == w.base
            && forall p :: p in r.held ==> (p in w.held && r.held[p] == w.held[p]) || (p == pos && r.held[p] == payload)
  {
  }

  /** A genuine datagram leaves only genuine elements in the window. */
  lemma {:induction false} PushOk(tag: nat, log: seq<Message>, w: W.Window<Payload>, pulled: nat, id: nat,
      payload: Payload)
    requires WindowOk(tag, log, w, pulled) && Genuine(tag, log, id, payload)
    ensures WindowOk(tag, log, W.Push(w, QUEUE_SIZE, W.DropEnd, tag + id, payload).window, pulled)
  {
    hide Genuine, W.Push;
    PushExact(w, tag + id, payload);
  }

  /** What draining appends continues the pulled prefix. */
  lemma {:induction false} DrainOk(tag: nat, log: seq<Message>, w: W.Window<Payload>, pulled: seq<W.Item<Payload>>)
    requires WindowOk(tag, log, w, |pulled|) && PulledOk(tag, log, pulled)
    ensures var d := Drain(w);
            WindowOk(tag, log, d.window, |pulled| + |d.items|) && PulledOk(tag, log, pulled + d.items)
  {
    hide Drain, W.Pull, Genuine, W.Window.Wf;
    DrainExact(w);
    var d := Drain(w);
    var all := pulled + d.items;
    forall i | 0 <= i < |all|
      ensures all[i].0 == tag + i && Genuine(tag, log, i, all[i].1)
    {
      if i >= |pulled| {
        var x := d.items[i - |pulled|];
        assert x.0 == tag + i && PulledFrom(w, x);
      }
    }
    if |all| > 0 {
      GenuineBound(tag, log, |all| - 1, all[|all| - 1].1);
    }
  }

  lemma GenuineBound(tag: nat, log: seq<Message>, id: int, payload: Payload)
    requires Genuine(tag, log, id, payload)
    ensures 0 <= id < |log|
  {
  }

  /** The position a fresh genuine datagram is filed under is its own. */
  lemma {:induction false} FiledAtOwnPosition(tag: nat, log: seq<Message>, base: int, id: nat, payload: Payload)
    requires Genuine(tag, log, id, payload) && Near(tag + id, base)
    ensures |payload| >= T.DATA_HEADER_SIZE && Filed(Bits32, base, Read32(payload, 0)) == tag + id
  {
    T.DataRoundTrip(Num(Bits32, tag + id), log[id].channel, log[id].body);
    UnwrapUnique(Bits32, base, tag + id);
  }

  lemma {:induction false} ReceiveOk(tag: nat, log: seq<Message>, w: W.Window<Payload>,
      pulled: seq<W.Item<Payload>>, f: Flight)
    requires WindowOk(tag, log, w, |pulled|) && PulledOk(tag, log, pulled)
    requires Genuine(tag, log, f.id, f.payload) && Near(tag + f.id, w.base)
    ensures |f.payload| >= T.DATA_HEADER_SIZE
    ensures var d := Receive(w, f.payload);
            WindowOk(tag, log, d.window, |pulled| + |d.items|) && PulledOk(tag, log, pulled + d.items)
  {
    hide WindowOk, PulledOk, W.Push, Drain, Filed, Near, Genuine, Read32;
    FiledAtOwnPosition(tag, log, w.base, f.id, f.payload);
    PushOk(tag, log, w, |pulled|, f.id, f.payload);
    DrainOk(tag, log, W.Push(w, QUEUE_SIZE, W.DropEnd, tag + f.id, f.payload).window, pulled);
  }

  // ---------------------------------------------------------------- the sender

  /** A cumulative acknowledgement of message id, however stale, frees exactly
      the messages up to id. */
  lemma {:induction false} AckFreesExactlyOlder(tag: nat, log: seq<Message>, buffer: seq<B.Packet<Flight>>,
      id: nat, p: B.Packet<Flight>)
    requires BufferOk(tag, log, buffer) && p in buffer && Near(p.buf.id, id)
    ensures p in B.Kept(buffer, Num(Bits32, tag + id)) <==> p.buf.id > id
  {
    SerialOrder(Bits32, tag + p.buf.id, tag + id);
    var ack := Num(Bits32, tag + id);
    B.KeptMembers(buffer, ack);
  }

  /** What an acknowledgement frees, and reports as acknowledged, has been pulled. */
  lemma {:induction false} AckReportsPulled(s: State, f: Flight, ack: nat, n: int)
    requires Inv(s) && Enabled(s, DeliverAck(f)) && T.ReadAck(f.payload) == Some(ack) && n in B.Covered(s.buffer, ack)
    ensures exists i :: 0 <= i < |s.pulled| && n == Num(Bits32, s.pulled[i].0)
  {
    hide Genuine, Num, T.ReadAck, T.AckPayload, B.Covered, NothingLost, WindowOk, WireOk;
    AckMeans(s, f);
    T.AckRoundTrip(Num(Bits32, s.tag + f.id));
    B.CoveredNumbers(s.buffer, ack);
    var p :| p in s.buffer && p.seqNum == n;
    SerialOrder(Bits32, s.tag + p.buf.id, s.tag + f.id);
    GenuineId(s.tag, s.log, p.buf.id, p.buf.payload);
    assert s.pulled[p.buf.id].0 == s.tag + p.buf.id;
  }

  lemma GenuineId(tag: nat, log: seq<Message>, id: int, payload: Payload)
    requires Genuine(tag, log, id, payload)
    ensures 0 <= id < |log|
  {
  }

  lemma {:induction false} AckLosesNothing(tag: nat, log: seq<Message>, stages: seq<Stage>,
      buffer: seq<B.Packet<Flight>>,
                                           pulled: nat, id: nat)
    requires BufferOk(tag, log, buffer) && NothingLost(stages, buffer, pulled) && id < pulled
    requires forall p :: p in buffer ==> Near(p.buf.id, id)
    ensures NothingLost(stages, B.Kept(buffer, Num(Bits32, tag + id)), pulled)
  {
    hide Genuine, Near, Num, B.Kept;
    var kept := B.Kept(buffer, Num(Bits32, tag + id));
    forall k | 0 <= k < |stages| && stages[k] == Buffered
      ensures k < pulled || InBuffer(kept, k)
    {
      if k >= pulled {
        var p :| p in buffer && p.buf.id == k;
        AckFreesExactlyOlder(tag, log, buffer, id, p);
      }
    }
  }

  lemma {:induction false} LogGrows(s: State, msg: Message)
    requires Inv(s)
    ensures Inv(Next(s, TakeNumber(msg)))
  {
    var log := s.log + [msg];
    forall id, payload | Genuine(s.tag, s.log, id, payload)
      ensures Genuine(s.tag, log, id, payload)
    {
    }
    hide Genuine;
  }

  lemma {:induction false} KeepStep(s: State, id: nat, now: nat)
    requires Inv(s) && Enabled(s, Keep(id, now))
    ensures Inv(Next(s, Keep(id, now)))
  {
    var t := Next(s, Keep(id, now));
    assert Genuine(s.tag, s.log, id, PayloadOf(s.tag, s.log, id));
    hide Genuine, PayloadOf;
    forall k | 0 <= k < |t.stages| && t.stages[k] == Buffered
      ensures k < |t.pulled| || InBuffer(t.buffer, k)
    {
      if k == id {
        assert t.buffer[|s.buffer|].buf.id == id;
      } else if k >= |s.pulled| {
        var p :| p in s.buffer && p.buf.id == k;
        assert p in t.buffer;
      }
    }
  }

  // ---------------------------------------------------------------- every step

  lemma {:induction false} InitOk(tag: nat)
    ensures Inv(Init(tag))
  {
  }

  lemma {:induction false} AckMeans(s: State, f: Flight)
    requires Inv(s) && f in s.acks
    ensures f.id < |s.pulled| && f.payload == T.AckPayload(Num(Bits32, s.tag + f.id))
  {
    hide Genuine, Num, T.AckPayload;
  }

  lemma {:induction false} AckStep(s: State, f: Flight)
    requires Inv(s) && Enabled(s, DeliverAck(f))
    ensures Inv(Next(s, DeliverAck(f)))
  {
    hide Genuine, Num, T.ReadAck, T.AckPayload, B.Kept, NothingLost, WindowOk, PulledOk, WireOk, AcksOk;
    AckMeans(s, f);
    var n := Num(Bits32, s.tag + f.id);
    T.AckRoundTrip(n);
    B.KeptMembers(s.buffer, n);
    AckLosesNothing(s.tag, s.log, s.stages, s.buffer, |s.pulled|, f.id);
  }

  lemma {:induction false} DeliverStep(s: State, f: Flight, ackSent: bool)
    requires Inv(s) && Enabled(s, DeliverData(f, ackSent))
    ensures Inv(Next(s, DeliverData(f, ackSent)))
  {
    ReceiveOk(s.tag, s.log, s.window, s.pulled, f);
    var d := Receive(s.window, f.payload);
    NewAcks(s.tag, s.log, s.acks, s.pulled, d.items);
    hide Receive, Genuine, WindowOk, PulledOk, AcksOk, AckFor, BufferOk, WireOk, InBuffer;
  }

  lemma {:induction false} NewAcks(tag: nat, log: seq<Message>, acks: set<Flight>, pulled: seq<W.Item<Payload>>,
      items: seq<W.Item<Payload>>)
    requires AcksOk(tag, acks, |pulled|) && PulledOk(tag, log, pulled + items)
    ensures AcksOk(tag, acks, |pulled + items|) && AcksOk(tag, acks + AckFor(tag, items), |pulled + items|)
  {
    var all := pulled + items;
    if items != [] {
      assert all[|all| - 1] == items[|items| - 1];
      assert all[|all| - 1].0 == tag + (|all| - 1);
    }
  }

  lemma {:induction false} StepKeepsInv(s: State, e: Event)
    requires Inv(s) && Enabled(s, e)
    ensures Inv(Next(s, e))
  {
    match e
    case TakeNumber(msg) => LogGrows(s, msg);
    case Keep(id, now) => KeepStep(s, id, now);
    case DeliverData(f, ackSent) => DeliverStep(s, f, ackSent);
    case DeliverAck(f) => AckStep(s, f);
    case _ => WireStep(s, e);
  }

  lemma {:induction false} WireStep(s: State, e: Event)
    requires Inv(s) && Enabled(s, e) && (e.Transmit? || e.Resend? || e.LoseData? || e.LoseAck?)
    ensures Inv(Next(s, e))
  {
    match e
    case Transmit(id, ok) =>
      assert Genuine(s.tag, s.log, id, PayloadOf(s.tag, s.log, id));
      assert forall k :: 0 <= k < |s.stages| && Next(s, e).stages[k] == Buffered ==> s.stages[k] == Buffered;
    case Resend(index) => assert s.buffer[index] in s.buffer;
    case LoseData(_) =>
    case LoseAck(_) =>
  }

  // ---------------------------------------------------------------- whole runs

  /** states[0], events[0], states[1], ... is a run of the channel. */
  ghost predicate IsRun(tag: nat, states: seq<State>, events: seq<Event>) {
    && |states| == |events| + 1 && states[0] == Init(tag)
    && forall i :: 0 <= i < |events| ==> Enabled(states[i], events[i]) && states[i + 1] == Next(states[i], events[i])
  }

  lemma {:induction false} RunInv(tag: nat, states: seq<State>, events: seq<Event>, n: nat)
    requires IsRun(tag, states, events) && n < |states|
    ensures Inv(states[n]) && states[n].tag == tag
  {
    if n == 0 {
      InitOk(tag);
    } else {
      RunInv(tag, states, events, n - 1);
      StepKeepsInv(states[n - 1], events[n - 1]);
      hide Inv;
    }
  }

  /** End-to-end safety: in every state of every run, what the receiver has
      pulled is exactly a prefix of the messages sent, in order and each once,
      and each reaches the callback with the content it was sent with. */
  lemma {:induction false} DeliveredIsPrefix(tag: nat, states: seq<State>, events: seq<Event>, n: nat)
    requires IsRun(tag, states, events) && n < |states|
    ensures var s := states[n];
            && |s.pulled| <= |s.log|
            && forall i :: 0 <= i < |s.pulled| ==>
                 s.pulled[i].0 == tag + i && T.Callback(s.pulled[i].1) == Some(T.DataEvent(0, s.log[i].body))
  {
    RunInv(tag, states, events, n);
    var s := states[n];
    forall i | 0 <= i < |s.pulled|
      ensures T.Callback(s.pulled[i].1) == Some(T.DataEvent(0, s.log[i].body))
    {
      T.DataRoundTrip(Num(Bits32, s.tag + i), s.log[i].channel, s.log[i].body);
    }
  }

  /** No acknowledged loss: in every state of every run, a message whose push
      into the send buffer succeeded is still buffered, unaltered, or the
      receiver has pulled it. */
  lemma {:induction false} NoAcknowledgedLoss(tag: nat, states: seq<State>, events: seq<Event>, n: nat, id: nat)
    requires IsRun(tag, states, events) && n < |states|
    requires id < |states[n].stages| && states[n].stages[id] == Buffered
    ensures id < |states[n].log|
    ensures id < |states[n].pulled|
            || exists p :: p in states[n].buffer && p.buf == Flight(id, PayloadOf(tag, states[n].log, id))
  {
    RunInv(tag, states, events, n);
    var s := states[n];
    if id >= |s.pulled| {
      var p :| p in s.buffer && p.buf.id == id;
      assert p.buf == Flight(id, PayloadOf(tag, s.log, id));
    }
  }

  /** Nothing pulled is ever taken back or reordered later on. */
  lemma {:induction false} PulledGrows(tag: nat, states: seq<State>, events: seq<Event>, i: nat, j: nat)
    requires IsRun(tag, states, events) && i <= j < |states|
    ensures states[i].pulled <= states[j].pulled && states[i].log <= states[j].log
    decreases j
  {
    if i < j {
      PulledGrows(tag, states, events, i, j - 1);
      hide Receive, B.Kept, AckFor, PayloadOf, T.ReadAck;
      assert states[j] == Next(states[j - 1], events[j - 1]);
    }
  }
}
