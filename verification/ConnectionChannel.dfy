/** Seen from either side, every step of a Takion connection is a step of the
    data channel, several, or none. */
module ConnectionChannel {
  import opened Bytes
  import opened SeqNum
  import opened TakionMessage
  import opened TakionEnd
  import opened Connection
  import W = ReorderWindow
  import B = SendBuffer
  import D = DataChannel

  // ---------------------------------------------------------------- as seen from one side

  function Image(ps: seq<B.Packet<Datagram>>): (r: seq<B.Packet<D.Flight>>)
    ensures |r| == |ps| && forall i :: 0 <= i < |ps| ==> r[i] == B.Packet(ps[i].seqNum, 0, 0, ps[i].buf.flight)
  {
    Images(ps, Shadow)
  }

  /** A buffered packet as the channel sees it. */
  function Shadow(p: B.Packet<Datagram>): B.Packet<D.Flight> {
    B.Packet(p.seqNum, 0, 0, p.buf.flight)
  }

  function Flights(net: set<Datagram>, from: Who, isAck: bool): (r: set<D.Flight>)
    ensures forall d :: d in net && d.from == from && d.isAck == isAck ==> d.flight in r
  {
    set d | d in net && d.from == from && d.isAck == isAck :: d.flight
  }

  /** The data channel from w to the other end. */
  function Channel(s: State, w: Who): D.State {
    var p, q := s.Of(w), s.Of(w.Other());
    D.State(p.end.tagLocal, p.log, p.stages, Image(p.end.buffer),
            Flights(s.net, w, false), Flights(s.net, w.Other(), true), q.end.window, q.pulled)
  }

  // ---------------------------------------------------------------- paths of the channel

  ghost predicate Path(states: seq<D.State>, events: seq<D.Event>) {
    && |states| == |events| + 1
    && forall i :: 0 <= i < |events| ==> D.Enabled(states[i], events[i]) && states[i + 1] == D.Next(states[i], events[i])
  }

  /** The channel gets from x to y in some number of steps. */
  ghost predicate Reaches(x: D.State, y: D.State) {
    exists states, events :: Path(states, events) && states[0] == x && states[|events|] == y
  }

  lemma Stays(x: D.State)
    ensures Reaches(x, x)
  {
    assert Path([x], []);
  }

  lemma Steps(x: D.State, e: D.Event)
    requires D.Enabled(x, e)
    ensures Reaches(x, D.Next(x, e))
  {
    assert Path([x, D.Next(x, e)], [e]);
  }

  lemma {:induction false} PathsJoin(s: seq<D.State>, es: seq<D.Event>, t: seq<D.State>, fs: seq<D.Event>)
    requires Path(s, es) && Path(t, fs) && s[|es|] == t[0]
    ensures Path(s + t[1..], es + fs) && (s + t[1..])[|es + fs|] == t[|fs|]
  {
    var u, gs := s + t[1..], es + fs;
    forall i | 0 <= i < |gs|
      ensures D.Enabled(u[i], gs[i]) && u[i + 1] == D.Next(u[i], gs[i])
    {
      if i < |es| {
        assert u[i] == s[i] && u[i + 1] == s[i + 1];
      } else {
        assert u[i] == t[i - |es|] && u[i + 1] == t[i - |es| + 1] && gs[i] == fs[i - |es|];
      }
    }
  }

  lemma {:induction false} ReachesFurther(x: D.State, y: D.State, z: D.State)
    requires Reaches(x, y) && Reaches(y, z)
    ensures Reaches(x, z)
  {
    var s, es :| Path(s, es) && s[0] == x && s[|es|] == y;
    var t, fs :| Path(t, fs) && t[0] == y && t[|fs|] == z;
    PathsJoin(s, es, t, fs);
    assert (s + t[1..])[0] == x;
  }

  // ---------------------------------------------------------------- the network, seen from one side

  lemma FlightsUnion(net: set<Datagram>, more: set<Datagram>, from: Who, isAck: bool)
    ensures Flights(net + more, from, isAck) == Flights(net, from, isAck) + Flights(more, from, isAck)
  {
  }

  /** Both directions at once. */
  lemma FlightsMore(net: set<Datagram>, more: set<Datagram>, w: Who)
    ensures Flights(net + more, w, false) == Flights(net, w, false) + Flights(more, w, false)
    ensures Flights(net + more, w.Other(), true) == Flights(net, w.Other(), true) + Flights(more, w.Other(), true)
  {
    FlightsUnion(net, more, w, false);
    FlightsUnion(net, more, w.Other(), true);
  }

  lemma FlightsOne(d: Datagram, from: Who, isAck: bool)
    ensures Flights({d}, from, isAck) == if d.from == from && d.isAck == isAck then {d.flight} else {}
  {
  }

  /** Taking a packet out takes its image out, unless another packet has the same. */
  lemma FlightsWithout(net: set<Datagram>, d: Datagram, from: Who, isAck: bool)
    requires d in net
    ensures Flights(net - {d}, from, isAck) == Flights(net, from, isAck)
            || (d.from == from && d.isAck == isAck
                && Flights(net - {d}, from, isAck) == Flights(net, from, isAck) - {d.flight})
  {
    var fs, gs := Flights(net, from, isAck), Flights(net - {d}, from, isAck);
    forall f | f in fs && !(d.from == from && d.isAck == isAck && f == d.flight)
      ensures f in gs
    {
      var x :| x in net && x.from == from && x.isAck == isAck && x.flight == f;
      assert x in net - {d};
    }
    assert gs <= fs;
  }

  lemma ImageGrows(ps: seq<B.Packet<Datagram>>, p: B.Packet<Datagram>)
    ensures Image(ps + [p]) == Image(ps) + [B.Packet(p.seqNum, 0, 0, p.buf.flight)]
    ensures D.CanBuffer(Image(ps), p.seqNum) <==> D.CanBuffer(ps, p.seqNum)
  {
  }

  lemma SentFlight(w: Who, p: Party, id: nat)
    requires PacketsOk(w, p) && id < |p.packets|
    ensures |p.packets| == |p.stages| == |p.log|
    ensures var d := p.packets[id];
            d.from == w && !d.isAck && d.flight == D.Flight(id, D.PayloadOf(p.end.tagLocal, p.log, id))
  {
  }

  // ---------------------------------------------------------------- each step, seen from either side

  lemma KeysRefine(s: State, e: Connection.Event, w: Who)
    requires Inv(s) && Enabled(s, e) && e.Keys?
    ensures Reaches(Channel(s, w), Channel(Next(s, e), w))
  {
    assert Channel(s, w) == Channel(Next(s, e), w);
    Stays(Channel(s, w));
  }

  lemma TakeNumberRefines(s: State, e: Connection.Event, w: Who)
    requires Inv(s) && Enabled(s, e) && e.TakeNumber?
    ensures Reaches(Channel(s, w), Channel(Next(s, e), w))
  {
    var x := Channel(s, w);
    if e.who == w {
      Steps(x, D.TakeNumber(e.msg));
      assert D.Next(x, D.TakeNumber(e.msg)) == Channel(Next(s, e), w);
    } else {
      Stays(x);
      assert x == Channel(Next(s, e), w);
    }
  }

  lemma TransmitRefines(s: State, e: Connection.Event, w: Who)
    requires Inv(s) && Enabled(s, e) && e.Transmit?
    ensures Reaches(Channel(s, w), Channel(Next(s, e), w))
  {
    hide Honest, Image, Flights, D.PayloadOf, NetOk, PacketsOk, BufferOk, Reaches;
    if e.who == w {
      OwnTransmit(s, e);
      Steps(Channel(s, w), D.Transmit(e.id, e.ok));
    } else {
      var d := s.Of(e.who).packets[e.id];
      SentFlight(e.who, s.Of(e.who), e.id);
      FlightsMore(s.net, {d}, w);
      FlightsOne(d, w, false);
      FlightsOne(d, w.Other(), true);
      assert Channel(Next(s, e), w) == Channel(s, w);
      Stays(Channel(s, w));
    }
  }

  lemma OwnTransmit(s: State, e: Connection.Event)
    requires Inv(s) && Enabled(s, e) && e.Transmit?
    ensures D.Enabled(Channel(s, e.who), D.Transmit(e.id, e.ok))
    ensures D.Next(Channel(s, e.who), D.Transmit(e.id, e.ok)) == Channel(Next(s, e), e.who)
  {
    hide Honest, Image, Flights, D.PayloadOf, NetOk, PacketsOk, BufferOk;
    var d := s.Of(e.who).packets[e.id];
    SentFlight(e.who, s.Of(e.who), e.id);
    FlightsMore(s.net, {d}, e.who);
    FlightsOne(d, e.who, false);
    FlightsOne(d, e.who.Other(), true);
  }

  lemma KeepRefines(s: State, e: Connection.Event, w: Who)
    requires Inv(s) && Enabled(s, e) && e.Keep?
    ensures Reaches(Channel(s, w), Channel(Next(s, e), w))
  {
    hide Honest, Image, Flights, Num, D.PayloadOf, NetOk, PacketsOk, BufferOk, D.CanBuffer, Reaches;
    if e.who == w {
      OwnKeep(s, e);
      Steps(Channel(s, w), D.Keep(e.id, 0));
    } else {
      Stays(Channel(s, w));
    }
  }

  lemma OwnKeep(s: State, e: Connection.Event)
    requires Inv(s) && Enabled(s, e) && e.Keep?
    ensures D.Enabled(Channel(s, e.who), D.Keep(e.id, 0))
    ensures D.Next(Channel(s, e.who), D.Keep(e.id, 0)) == Channel(Next(s, e), e.who)
  {
    hide Honest, Image, Flights, Num, D.PayloadOf, NetOk, PacketsOk, BufferOk, D.CanBuffer;
    var p := s.Of(e.who);
    SentFlight(e.who, p, e.id);
    ImageGrows(p.end.buffer, B.Packet(Num(Bits32, p.end.tagLocal + e.id), 0, e.now, p.packets[e.id]));
  }

  /** Sending buffered packets again, one by one. */
  lemma {:induction false} ResendPath(x: D.State, extra: set<D.Flight>)
    requires forall f :: f in extra ==> exists i :: 0 <= i < |x.buffer| && x.buffer[i].buf == f
    ensures Reaches(x, x.(wire := x.wire + extra))
    decreases extra
  {
    hide Reaches;
    if extra == {} {
      assert x.wire + extra == x.wire;
      Stays(x);
    } else {
      var f :| f in extra;
      var i :| 0 <= i < |x.buffer| && x.buffer[i].buf == f;
      var y, rest := x.(wire := x.wire + {f}), extra - {f};
      Steps(x, D.Resend(i));
      ResendPath(y, rest);
      assert y.wire + rest == x.wire + extra;
      ReachesFurther(x, y, y.(wire := y.wire + rest));
    }
  }

  lemma ImageResent(e: End<Datagram>, now: nat)
    ensures Image(Resent(e, now).buffer) == Image(e.buffer)
  {
  }

  /** Resending only puts data packets of that end into the network. */
  lemma ResentChannel(s: State, e: Connection.Event, w: Who)
    requires Inv(s) && Enabled(s, e) && e.Resend?
    ensures var more := Flights(OverdueSet(s.Of(e.who), e.now), w, false);
            && Channel(Next(s, e), w) == Channel(s, w).(wire := Channel(s, w).wire + more)
            && (e.who != w ==> more == {})
  {
    hide Honest, Image, NetOk, PacketsOk, BufferOk, OverdueSet, Flights, Resent;
    var p, more := s.Of(e.who), OverdueSet(s.Of(e.who), e.now);
    OverdueSides(s, e.who, e.now, w);
    FlightsMore(s.net, more, w);
    ImageResent(p.end, e.now);
    ResentOnly(p.end, e.now);
  }

  lemma OverdueSides(s: State, who: Who, now: nat, w: Who)
    requires Inv(s)
    ensures var more := OverdueSet(s.Of(who), now);
            Flights(more, w.Other(), true) == {} && (who != w ==> Flights(more, w, false) == {})
  {
    hide Honest, Image, NetOk, PacketsOk, BufferOk, B.Overdue;
    OverdueFlights(s, who, now);
  }

  lemma OverdueImages(s: State, who: Who, now: nat)
    requires Inv(s)
    ensures var p := s.Of(who);
            forall d :: d in OverdueSet(p, now) ==> exists i :: 0 <= i < |p.end.buffer| && Image(p.end.buffer)[i].buf == d.flight
  {
    hide Honest, Image, NetOk, PacketsOk, BufferOk, OverdueSet;
    var p := s.Of(who);
    OverdueFlights(s, who, now);
    forall d | d in OverdueSet(p, now)
      ensures exists i :: 0 <= i < |p.end.buffer| && Image(p.end.buffer)[i].buf == d.flight
    {
      var i :| 0 <= i < |p.end.buffer| && p.end.buffer[i].buf == d;
      assert Image(p.end.buffer)[i].buf == d.flight;
    }
  }

  lemma ResendRefines(s: State, e: Connection.Event, w: Who)
    requires Inv(s) && Enabled(s, e) && e.Resend?
    ensures Reaches(Channel(s, w), Channel(Next(s, e), w))
  {
    hide Honest, Image, NetOk, PacketsOk, BufferOk, B.Overdue, Resent, Reaches, Next;
    var x, more := Channel(s, w), OverdueSet(s.Of(e.who), e.now);
    ResentChannel(s, e, w);
    if e.who == w {
      OverdueImages(s, e.who, e.now);
      ResendPath(x, Flights(more, w, false));
    } else {
      assert x.wire + {} == x.wire;
      Stays(x);
    }
  }

  lemma ResentOnly(e: End<Datagram>, now: nat)
    ensures Resent(e, now) == e.(buffer := Resent(e, now).buffer)
  {
  }

  lemma LoseRefines(s: State, e: Connection.Event, w: Who)
    requires Inv(s) && Enabled(s, e) && e.Lose?
    ensures Reaches(Channel(s, w), Channel(Next(s, e), w))
  {
    hide Honest, Image, NetOk, PacketsOk, BufferOk, Reaches;
    var x, y := Channel(s, w), Channel(Next(s, e), w);
    FlightsWithout(s.net, e.d, w, false);
    FlightsWithout(s.net, e.d, w.Other(), true);
    assert y == x.(wire := y.wire, acks := y.acks);
    if x.wire != y.wire {
      Steps(x, D.LoseData(e.d.flight));
      assert D.Next(x, D.LoseData(e.d.flight)) == y;
      assert Reaches(x, y);
    } else if x.acks != y.acks {
      Steps(x, D.LoseAck(e.d.flight));
      assert D.Next(x, D.LoseAck(e.d.flight)) == y;
      assert Reaches(x, y);
    } else {
      Stays(x);
      assert x.wire == y.wire && x.acks == y.acks;
      assert x == y;
      assert Reaches(x, y);
    }
  }

  // ---------------------------------------------------------------- deliveries

  lemma AcksFrom(w: Who, tag: nat, h: Handled<Datagram>, socketOk: bool)
    ensures var more := AckSent(w, tag, h, socketOk);
            && Flights(more, w, true) == (if socketOk && h.ack.Some? then D.AckFor(tag, h.items) else {})
            && Flights(more, w, false) == {} && Flights(more, w.Other(), true) == {} && Flights(more, w.Other(), false) == {}
  {
    var more, fs := AckSent(w, tag, h, socketOk), D.AckFor(tag, h.items);
    hide D.AckFor;
    if socketOk && h.ack.Some? {
      forall f | f in fs
        ensures f in Flights(more, w, true)
      {
        assert Datagram(w, h.ack.value, true, f) in more;
      }
      assert Flights(more, w, true) == fs;
    }
  }

  lemma AckedImage(ps: seq<B.Packet<Datagram>>, n: int)
    ensures Image(B.Kept(ps, n)) == B.Kept(Image(ps), n)
    ensures B.Covered(Image(ps), n) == B.Covered(ps, n)
  {
    B.AckImages(ps, Shadow, n);
  }

  /** The sender's side of a data packet: the channel delivers it. */
  lemma DataDelivered(s: State, e: Connection.Event)
    requires Inv(s) && Enabled(s, e) && e.Deliver?
    requires Heard(s.Of(e.d.from.Other()).end, Received(e.d.bytes)).DataChunk?
    ensures var x := Channel(s, e.d.from);
            var step := D.DeliverData(e.d.flight, e.socketOk && Delivery(s, e).ack.Some?);
            D.Enabled(x, step) && D.Next(x, step) == Channel(Next(s, e), e.d.from)
  {
    hide Honest, Image, NetOk, PacketsOk, BufferOk, Handle, Heard, D.Receive, D.AckFor, AckSent, D.Near, SealedAck,
      Flights, Callbacks;
    var q := s.Of(e.d.from.Other());
    var h := Delivery(s, e);
    HeardHonest(s, e);
    HandleDoes(q.end, Received(e.d.bytes));
    FlightsMore(s.net, AckSent(e.d.from.Other(), q.end.tagRemote, h, e.socketOk), e.d.from);
    AcksFrom(e.d.from.Other(), q.end.tagRemote, h, e.socketOk);
  }

  /** The sender's side of an acknowledgement is the receiver of the channel. */
  lemma AckDelivered(s: State, e: Connection.Event)
    requires Inv(s) && Enabled(s, e) && e.Deliver?
    requires Heard(s.Of(e.d.from.Other()).end, Received(e.d.bytes)).AckChunk?
    ensures var x := Channel(s, e.d.from.Other());
            D.Enabled(x, D.DeliverAck(e.d.flight)) && D.Next(x, D.DeliverAck(e.d.flight)) == Channel(Next(s, e), e.d.from.Other())
  {
    hide Honest, NetOk, PacketsOk, BufferOk, Handle, Heard, D.Receive, D.AckFor, AckSent, D.Near, SealedAck, B.Kept,
      B.Covered, Callbacks, AckEvents, ReadAck, Flights, Image;
    var q := s.Of(e.d.from.Other());
    var h := Delivery(s, e);
    HeardHonest(s, e);
    HandleDoes(q.end, Received(e.d.bytes));
    AckedImage(q.end.buffer, Heard(q.end, Received(e.d.bytes)).seqNum);
    TimelyImage(q.end, e.d);
    NoAck(e.d.from.Other(), q.end.tagRemote, h, e.socketOk);
    assert s.net + {} == s.net;
  }

  lemma TimelyImage(q: End<Datagram>, d: Datagram)
    requires d.isAck && Timely(q, d)
    ensures forall p :: p in Image(q.buffer) ==> D.Near(p.buf.id, d.flight.id)
  {
    hide D.Near;
    forall p | p in Image(q.buffer)
      ensures D.Near(p.buf.id, d.flight.id)
    {
      var i :| 0 <= i < |q.buffer| && Image(q.buffer)[i] == p;
      assert q.buffer[i] in q.buffer;
    }
  }

  /** A delivery changes nothing for the channel it does not belong to: the
      receiver's own messages unless it heard an acknowledgement, */
  lemma ReceiverSame(s: State, e: Connection.Event)
    requires Inv(s) && Enabled(s, e) && e.Deliver?
    requires !Heard(s.Of(e.d.from.Other()).end, Received(e.d.bytes)).AckChunk?
    ensures Channel(Next(s, e), e.d.from.Other()) == Channel(s, e.d.from.Other())
  {
    hide Honest, NetOk, PacketsOk, BufferOk, Handle, Heard, D.Receive, AckSent, SealedAck, Callbacks, Flights, Image,
      Timely;
    var w, q, h := e.d.from.Other(), s.Of(e.d.from.Other()), Delivery(s, e);
    HandleDoes(q.end, Received(e.d.bytes));
    FlightsMore(s.net, AckSent(w, q.end.tagRemote, h, e.socketOk), w);
    AcksFrom(w, q.end.tagRemote, h, e.socketOk);
  }

  /** and the sender's unless the receiver heard a data chunk. */
  lemma SenderSame(s: State, e: Connection.Event)
    requires Inv(s) && Enabled(s, e) && e.Deliver?
    requires !Heard(s.Of(e.d.from.Other()).end, Received(e.d.bytes)).DataChunk?
    ensures Channel(Next(s, e), e.d.from) == Channel(s, e.d.from)
  {
    hide Honest, NetOk, PacketsOk, BufferOk, Handle, Heard, AckSent, B.Kept, B.Covered, AckEvents, Flights, Image,
      Timely;
    var w, q, h := e.d.from.Other(), s.Of(e.d.from.Other()), Delivery(s, e);
    HandleDoes(q.end, Received(e.d.bytes));
    NoAck(w, q.end.tagRemote, h, e.socketOk);
    assert s.net + {} == s.net;
  }

  lemma NoAck(w: Who, tag: nat, h: Handled<Datagram>, socketOk: bool)
    requires h.ack == None
    ensures AckSent(w, tag, h, socketOk) == {}
  {
  }

  lemma DeliverRefines(s: State, e: Connection.Event, w: Who)
    requires Inv(s) && Enabled(s, e) && e.Deliver?
    ensures Reaches(Channel(s, w), Channel(Next(s, e), w))
  {
    hide Channel, Next, Heard, NetOk, PacketsOk, BufferOk, Timely, D.Enabled, D.Next, Reaches;
    var heard := Heard(s.Of(e.d.from.Other()).end, Received(e.d.bytes));
    if heard.DataChunk? && w == e.d.from {
      DataDelivered(s, e);
      Steps(Channel(s, w), D.DeliverData(e.d.flight, e.socketOk && Delivery(s, e).ack.Some?));
    } else if heard.AckChunk? && w == e.d.from.Other() {
      AckDelivered(s, e);
      Steps(Channel(s, w), D.DeliverAck(e.d.flight));
    } else {
      if w == e.d.from {
        SenderSame(s, e);
      } else {
        ReceiverSame(s, e);
      }
      Stays(Channel(s, w));
    }
  }

  /** Every step of the connection is, for either channel, some steps of that
      channel or none. */
  lemma StepRefines(s: State, e: Connection.Event, w: Who)
    requires Inv(s) && Enabled(s, e)
    ensures Reaches(Channel(s, w), Channel(Next(s, e), w))
  {
    hide *;
    match e
    case Keys(_, _, _, _, _) => KeysRefine(s, e, w);
    case TakeNumber(_, _, _) => TakeNumberRefines(s, e, w);
    case Transmit(_, _, _) => TransmitRefines(s, e, w);
    case Keep(_, _, _) => KeepRefines(s, e, w);
    case Resend(_, _) => ResendRefines(s, e, w);
    case Lose(_) => LoseRefines(s, e, w);
    case Deliver(_, _) => DeliverRefines(s, e, w);
  }
}
