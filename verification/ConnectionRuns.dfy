/** Whole runs of a Takion connection: what the callbacks of both ends are told. */
module ConnectionRuns {
  import opened Bytes
  import opened SeqNum
  import opened TakionMessage
  import opened PacketMac
  import opened TakionEnd
  import opened Connection
  import opened ConnectionChannel
  import W = ReorderWindow
  import B = SendBuffer
  import D = DataChannel

  // ---------------------------------------------------------------- what the callbacks have been told

  function DataOf(es: seq<TakionEnd.Event>): (r: seq<DataEvent>)
  {
    if es == [] then [] else
      var n := |es| - 1;
      DataOf(es[..n]) + (match es[n] case Data(e) => [e] case DataAck(_) => [])
  }

  lemma {:induction false} DataJoins(a: seq<TakionEnd.Event>, b: seq<TakionEnd.Event>)
    ensures DataOf(a + b) == DataOf(a) + DataOf(b)
    decreases |b|
  {
    if b == [] {
      assert a + b == a;
    } else {
      var n := |b| - 1;
      DataJoins(a, b[..n]);
      assert (a + b)[..|a + b| - 1] == a + b[..n];
    }
  }

  lemma {:induction false} AcksAreNoData(nums: seq<int>)
    ensures DataOf(AckEvents(nums)) == []
    decreases |nums|
  {
    if nums != [] {
      var n := |nums| - 1;
      AcksAreNoData(nums[..n]);
      assert AckEvents(nums)[..n] == AckEvents(nums[..n]);
    }
  }

  lemma {:induction false} CallbacksJoin(a: seq<W.Item<D.Payload>>, b: seq<W.Item<D.Payload>>)
    ensures Callbacks(a + b) == Callbacks(a) + Callbacks(b)
    decreases |b|
  {
    if b == [] {
      assert a + b == a;
    } else {
      var n := |b| - 1;
      CallbacksJoin(a, b[..n]);
      assert (a + b)[..|a + b| - 1] == a + b[..n];
    }
  }

  /** The callback got the data of what was pulled. */
  ghost predicate Told(p: Party) {
    DataOf(p.end.events) == DataOf(Callbacks(p.pulled))
  }

  /** Every acknowledgement reported to the callback of w is of a message the
      other end has pulled. */
  ghost predicate AcksTold(s: State, w: Who) {
    forall n :: DataAck(n) in s.Of(w).end.events ==> IsPulled(s, w, n)
  }

  ghost predicate IsPulled(s: State, w: Who, n: int) {
    exists i :: 0 <= i < |s.Of(w.Other()).pulled| && n == Num(Bits32, s.Of(w.Other()).pulled[i].0)
  }

  /** What is held or pulled came out of the receive buffer. */
  ghost predicate Fits(p: Party) {
    && (forall k :: k in p.end.window.held ==> |p.end.window.held[k]| <= RECV_SIZE - 17)
    && forall i :: 0 <= i < |p.pulled| ==> |p.pulled[i].1| <= RECV_SIZE - 17
  }

  ghost predicate Good(s: State, w: Who)
    requires s.Wf()
  {
    D.Inv(Channel(s, w)) && Told(s.Of(w)) && AcksTold(s, w) && Fits(s.Of(w))
  }

  lemma {:induction false} PathKeepsInv(states: seq<D.State>, events: seq<D.Event>, n: nat)
    requires Path(states, events) && n < |states| && D.Inv(states[0])
    ensures D.Inv(states[n])
  {
    if n > 0 {
      PathKeepsInv(states, events, n - 1);
      D.StepKeepsInv(states[n - 1], events[n - 1]);
      hide D.Inv;
    }
  }

  lemma ReachedInv(x: D.State, y: D.State)
    requires D.Inv(x) && Reaches(x, y)
    ensures D.Inv(y)
  {
    var states, events :| Path(states, events) && states[0] == x && states[|events|] == y;
    PathKeepsInv(states, events, |events|);
  }

  lemma ToldNext(s: State, e: Connection.Event, w: Who)
    requires Inv(s) && Enabled(s, e) && Told(s.Of(w))
    ensures Told(Next(s, e).Of(w))
  {
    hide Honest, NetOk, PacketsOk, BufferOk, Timely, Handle, Heard, D.Receive, SealedAck, DataOf, Callbacks, AckEvents,
      B.Kept, B.Covered, Seal, Number;
    if e.Deliver? && w == e.d.from.Other() {
      var p, h := s.Of(w), Delivery(s, e);
      HandleDoes(p.end, Received(e.d.bytes));
      match Heard(p.end, Received(e.d.bytes))
      case Ignored => assert p.pulled + [] == p.pulled;
      case DataChunk(_) =>
        DataJoins(p.end.events, Callbacks(h.items));
        CallbacksJoin(p.pulled, h.items);
        DataJoins(Callbacks(p.pulled), Callbacks(h.items));
      case AckChunk(n) =>
        assert p.pulled + [] == p.pulled;
        DataJoins(p.end.events, AckEvents(B.Covered(p.end.buffer, n)));
        AcksAreNoData(B.Covered(p.end.buffer, n));
    } else if e.TakeNumber? && e.who == w {
      NumberDoes(s.Of(w).end, e.flags, e.msg);
    }
  }

  lemma {:induction false} ReceiveFits(w: W.Window<D.Payload>, payload: D.Payload)
    requires w.Wf(D.QUEUE_SIZE) && DATA_HEADER_SIZE <= |payload| <= RECV_SIZE - 17
    requires forall k :: k in w.held ==> |w.held[k]| <= RECV_SIZE - 17
    ensures var d := D.Receive(w, payload);
            && (forall k :: k in d.window.held ==> |d.window.held[k]| <= RECV_SIZE - 17)
            && forall i :: 0 <= i < |d.items| ==> |d.items[i].1| <= RECV_SIZE - 17
  {
    hide W.Push, D.Drain, Filed;
    var pos := Filed(Bits32, w.base, Read32(payload, 0));
    D.PushExact(w, pos, payload);
    var pushed := W.Push(w, D.QUEUE_SIZE, W.DropEnd, pos, payload).window;
    D.DrainExact(pushed);
    var d := D.Drain(pushed);
    forall i | 0 <= i < |d.items|
      ensures |d.items[i].1| <= RECV_SIZE - 17
    {
      assert D.PulledFrom(pushed, d.items[i]);
    }
  }

  lemma FitsNext(s: State, e: Connection.Event, w: Who)
    requires Inv(s) && Enabled(s, e) && Fits(s.Of(w)) && D.Inv(Channel(s, w.Other()))
    ensures Fits(Next(s, e).Of(w))
  {
    hide Honest, NetOk, PacketsOk, BufferOk, Timely, Handle, Heard, D.Receive, SealedAck, Callbacks, AckEvents, B.Kept,
      B.Covered, Seal, Number;
    if e.Deliver? && w == e.d.from.Other() {
      var p, h := s.Of(w), Delivery(s, e);
      HandleDoes(p.end, Received(e.d.bytes));
      HeardFits(p.end, Received(e.d.bytes));
      match Heard(p.end, Received(e.d.bytes))
      case DataChunk(payload) => ReceiveFits(p.end.window, payload);
      case _ =>
    } else if e.TakeNumber? && e.who == w {
      NumberDoes(s.Of(w).end, e.flags, e.msg);
    }
  }

  lemma HeardFits(e: End<Datagram>, packet: seq<byte>)
    requires e.Wf() && 0 < |packet| <= RECV_SIZE
    ensures Heard(e, packet).DataChunk? ==> DATA_HEADER_SIZE <= |Heard(e, packet).payload| <= RECV_SIZE - 17
  {
    hide Read, Checked;
  }

  /** Only messages that have been pulled are acknowledged and reported. */
  lemma CoveredPulled(s: State, e: Connection.Event, ack: nat, n: int)
    requires Inv(s) && Enabled(s, e) && e.Deliver? && e.d.isAck && D.Inv(Channel(s, e.d.from.Other()))
    requires ReadAck(e.d.flight.payload) == Some(ack) && n in B.Covered(s.Of(e.d.from.Other()).end.buffer, ack)
    ensures IsPulled(s, e.d.from.Other(), n)
  {
    hide Honest, NetOk, PacketsOk, BufferOk, ReadAck, B.Covered, D.Inv, Image, Num, D.Near;
    var w := e.d.from.Other();
    var q := s.Of(w).end;
    AckedImage(q.buffer, ack);
    TimelyImage(q, e.d);
    D.AckReportsPulled(Channel(s, w), e.d.flight, ack, n);
  }

  lemma AcksToldNext(s: State, e: Connection.Event, w: Who)
    requires Inv(s) && Enabled(s, e) && AcksTold(s, w) && D.Inv(Channel(s, w))
    ensures AcksTold(Next(s, e), w)
  {
    hide Honest, NetOk, PacketsOk, BufferOk, Timely, Handle, Heard, D.Receive, D.Inv, SealedAck, Callbacks, AckEvents,
      B.Kept, B.Covered, Seal, Number, IsPulled, Channel;
    var t := Next(s, e);
    PulledStays(s, e, w);
    if e.Deliver? && w == e.d.from.Other() {
      var p, h := s.Of(w), Delivery(s, e);
      HandleDoes(p.end, Received(e.d.bytes));
      HeardHonest(s, e);
      NoAcks(h.items);
      match Heard(p.end, Received(e.d.bytes))
      case AckChunk(n) =>
        forall m | DataAck(m) in h.end.events
          ensures IsPulled(t, w, m)
        {
          if DataAck(m) !in p.end.events {
            AckEventsOf(B.Covered(p.end.buffer, n), m);
            CoveredPulled(s, e, n, m);
          }
        }
      case _ =>
    } else if e.TakeNumber? && e.who == w {
      NumberDoes(s.Of(w).end, e.flags, e.msg);
    }
  }

  lemma AckEventsOf(nums: seq<int>, m: int)
    requires DataAck(m) in AckEvents(nums)
    ensures m in nums
  {
  }

  lemma {:induction false} NoAcks(items: seq<W.Item<D.Payload>>)
    ensures forall m :: DataAck(m) !in Callbacks(items)
    decreases |items|
  {
    if items != [] {
      NoAcks(items[..|items| - 1]);
    }
  }

  lemma PulledStays(s: State, e: Connection.Event, w: Who)
    requires Inv(s) && Enabled(s, e)
    ensures forall n :: IsPulled(s, w, n) ==> IsPulled(Next(s, e), w, n)
  {
    hide Honest, NetOk, PacketsOk, BufferOk, Timely, Handle, Number, Num, B.Overdue;
    var a, b := s.Of(w.Other()).pulled, Next(s, e).Of(w.Other()).pulled;
    assert a <= b;
    forall n | IsPulled(s, w, n)
      ensures IsPulled(Next(s, e), w, n)
    {
      var i :| 0 <= i < |a| && n == Num(Bits32, a[i].0);
      assert b[i] == a[i];
    }
  }

  lemma GoodNext(s: State, e: Connection.Event)
    requires Inv(s) && Enabled(s, e) && forall w: Who :: Good(s, w)
    ensures Inv(Next(s, e)) && forall w: Who :: Good(Next(s, e), w)
  {
    hide Next, Inv, Enabled, D.Inv, Channel, Told, AcksTold, Fits, Reaches, State.Wf;
    InvWf(s);
    StepKeepsInv(s, e);
    InvWf(Next(s, e));
    forall w: Who
      ensures Good(Next(s, e), w)
    {
      assert Good(s, w) && Good(s, w.Other());
      StepRefines(s, e, w);
      ReachedInv(Channel(s, w), Channel(Next(s, e), w));
      ToldNext(s, e, w);
      AcksToldNext(s, e, w);
      FitsNext(s, e, w);
    }
  }

  lemma InvWf(s: State)
    requires Inv(s)
    ensures s.Wf()
  {
  }

  // ---------------------------------------------------------------- whole runs

  /** states[0], events[0], states[1], ... is a run of the connection. Wf makes the
      steps well defined; it holds in the first state and every step keeps it
      (StepKeepsInv). */
  ghost predicate IsRun(states: seq<State>, events: seq<Connection.Event>) {
    && |states| == |events| + 1 && IsInit(states[0])
    && forall i :: 0 <= i < |events| ==>
         states[i].Wf() && Enabled(states[i], events[i]) && states[i + 1] == Next(states[i], events[i])
  }

  ghost predicate IsInit(s: State) {
    s.Wf() && s == Init(s.client.end.tagLocal, s.console.end.tagLocal, s.client.end.mac, s.console.end.mac)
  }

  lemma InitGood(s: State, w: Who)
    requires IsInit(s)
    ensures Inv(s) && s.Wf() && Channel(s, w) == D.Init(s.Of(w).end.tagLocal) && Good(s, w)
  {
    hide D.Inv, Inv;
    InitInv(s.client.end.tagLocal, s.console.end.tagLocal, s.client.end.mac, s.console.end.mac);
    D.InitOk(s.Of(w).end.tagLocal);
    assert Image([]) == [];
    assert Channel(s, w) == D.Init(s.Of(w).end.tagLocal);
  }

  lemma {:induction false} RunGood(states: seq<State>, events: seq<Connection.Event>, n: nat)
    requires IsRun(states, events) && n < |states|
    ensures Inv(states[n]) && states[n].Wf() && forall w: Who :: Good(states[n], w)
  {
    hide Inv, Good, IsInit, Enabled, Next, State.Wf;
    if n == 0 {
      InitGood(states[0], Client);
      forall w: Who
        ensures Good(states[0], w)
      {
        InitGood(states[0], w);
      }
    } else {
      RunGood(states, events, n - 1);
      GoodNext(states[n - 1], events[n - 1]);
      InvWf(states[n]);
    }
  }

  /** Seen from either side, every run of the connection is a run of the data
      channel. */
  lemma {:induction false} RunRefines(states: seq<State>, events: seq<Connection.Event>, n: nat, w: Who)
    requires IsRun(states, events) && n < |states|
    ensures Reaches(D.Init(states[0].Of(w).end.tagLocal), Channel(states[n], w))
  {
    hide Inv, Good, IsInit, Enabled, Next, Channel, D.Init, Reaches, State.Wf;
    if n == 0 {
      InitGood(states[0], w);
      Stays(D.Init(states[0].Of(w).end.tagLocal));
    } else {
      RunRefines(states, events, n - 1, w);
      RunGood(states, events, n - 1);
      StepRefines(states[n - 1], events[n - 1], w);
      ReachesFurther(D.Init(states[0].Of(w).end.tagLocal), Channel(states[n - 1], w), Channel(states[n], w));
    }
  }

  /** In every state of every run, the callback of one end has got exactly the
      bodies of the first messages of the other, in order and each once. */
  lemma {:induction false} CallbacksArePrefix(states: seq<State>, events: seq<Connection.Event>, n: nat, w: Who)
    requires IsRun(states, events) && n < |states|
    ensures var log := states[n].Of(w).log;
            var told := DataOf(states[n].Of(w.Other()).end.events);
            |told| <= |log| && forall i :: 0 <= i < |told| ==> told[i] == DataEvent(0, log[i].body)
  {
    hide Good, Callbacks, DataOf, Callback, Inv, Channel, D.Init;
    var s := states[n];
    var tag := states[0].Of(w).end.tagLocal;
    RunGood(states, events, n);
    RunRefines(states, events, n, w);
    assert Good(s, w.Other());
    GoodTold(s, w.Other());
    var xs, es :| Path(xs, es) && xs[0] == D.Init(tag) && xs[|es|] == Channel(s, w);
    D.DeliveredIsPrefix(tag, xs, es, |es|);
    ChannelShows(s, w);
    BodiesTold(s.Of(w).log, s.Of(w.Other()).pulled);
  }

  lemma GoodTold(s: State, w: Who)
    requires s.Wf() && Good(s, w)
    ensures Told(s.Of(w)) && AcksTold(s, w) && Fits(s.Of(w)) && D.Inv(Channel(s, w))
  {
  }

  lemma ChannelShows(s: State, w: Who)
    ensures var x := Channel(s, w);
            && x.tag == s.Of(w).end.tagLocal && x.log == s.Of(w).log && x.stages == s.Of(w).stages
            && x.pulled == s.Of(w.Other()).pulled && x.buffer == Image(s.Of(w).end.buffer)
  {
  }

  lemma {:induction false} BodiesTold(log: seq<D.Message>, items: seq<W.Item<D.Payload>>)
    requires |items| <= |log|
    requires forall i :: 0 <= i < |items| ==> Callback(items[i].1) == Some(DataEvent(0, log[i].body))
    ensures var told := DataOf(Callbacks(items));
            |told| == |items| && forall i :: 0 <= i < |told| ==> told[i] == DataEvent(0, log[i].body)
    decreases |items|
  {
    hide Callback;
    if items != [] {
      var n := |items| - 1;
      BodiesTold(log, items[..n]);
      var last := [Data(Callback(items[n].1).value)];
      DataJoins(Callbacks(items[..n]), last);
      assert DataOf(last) == [DataEvent(0, log[n].body)] by {
        assert last[..0] == [];
      }
    }
  }

  /** A message its sender has buffered is still there, byte for byte as it was
      first sealed, until the peer's callback has got it. */
  lemma {:induction false} BufferedOrTold(states: seq<State>, events: seq<Connection.Event>, n: nat, w: Who, id: nat)
    requires IsRun(states, events) && n < |states|
    requires var p := states[n].Of(w); id < |p.stages| && p.stages[id] == D.Buffered
    ensures var p := states[n].Of(w);
            && id < |p.packets|
            && (id < |DataOf(states[n].Of(w.Other()).end.events)| || exists x :: x in p.end.buffer && x.buf == p.packets[id])
  {
    hide Good, Callbacks, DataOf, Callback, Channel, D.Init, D.PayloadOf, D.Inv, Path, IsInit, Enabled, Next, Honest,
      NetOk;
    var s := states[n];
    var p := s.Of(w);
    RunGood(states, events, n);
    assert PacketsOk(w, p) && BufferOk(p);
    assert Good(s, w) && Good(s, w.Other());
    GoodTold(s, w);
    GoodTold(s, w.Other());
    ChannelShows(s, w);
    AllTold(s, w);
    if id >= |s.Of(w.Other()).pulled| {
      StillBuffered(Channel(s, w), id);
      var y :| y in Channel(s, w).buffer && y.buf.id == id;
      var i :| 0 <= i < |p.end.buffer| && Image(p.end.buffer)[i] == y;
      assert p.end.buffer[i] in p.end.buffer;
    }
  }

  lemma StillBuffered(x: D.State, id: nat)
    requires D.Inv(x) && id < |x.stages| && x.stages[id] == D.Buffered && id >= |x.pulled|
    ensures exists y :: y in x.buffer && y.buf.id == id
  {
    hide D.BufferOk, D.WireOk, D.AcksOk, D.WindowOk, D.PulledOk;
  }

  /** Every pulled item reaches the callback. */
  lemma AllTold(s: State, w: Who)
    requires s.Wf() && D.Inv(Channel(s, w)) && Told(s.Of(w.Other()))
    ensures |DataOf(s.Of(w.Other()).end.events)| == |s.Of(w.Other()).pulled|
  {
    hide Callback, Callbacks, DataOf, D.BufferOk, D.WireOk, D.AcksOk, D.WindowOk, D.NothingLost;
    var x := Channel(s, w);
    forall i | 0 <= i < |x.pulled|
      ensures Callback(x.pulled[i].1) == Some(DataEvent(0, x.log[i].body))
    {
      DataRoundTrip(Num(Bits32, x.tag + i), x.log[i].channel, x.log[i].body);
    }
    BodiesTold(x.log, x.pulled);
  }

  /** A number reported as acknowledged is that of a message the peer's callback
      has got. */
  lemma {:induction false} AcknowledgedWasTold(states: seq<State>, events: seq<Connection.Event>, n: nat, w: Who, num: int)
    requires IsRun(states, events) && n < |states| && DataAck(num) in states[n].Of(w).end.events
    ensures exists id :: 0 <= id < |DataOf(states[n].Of(w.Other()).end.events)| && num == NumberOf(states[n].Of(w), id)
  {
    hide Good, DataOf, Inv, D.Init, D.Inv, Path, IsInit, Enabled, Next, Channel, Num;
    var s := states[n];
    RunGood(states, events, n);
    assert Good(s, w) && Good(s, w.Other());
    GoodTold(s, w);
    GoodTold(s, w.Other());
    AllTold(s, w);
    var i :| 0 <= i < |s.Of(w.Other()).pulled| && num == Num(Bits32, s.Of(w.Other()).pulled[i].0);
    PulledPlace(s, w, i);
    assert num == NumberOf(s.Of(w), i);
  }

  lemma PulledPlace(s: State, w: Who, i: nat)
    requires D.Inv(Channel(s, w)) && i < |s.Of(w.Other()).pulled|
    ensures s.Of(w.Other()).pulled[i].0 == s.Of(w).end.tagLocal + i
    ensures i < |s.Of(w).log| && s.Of(w.Other()).pulled[i].1 == D.PayloadOf(s.Of(w).end.tagLocal, s.Of(w).log, i)
  {
    assert Channel(s, w).pulled[i].0 == Channel(s, w).tag + i;
  }

  /** A message whose packet does not fit the receive buffer blocks the channel:
      neither it nor anything behind it ever reaches the callback. */
  lemma {:induction false} OversizeBlocks(states: seq<State>, events: seq<Connection.Event>, n: nat, w: Who, id: nat)
    requires IsRun(states, events) && n < |states|
    requires var log := states[n].Of(w).log; id < |log| && 26 + |log[id].body| > 1500
    ensures |DataOf(states[n].Of(w.Other()).end.events)| <= id
  {
    hide Good, DataOf, Inv, D.Init, D.Inv, Path, IsInit, Enabled, Next, Channel, Num;
    var s := states[n];
    RunGood(states, events, n);
    assert Good(s, w) && Good(s, w.Other());
    GoodTold(s, w);
    GoodTold(s, w.Other());
    AllTold(s, w);
    if id < |s.Of(w.Other()).pulled| {
      PulledPlace(s, w, id);
    }
  }
}
