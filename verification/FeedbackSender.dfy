/** The feedback sender: each change of the controller is recorded event by event,
    and every event sends the history again. */
module FeedbackSender {
  import opened Arith
  import opened Bytes
  import S = SeqNum
  import opened H = FeedbackHistory
  import opened Feedback

  function EncodeAll(es: seq<Event>): (bs: seq<seq<byte>>)
    requires AllEncodable(es)
    ensures |bs| == |es| && forall i :: 0 <= i < |es| ==> bs[i] == Encode(es[i])
  {
    seq(|es|, i requires 0 <= i < |es| => Encode(es[i]))
  }

  lemma {:induction false} FormatNext(es: seq<Event>, e: Event)
    requires AllEncodable(es) && Encodable(e)
    ensures H.Format(es + [e]) == H.Format(es) + Encode(e)
    decreases |es|
  {
    if es == [] {
      assert H.Format([e]) == Encode(e) + H.Format([e][1..]);
    } else {
      assert (es + [e])[1..] == es[1..] + [e];
      FormatNext(es[1..], e);
    }
  }

  /** Formatting the ring's events is formatting the events they encode. */
  lemma {:induction false} ConcatIsFormat(es: seq<Event>)
    requires AllEncodable(es)
    ensures Concat(EncodeAll(es)) == H.Format(es)
    decreases |es|
  {
    if es != [] {
      var n := |es| - 1;
      assert es == es[..n] + [es[n]];
      assert EncodeAll(es)[..n] == EncodeAll(es[..n]);
      ConcatIsFormat(es[..n]);
      FormatNext(es[..n], es[n]);
    }
  }

  /** Pushing an event to the ring. */
  lemma {:induction false} RingNext(log: seq<Event>, e: Event)
    requires AllEncodable(log) && Encodable(e)
    ensures AllEncodable(log + [e])
    ensures EncodeAll(Newest(log + [e]))
            == [Encode(e)] + EncodeAll(Newest(log))[..if |log| < HISTORY_SIZE then |log| else HISTORY_SIZE - 1]
  {
    hide Encode, Encodable;
    NewestNext(log, e);
  }

  const IDLE := Controller(seq(32, _ => false), 0, 0, [Point(0, 0, -1), Point(0, 0, -1)])

  /** Packets sent for the events from position n on. */
  ghost predicate PacketsFrom(packets: seq<Packet>, log: seq<Event>, n: nat) {
    AllEncodable(log) && n + |packets| == |log| && forall i :: 0 <= i < |packets| ==> packets[i] == PacketAt(log, n + i)
  }

  lemma {:induction false} PacketsGrow(packets: seq<Packet>, log: seq<Event>, n: nat, more: seq<Packet>,
      longer: seq<Event>)
    requires AllEncodable(longer) && log <= longer
    requires PacketsFrom(packets, log, n) && PacketsFrom(more, longer, |log|)
    ensures PacketsFrom(packets + more, longer, n)
  {
    hide Encodable, H.Format, Newest, S.Num;
    forall i | 0 <= i < |packets + more|
      ensures (packets + more)[i] == PacketAt(longer, n + i)
    {
      if i < |packets| {
        assert longer[..n + i + 1] == log[..n + i + 1];
      } else {
        assert more[i - |packets|] == PacketAt(longer, |log| + (i - |packets|));
      }
    }
  }

  lemma NextNumber(n: nat)
    requires n > 0
    ensures S.Add(S.Bits16, S.Num(S.Bits16, n - 1), 1) == S.Num(S.Bits16, n)
  {
    hide S.Add, S.Num;
    S.AddWire(S.Bits16, n - 1, 1);
  }

  class FeedbackSender {
    const historyBuf: HistoryBuffer
    var historySeqNum: nat
    var controllerState: Controller
    var controllerStatePrev: Controller
    var controllerStateChanged: bool
    /** Every event recorded so far, and the states the thread has seen. */
    ghost var log: seq<Event>
    ghost var states: seq<Controller>

    /** The ring holds the newest events, and the next packet's number is the
        number of events before it. */
    ghost predicate Recorded()
      reads this`historySeqNum, this`log, historyBuf, historyBuf.events
    {
      && historyBuf.Valid() && historyBuf.events.Length == HISTORY_SIZE
      && AllEncodable(log) && historySeqNum == S.Num(S.Bits16, |log|)
      && historyBuf.Contents() == EncodeAll(Newest(log))
    }

    ghost predicate Valid()
      reads this, historyBuf, historyBuf.events
    {
      && Recorded() && controllerState.Wf()
      && |states| > 0 && (forall i :: 0 <= i < |states| ==> states[i].Wf())
      && states[0] == IDLE && states[|states| - 1] == controllerStatePrev
      && log == History(states)
      && (!controllerStateChanged ==> controllerState == controllerStatePrev)
    }

    /** chiaki_feedback_sender_init. */
    constructor ()
      ensures Valid() && log == [] && states == [IDLE] && fresh(historyBuf) && fresh(historyBuf.events)
    {
      historyBuf := new HistoryBuffer(HISTORY_SIZE);
      historySeqNum := 0;
      controllerState, controllerStatePrev := IDLE, IDLE;
      controllerStateChanged := false;
      log, states := [], [IDLE];
    }

    /** chiaki_feedback_sender_set_controller_state; sameElsewhere is the outcome
        of comparing sticks and motion. */
    method SetControllerState(state: Controller, sameElsewhere: bool)
      requires Valid() && state.Wf()
      modifies this`controllerState, this`controllerStateChanged
      ensures Valid()
      ensures if sameElsewhere && EqualForHistory(old(controllerState), state)
              then controllerState == old(controllerState) && controllerStateChanged == old(controllerStateChanged)
              else controllerState == state && controllerStateChanged
    {
      if sameElsewhere && EqualForHistory(controllerState, state) {
        return;
      }
      controllerState := state;
      controllerStateChanged := true;
    }

    /** feedback_sender_send_history_packet, after an event was pushed. */
    method SendHistoryPacket() returns (packet: Packet)
      requires historyBuf.Valid() && AllEncodable(log) && |log| > 0
      requires historyBuf.Contents() == EncodeAll(Newest(log)) && historySeqNum == S.Num(S.Bits16, |log| - 1)
      modifies this`historySeqNum
      ensures packet == PacketAt(log, |log| - 1) && historySeqNum == S.Num(S.Bits16, |log|)
    {
      hide S.Num, S.Add, Encodable, H.Format, Newest, Concat;
      ConcatIsFormat(Newest(log));
      PacketFits(log);
      NextNumber(|log|);
      var buf := new byte[PACKET_BUF_SIZE];
      var r, size := historyBuf.Format(buf);
      assert r == Success;
      assert log[..|log|] == log;
      packet := Packet(historySeqNum, buf[..size]);
      historySeqNum := S.Add(S.Bits16, historySeqNum, 1);
    }

    /** An event is pushed and the history sent. */
    method Record(event: HistoryEvent, ghost e: Event) returns (packet: Packet)
      requires Recorded() && event.Valid() && Encodable(e) && event.Contents() == Encode(e)
      modifies this`historySeqNum, this`log, historyBuf, historyBuf.events
      ensures Recorded() && log == old(log) + [e] && packet == PacketAt(log, |log| - 1)
    {
      hide Encode, Encodable, EncodeAll, Newest, PacketAt, S.Num;
      RingNext(log, e);
      historyBuf.Push(event.Contents());
      log := log + [e];
      packet := SendHistoryPacket();
    }

    /** One button or trigger event. */
    method RecordButton(event: HistoryEvent, bit: nat, level: byte) returns (packets: seq<Packet>)
      requires Recorded() && event.Valid() && bit <= ANALOG_R2
      requires PressCode(bit).Some? ==> level == 0 || level == 0xff
      modifies this`historySeqNum, this`log, historyBuf, historyBuf.events, event, event.buf
      ensures Recorded() && event.Valid()
      ensures log == old(log) + [Button(bit, level)] && PacketsFrom(packets, log, |old(log)|)
    {
      hide FeedbackSender.Recorded, EncodeButton, Encode, Encodable, PacketAt, BitOf;
      EncodesButton(bit, level);
      ButtonBit(bit);
      var r := event.SetButton(Pow2(bit), level);
      var packet := Record(event, Button(bit, level));
      packets := [packet];
      RecordedEncodable();
    }

    lemma RecordedEncodable()
      requires Recorded()
      ensures AllEncodable(log)
    {
    }

    /** The first loop of feedback_sender_send_history. */
    method SendButtons(event: HistoryEvent) returns (packets: seq<Packet>)
      requires Recorded() && event.Valid() && controllerState.Wf() && controllerStatePrev.Wf()
      modifies this`historySeqNum, this`log, historyBuf, historyBuf.events, event, event.buf
      ensures Recorded() && event.Valid()
      ensures log == old(log) + DiffButtons(controllerStatePrev, controllerState, BUTTONS_COUNT)
      ensures PacketsFrom(packets, log, |old(log)|)
    {
      hide FeedbackSender.Recorded, PacketsFrom, Encodable, PressCode;
      packets := [];
      RecordedEncodable();
      PacketsNone(log);
      ghost var base := log;
      assert base + [] == base;
      for i := 0 to BUTTONS_COUNT
        invariant Recorded() && event.Valid()
        invariant log == base + DiffButtons(controllerStatePrev, controllerState, i)
        invariant PacketsFrom(packets, log, |base|)
      {
        var prev := controllerStatePrev.buttons[i];
        var now := controllerState.buttons[i];
        if prev != now {
          ghost var before := log;
          var more := RecordButton(event, i, if now then 0xff else 0);
          RecordedEncodable();
          PacketsGrow(packets, before, |base|, more, log);
          packets := packets + more;
        }
        assert log == base + DiffButtons(controllerStatePrev, controllerState, i + 1);
      }
    }

    /** One trigger of feedback_sender_send_history. */
    method SendTrigger(event: HistoryEvent, bit: nat, prev: byte, now: byte) returns (packets: seq<Packet>)
      requires Recorded() && event.Valid() && (bit == ANALOG_L2 || bit == ANALOG_R2)
      modifies this`historySeqNum, this`log, historyBuf, historyBuf.events, event, event.buf
      ensures Recorded() && event.Valid()
      ensures log == old(log) + DiffTrigger(bit, prev, now) && PacketsFrom(packets, log, |old(log)|)
    {
      hide FeedbackSender.Recorded, PacketsFrom, Encodable;
      RecordedEncodable();
      PacketsNone(log);
      packets := [];
      if prev != now {
        packets := RecordButton(event, bit, now);
      }
    }

    /** One turn of the touch loop of feedback_sender_send_history. */
    method SendTouch(event: HistoryEvent, prev: Point, now: Point) returns (packets: seq<Packet>)
      requires Recorded() && event.Valid() && IsPoint(prev) && IsPoint(now)
      modifies this`historySeqNum, this`log, historyBuf, historyBuf.events, event, event.buf
      ensures Recorded() && event.Valid()
      ensures log == old(log) + DiffTouch(prev, now) && PacketsFrom(packets, log, |old(log)|)
    {
      hide FeedbackSender.Recorded, PacketAt, Encode;
      RecordedEncodable();
      packets := [];
      if prev.id != now.id && prev.id >= 0 {
        event.SetTouchpad(false, prev.id, prev.x, prev.y);
        var packet := Record(event, Touch(false, prev.id, prev.x, prev.y));
        packets := [packet];
        RecordedEncodable();
      } else if now.id >= 0 && (prev.id != now.id || prev.x != now.x || prev.y != now.y) {
        event.SetTouchpad(true, now.id, now.x, now.y);
        var packet := Record(event, Touch(true, now.id, now.x, now.y));
        packets := [packet];
        RecordedEncodable();
      }
    }

    /** feedback_sender_send_history. */
    method SendHistory() returns (packets: seq<Packet>)
      requires Recorded() && controllerState.Wf() && controllerStatePrev.Wf()
      modifies this`historySeqNum, this`log, historyBuf, historyBuf.events
      ensures Recorded() && log == old(log) + Diff(controllerStatePrev, controllerState)
      ensures PacketsFrom(packets, log, |old(log)|)
    {
      hide FeedbackSender.Recorded, PacketsFrom, Encodable, DiffButtons, DiffTrigger, DiffTouch;
      var event := new HistoryEvent();
      ghost var log0 := log;
      packets := SendButtons(event);
      ghost var log1 := log;
      var more := SendTrigger(event, ANALOG_L2, controllerStatePrev.l2, controllerState.l2);
      packets := Append(packets, log0, log1, more);
      ghost var log2 := log;
      more := SendTrigger(event, ANALOG_R2, controllerStatePrev.r2, controllerState.r2);
      packets := Append(packets, log0, log2, more);
      ghost var log3 := log;
      more := SendTouch(event, controllerStatePrev.touches[0], controllerState.touches[0]);
      packets := Append(packets, log0, log3, more);
      ghost var log4 := log;
      more := SendTouch(event, controllerStatePrev.touches[1], controllerState.touches[1]);
      packets := Append(packets, log0, log4, more);
      DiffParts(log0, controllerStatePrev, controllerState);
    }

    method Append(packets: seq<Packet>, ghost log0: seq<Event>, ghost log1: seq<Event>,
        more: seq<Packet>) returns (all: seq<Packet>)
      requires Recorded() && PacketsFrom(packets, log1, |log0|) && PacketsFrom(more, log, |log1|) && log1 <= log
      ensures PacketsFrom(all, log, |log0|)
    {
      PacketsGrow(packets, log1, |log0|, more, log);
      all := packets + more;
    }

    /** One wake-up of feedback_sender_thread_func. */
    method WakeUp() returns (packets: seq<Packet>)
      requires Valid()
      modifies this, historyBuf, historyBuf.events
      ensures Valid() && states == old(states) + [old(controllerState)] && log == History(states)
      ensures PacketsFrom(packets, log, |old(log)|)
    {
      hide Diff, PacketsFrom, History, Controller.Wf, Encodable, EqualForHistory, FeedbackSender.Recorded;
      RecordedEncodable();
      PacketsNone(log);
      NothingNew(controllerStatePrev, controllerState);
      HistoryNext(states, controllerState);
      packets := [];
      var sendFeedbackHistory := false;
      if controllerStateChanged {
        controllerStateChanged := false;
        sendFeedbackHistory := !EqualForHistory(controllerState, controllerStatePrev);
      }
      if sendFeedbackHistory {
        packets := SendHistory();
      }
      controllerStatePrev := controllerState;
      states := states + [controllerState];
      assert old(log) + [] == old(log);
    }
  }

  lemma DiffParts(log: seq<Event>, prev: Controller, now: Controller)
    requires prev.Wf() && now.Wf()
    ensures log + Diff(prev, now) == log + DiffButtons(prev, now, BUTTONS_COUNT)
            + DiffTrigger(ANALOG_L2, prev.l2, now.l2) + DiffTrigger(ANALOG_R2, prev.r2, now.r2)
            + DiffTouch(prev.touches[0], now.touches[0]) + DiffTouch(prev.touches[1], now.touches[1])
  {
  }

  lemma NothingNew(prev: Controller, now: Controller)
    requires prev.Wf() && now.Wf()
    ensures EqualForHistory(now, prev) || now == prev ==> Diff(prev, now) == []
  {
    NothingToSendExactly(prev, now);
  }

  lemma HistoryNext(states: seq<Controller>, c: Controller)
    requires |states| > 0 && (forall i :: 0 <= i < |states| ==> states[i].Wf()) && c.Wf()
    ensures History(states + [c]) == History(states) + Diff(states[|states| - 1], c)
  {
    assert (states + [c])[..|states|] == states;
  }

  lemma PacketsNone(log: seq<Event>)
    requires AllEncodable(log)
    ensures PacketsFrom([], log, |log|)
  {
  }

  lemma ButtonBit(bit: nat)
    requires bit <= ANALOG_R2
    ensures BitOf(Pow2(bit)) == Some(bit)
  {
    hide Pow2;
    ButtonPowers();
  }

  lemma ButtonPowers()
    ensures Pow2(0) == 0x1 && Pow2(1) == 0x2 && Pow2(2) == 0x4 && Pow2(3) == 0x8
    ensures Pow2(4) == 0x10 && Pow2(5) == 0x20 && Pow2(6) == 0x40 && Pow2(7) == 0x80
    ensures Pow2(8) == 0x100 && Pow2(9) == 0x200 && Pow2(10) == 0x400 && Pow2(11) == 0x800
    ensures Pow2(12) == 0x1000 && Pow2(13) == 0x2000 && Pow2(14) == 0x4000 && Pow2(15) == 0x8000
    ensures Pow2(16) == 0x1_0000 && Pow2(17) == 0x2_0000
  {
  }

  lemma EncodesButton(bit: nat, level: byte)
    requires bit <= ANALOG_R2 && (PressCode(bit).Some? ==> level == 0 || level == 0xff)
    ensures Encodable(Button(bit, level)) && EncodeButton(bit, level) == Some(Encode(Button(bit, level)))
  {
  }
}
