/** Controller events as the console receives them: their encoding, the packets
    that repeat the newest of them, and what they say about the controller. */
module FeedbackHistory {
  import opened Arith
  import opened Bytes
  import S = SeqNum

  const EVENT_SIZE_MAX: nat := 5
  const HISTORY_SIZE: nat := 0x10
  const PACKET_BUF_SIZE: nat := 0x300

  const ANALOG_L2: nat := 16
  const ANALOG_R2: nat := 17

  /** A button, named by the number of its bit, or a touch. */
  datatype Event = Button(bit: nat, level: byte) | Touch(down: bool, id: nat, x: nat, y: nat)

  /** Buttons whose event has a byte for the level. */
  function LevelCode(bit: nat): (c: Option<byte>) {
    match bit
    case 0 => Some(0x88) case 1 => Some(0x89) case 2 => Some(0x8a) case 3 => Some(0x8b)
    case 4 => Some(0x82) case 5 => Some(0x83) case 6 => Some(0x80) case 7 => Some(0x81)
    case 8 => Some(0x84) case 9 => Some(0x85) case 16 => Some(0x86) case 17 => Some(0x87)
    case _ => None
  }

  /** Buttons whose event only says pressed or not: the code when pressed, which
      is 0x20 more than the code when released. */
  function PressCode(bit: nat): (c: Option<byte>) {
    match bit
    case 10 => Some(0xaf) case 11 => Some(0xb0) case 12 => Some(0xac)
    case 13 => Some(0xad) case 14 => Some(0xb1) case 15 => Some(0xae)
    case _ => None
  }

  predicate Encodable(e: Event) {
    match e
    case Button(bit, level) => bit <= ANALOG_R2 && (PressCode(bit).Some? ==> level == 0 || level == 0xff)
    case Touch(_, id, x, y) => id < 0x80 && x < 0x1_0000 && y < 0x1_0000
  }

  /** The event format has twelve bits for each coordinate. */
  predicate Readable(e: Event) {
    Encodable(e) && (e.Touch? ==> e.x < 0x1000 && e.y < 0x1000)
  }

  /** Bitwise or, lowest bit first. */
  function OrBits(n: nat, a: nat, b: nat): (r: nat)
    ensures r < Pow2(n)
  {
    if n == 0 then 0 else (if a % 2 == 1 || b % 2 == 1 then 1 else 0) + 2 * OrBits(n - 1, a / 2, b / 2)
  }

  lemma {:induction false} OrNothing(n: nat, a: nat)
    requires a < Pow2(n)
    ensures OrBits(n, a, 0) == a
  {
    if n > 0 {
      OrNothing(n - 1, a / 2);
    }
  }

  lemma {:induction false} OrBitsAt(n: nat, a: nat, b: nat, i: nat)
    requires i < n
    ensures Bit(OrBits(n, a, b), i) == 1 <==> Bit(a, i) == 1 || Bit(b, i) == 1
  {
    if i > 0 {
      OrBitsAt(n - 1, a / 2, b / 2, i - 1);
    }
  }

  /** chiaki_feedback_history_event_set_button: None where it reports an error. */
  function EncodeButton(bit: nat, level: byte): Option<seq<byte>> {
    match LevelCode(bit)
    case Some(c) => Some([0x80, c, level])
    case None =>
      match PressCode(bit)
      case Some(c) => Some([0x80, if level != 0 then c else c - 0x20])
      case None => None
  }

  /** chiaki_feedback_history_event_set_touchpad. */
  function EncodeTouch(down: bool, id: nat, x: nat, y: nat): (s: seq<byte>)
    requires x < 0x1_0000 && y < 0x1_0000
    ensures |s| == 5
  {
    assert Pow2(4) == 16;
    [if down then 0xd0 else 0xc0, id % 0x80, x / 0x10 % 0x100,
     OrBits(4, x % 0x10, y / 0x1000) * 0x10 + y / 0x100 % 0x10, y % 0x100]
  }

  /** Whatever the arguments: the third byte has the upper bits of x, the last the
      lower ones of y. Of the one in between, the lower half is the next four bits
      of y; the upper half is the lowest four bits of x, each of them set if the
      bit of y twelve places up is. */
  lemma {:induction false} TouchLayout(down: bool, id: nat, x: nat, y: nat, i: nat)
    requires x < 0x1_0000 && y < 0x1_0000 && i < 4
    ensures var s := EncodeTouch(down, id, x, y);
            && s[0] == (if down then 0xd0 else 0xc0) && s[1] == id % 128 && s[2] == x / 16 % 256 && s[4] == y % 256
            && s[3] % 16 == y / 256 % 16
            && (Bit(s[3] / 16, i) == 1 <==> Bit(x % 16, i) == 1 || Bit(y / 4096, i) == 1)
  {
    OrBitsAt(4, x % 0x10, y / 0x1000, i);
    OrNibble(x % 0x10, y / 0x1000);
    hide OrBits;
    assert EncodeTouch(down, id, x, y)[3] as int / 16 == OrBits(4, x % 0x10, y / 0x1000);
  }

  lemma OrNibble(a: nat, b: nat)
    ensures OrBits(4, a, b) < 16
  {
    assert Pow2(4) == 16;
  }

  function Encode(e: Event): (s: seq<byte>)
    requires Encodable(e)
    ensures 2 <= |s| <= EVENT_SIZE_MAX
  {
    match e
    case Button(bit, level) => EncodeButton(bit, level).value
    case Touch(down, id, x, y) => EncodeTouch(down, id, x, y)
  }

  /** Reads the first event of a packet and says how long it is. */
  function DecodeOne(s: seq<byte>): Option<(Event, nat)> {
    if |s| < 2 then None
    else if s[0] == 0x80 then
      match ButtonOf(s[1])
      case Some((bit, Some(level))) => Some((Button(bit, level), 2))
      case Some((bit, None)) => if |s| < 3 then None else Some((Button(bit, s[2]), 3))
      case None => None
    else if (s[0] == 0xd0 || s[0] == 0xc0) && |s| >= 5 then
      Some((Touch(s[0] == 0xd0, s[1], s[2] as int * 0x10 + s[3] as int / 0x10, s[3] as int % 0x10 * 0x100 + s[4] as int), 5))
    else None
  }

  /** The button a code stands for, and its level if the code says it. */
  function ButtonOf(code: byte): Option<(nat, Option<byte>)> {
    match code
    case 0x88 => Some((0, None)) case 0x89 => Some((1, None)) case 0x8a => Some((2, None)) case 0x8b => Some((3, None))
    case 0x82 => Some((4, None)) case 0x83 => Some((5, None)) case 0x80 => Some((6, None)) case 0x81 => Some((7, None))
    case 0x84 => Some((8, None)) case 0x85 => Some((9, None)) case 0x86 => Some((16, None)) case 0x87 => Some((17, None))
    case 0xaf => Some((10, Some(0xff))) case 0xb0 => Some((11, Some(0xff))) case 0xac => Some((12, Some(0xff)))
    case 0xad => Some((13, Some(0xff))) case 0xb1 => Some((14, Some(0xff))) case 0xae => Some((15, Some(0xff)))
    case 0x8f => Some((10, Some(0))) case 0x90 => Some((11, Some(0))) case 0x8c => Some((12, Some(0)))
    case 0x8d => Some((13, Some(0))) case 0x91 => Some((14, Some(0))) case 0x8e => Some((15, Some(0)))
    case _ => None
  }

  /** Whatever follows it, an event is read back as it was written, exactly if
      its coordinates fit the format. */
  lemma {:induction false} DecodeEncode(e: Event, rest: seq<byte>)
    requires Encodable(e)
    ensures DecodeOne(Encode(e) + rest) == Some((e, |Encode(e)|)) <==> Readable(e)
  {
    var s := Encode(e) + rest;
    match e
    case Button(bit, level) =>
      ButtonCodes(bit, level);
      assert s[0] == 0x80 && s[1] == Encode(e)[1];
    case Touch(down, id, x, y) =>
      if Readable(e) {
        TouchBytes(id, x, y);
      }
  }

  lemma ButtonCodes(bit: nat, level: byte)
    requires Encodable(Button(bit, level))
    ensures ButtonOf(Encode(Button(bit, level))[1]) ==
            Some((bit, if LevelCode(bit).Some? then None else Some(level)))
  {
  }

  lemma TouchBytes(id: nat, x: nat, y: nat)
    requires id < 0x80 && x < 0x1000 && y < 0x1000
    ensures var s := EncodeTouch(true, id, x, y);
            && s[1] == id && s[2] as int * 0x10 + s[3] as int / 0x10 == x
            && s[3] as int % 0x10 * 0x100 + s[4] as int == y
  {
    assert Pow2(4) == 16;
    OrNothing(4, x % 0x10);
  }

  // ---------------------------------------------------------------- packets

  function Format(es: seq<Event>): (s: seq<byte>)
    requires forall e :: e in es ==> Encodable(e)
    ensures |s| <= EVENT_SIZE_MAX * |es|
  {
    if es == [] then [] else Encode(es[0]) + Format(es[1..])
  }

  function DecodeAll(s: seq<byte>): Option<seq<Event>>
    decreases |s|
  {
    if s == [] then Some([]) else
      match DecodeOne(s)
      case Some((e, n)) => if n == 0 || n > |s| then None else
        (match DecodeAll(s[n..]) case Some(es) => Some([e] + es) case None => None)
      case None => None
  }

  /** A packet is read back as the events it was formatted from. */
  lemma {:induction false} PacketRoundTrip(es: seq<Event>)
    requires AllEncodable(es) && AllReadable(es)
    ensures DecodeAll(Format(es)) == Some(es)
    decreases |es|
  {
    hide DecodeOne, Encode, Encodable, Readable;
    if es != [] {
      var s := Format(es);
      DecodeEncode(es[0], Format(es[1..]));
      PacketRoundTrip(es[1..]);
      var n := |Encode(es[0])|;
      assert s == Encode(es[0]) + Format(es[1..]) && s[n..] == Format(es[1..]);
      assert DecodeAll(s) == Some([es[0]] + es[1..]);
      assert [es[0]] + es[1..] == es;
    }
  }

  predicate AllEncodable(es: seq<Event>) {
    forall e :: e in es ==> Encodable(e)
  }

  predicate AllReadable(es: seq<Event>) {
    forall e :: e in es ==> Readable(e)
  }

  /** The newest events of a log, newest first. */
  function Newest(log: seq<Event>): (es: seq<Event>)
    ensures |es| == if |log| < HISTORY_SIZE then |log| else HISTORY_SIZE
    ensures forall i :: 0 <= i < |es| ==> es[i] == log[|log| - 1 - i]
    ensures AllEncodable(log) ==> AllEncodable(es)
  {
    var n := if |log| < HISTORY_SIZE then |log| else HISTORY_SIZE;
    seq(n, i requires 0 <= i < n => log[|log| - 1 - i])
  }

  /** Recording an event. */
  lemma {:induction false} NewestNext(log: seq<Event>, e: Event)
    ensures Newest(log + [e]) == [e] + Newest(log)[..if |log| < 16 then |log| else 15]
  {
  }

  datatype Packet = Packet(seqNum: nat, payload: seq<byte>)

  /** The packet sent after event n was recorded. */
  function PacketAt(log: seq<Event>, n: nat): Packet
    requires n < |log| && AllEncodable(log)
  {
    Packet(S.Num(S.Bits16, n), Format(Newest(log[..n + 1])))
  }

  /** A packet always fits its buffer. */
  lemma {:induction false} PacketFits(log: seq<Event>)
    requires AllEncodable(log)
    ensures |Format(Newest(log))| <= 80 < PACKET_BUF_SIZE == 0x300
  {
  }

  // ---------------------------------------------------------------- the console

  function Reverse(es: seq<Event>): (r: seq<Event>)
    ensures |r| == |es| && forall i :: 0 <= i < |es| ==> r[i] == es[|es| - 1 - i]
  {
    seq(|es|, i requires 0 <= i < |es| => es[|es| - 1 - i])
  }

  /** A console that knows the log so far brings itself up to date with a packet:
      its number says how many of its events are new. */
  function CatchUp(known: seq<Event>, p: Packet): Option<seq<Event>>
    requires p.seqNum < 0x1_0000
  {
    var missing := S.Unwrap(S.Bits16, |known|, p.seqNum) + 1 - |known|;
    if missing <= 0 then Some(known)
    else match DecodeAll(p.payload)
      case Some(es) => if missing > |es| then None else Some(known + Reverse(es[..missing]))
      case None => None
  }

  /** A packet less than half the number space away brings a console up to date
      exactly if fewer than sixteen events happened before it that the console
      does not know. */
  lemma {:induction false} CatchesUpExactly(log: seq<Event>, m: nat, n: nat)
    requires AllEncodable(log) && AllReadable(log) && m <= |log| && n < |log| && m - 0x8000 <= n < m + 0x8000
    ensures CatchUp(log[..m], PacketAt(log, n)) ==
            if n < m then Some(log[..m]) else if n - m < 16 then Some(log[..n + 1]) else None
  {
    hide Format, DecodeAll, S.Unwrap, S.Num, Encodable, Readable;
    UnwrapNear(m, n);
    PacketRoundTrip(Newest(log[..n + 1]));
    if m <= n && n - m < HISTORY_SIZE {
      var es := Newest(log[..n + 1]);
      assert log[..m] + Reverse(es[..n + 1 - m]) == log[..n + 1];
    }
  }

  lemma UnwrapNear(m: nat, n: nat)
    requires m - 0x8000 <= n < m + 0x8000
    ensures S.Unwrap(S.Bits16, m, S.Num(S.Bits16, n)) == n && S.Num(S.Bits16, n) < 0x1_0000
  {
    S.UnwrapUnique(S.Bits16, m, n);
  }

  /** Otherwise no console could: the packet is the same whatever the event it
      would need was. */
  lemma {:induction false} SixteenLost(log: seq<Event>, m: nat, n: nat, other: Event)
    requires AllEncodable(log) && Encodable(other) && m + 16 <= n < |log|
    ensures AllEncodable(log[m := other]) && PacketAt(log[m := other], n) == PacketAt(log, n)
  {
    hide Format;
    var changed := log[m := other];
    forall e | e in changed
      ensures Encodable(e)
    {
      assert e == other || e in log;
    }
    assert Newest(changed[..n + 1]) == Newest(log[..n + 1]);
  }

  /** The packets that arrive, by the position of their newest event: late and
      repeated ones are harmless, and no sixteen in a row are missing. */
  predicate Follows(m: nat, arrivals: seq<nat>)
    decreases |arrivals|
  {
    arrivals != [] ==>
      m - 0x8000 <= arrivals[0] < m + 16 && Follows(Reached(m, arrivals[0]), arrivals[1..])
  }

  function Reached(m: nat, n: nat): nat {
    if n < m then m else n + 1
  }

  function CatchUpAll(known: seq<Event>, log: seq<Event>, arrivals: seq<nat>): Option<seq<Event>>
    requires AllEncodable(log) && forall i :: 0 <= i < |arrivals| ==> arrivals[i] < |log|
    decreases |arrivals|
  {
    if arrivals == [] then Some(known) else
      match CatchUp(known, PacketAt(log, arrivals[0]))
      case Some(es) => CatchUpAll(es, log, arrivals[1..])
      case None => None
  }

  function ReachedAll(m: nat, arrivals: seq<nat>): nat
    decreases |arrivals|
  {
    if arrivals == [] then m else ReachedAll(Reached(m, arrivals[0]), arrivals[1..])
  }

  /** Over any run in which fewer than sixteen packets in a row are missing, the
      console rebuilds the whole log up to the newest packet that arrived,
      however often the packet numbers wrap around. */
  lemma {:induction false} WholeLogRebuilt(log: seq<Event>, m: nat, arrivals: seq<nat>)
    requires AllEncodable(log) && AllReadable(log) && m <= |log| && (forall i :: 0 <= i < |arrivals| ==> arrivals[i] < |log|)
    requires Follows(m, arrivals)
    ensures m <= ReachedAll(m, arrivals) <= |log|
    ensures CatchUpAll(log[..m], log, arrivals) == Some(log[..ReachedAll(m, arrivals)])
    decreases |arrivals|
  {
    hide CatchUp, PacketAt, Encodable;
    if arrivals != [] {
      CatchesUpExactly(log, m, arrivals[0]);
      WholeLogRebuilt(log, Reached(m, arrivals[0]), arrivals[1..]);
    }
  }

  // ---------------------------------------------------------------- the controller

  const BUTTONS_COUNT: nat := 16
  const TOUCHES_MAX: nat := 2

  datatype Point = Point(x: nat, y: nat, id: int)

  /** Coordinates have 16 bits; a negative identifier means no touch. */
  predicate IsPoint(p: Point) {
    -0x80 <= p.id < 0x80 && p.x < 0x1_0000 && p.y < 0x1_0000
  }

  /** ChiakiControllerState as far as the history is concerned; buttons is the
      32-bit mask, lowest bit first. */
  datatype Controller = Controller(buttons: seq<bool>, l2: byte, r2: byte, touches: seq<Point>) {
    predicate Wf() {
      && |buttons| == 32 && |touches| == TOUCHES_MAX
      && forall i :: 0 <= i < TOUCHES_MAX ==> IsPoint(touches[i])
    }

    /** Its touches lie on the pad, which is 1920 by 942. */
    predicate OnPad() {
      forall i :: 0 <= i < |touches| ==> touches[i].x < 0x1000 && touches[i].y < 0x1000
    }
  }

  /** The digital button events of feedback_sender_send_history. */
  function DiffButtons(prev: Controller, now: Controller, n: nat): (es: seq<Event>)
    requires prev.Wf() && now.Wf() && n <= BUTTONS_COUNT
    ensures AllEncodable(es)
  {
    if n == 0 then [] else
      DiffButtons(prev, now, n - 1)
      + (if prev.buttons[n - 1] != now.buttons[n - 1] then [Button(n - 1, if now.buttons[n - 1] then 0xff else 0)] else [])
  }

  function DiffTrigger(bit: nat, prev: byte, now: byte): seq<Event> {
    if prev != now then [Button(bit, now)] else []
  }

  function DiffTouch(prev: Point, now: Point): seq<Event> {
    if prev.id != now.id && prev.id >= 0 then [Touch(false, prev.id, prev.x, prev.y)]
    else if now.id >= 0 && (prev.id != now.id || prev.x != now.x || prev.y != now.y) then [Touch(true, now.id, now.x, now.y)]
    else []
  }

  /** All events feedback_sender_send_history records. */
  function Diff(prev: Controller, now: Controller): (es: seq<Event>)
    requires prev.Wf() && now.Wf()
    ensures AllEncodable(es)
  {
    DiffButtons(prev, now, BUTTONS_COUNT)
    + DiffTrigger(ANALOG_L2, prev.l2, now.l2) + DiffTrigger(ANALOG_R2, prev.r2, now.r2)
    + DiffTouch(prev.touches[0], now.touches[0]) + DiffTouch(prev.touches[1], now.touches[1])
  }

  /** controller_state_equals_for_feedback_history. */
  predicate EqualForHistory(a: Controller, b: Controller)
    requires a.Wf() && b.Wf()
  {
    && a.buttons == b.buttons && a.l2 == b.l2 && a.r2 == b.r2
    && forall i :: 0 <= i < TOUCHES_MAX ==>
         a.touches[i].id == b.touches[i].id
         && (a.touches[i].id >= 0 ==> a.touches[i].x == b.touches[i].x && a.touches[i].y == b.touches[i].y)
  }

  lemma {:induction false} ButtonsUnchanged(prev: Controller, now: Controller, n: nat)
    requires prev.Wf() && now.Wf() && n <= BUTTONS_COUNT
    ensures DiffButtons(prev, now, n) == [] <==> prev.buttons[..n] == now.buttons[..n]
  {
    if n > 0 {
      ButtonsUnchanged(prev, now, n - 1);
      assert prev.buttons[..n] == prev.buttons[..n - 1] + [prev.buttons[n - 1]];
      assert now.buttons[..n] == now.buttons[..n - 1] + [now.buttons[n - 1]];
    }
  }

  /** The check before sending the history loses no event, and lets through a
      change without one only in the mask bits that are not buttons, or if a
      lifted touch gets another negative identifier. */
  lemma {:induction false} NothingToSendExactly(prev: Controller, now: Controller)
    requires prev.Wf() && now.Wf()
    ensures EqualForHistory(prev, now) <==>
              && Diff(prev, now) == [] && prev.buttons[BUTTONS_COUNT..] == now.buttons[BUTTONS_COUNT..]
              && forall i :: 0 <= i < TOUCHES_MAX ==> prev.touches[i].id == now.touches[i].id
  {
    ButtonsUnchanged(prev, now, BUTTONS_COUNT);
    assert prev.buttons == prev.buttons[..BUTTONS_COUNT] + prev.buttons[BUTTONS_COUNT..];
    assert now.buttons == now.buttons[..BUTTONS_COUNT] + now.buttons[BUTTONS_COUNT..];
  }

  /** The buttons and triggers a console shows. */
  datatype Pressed = Pressed(buttons: seq<bool>, l2: byte, r2: byte)

  function Shown(c: Controller): Pressed
    requires c.Wf()
  {
    Pressed(c.buttons[..16], c.l2, c.r2)
  }

  function Apply(p: Pressed, e: Event): (q: Pressed)
    ensures |q.buttons| == |p.buttons|
  {
    match e
    case Touch(_, _, _, _) => p
    case Button(bit, level) =>
      if bit < |p.buttons| then p.(buttons := p.buttons[bit := level != 0])
      else if bit == ANALOG_L2 then p.(l2 := level)
      else if bit == ANALOG_R2 then p.(r2 := level)
      else p
  }

  function Replay(p: Pressed, es: seq<Event>): (q: Pressed)
    ensures |q.buttons| == |p.buttons|
  {
    if es == [] then p else Apply(Replay(p, es[..|es| - 1]), es[|es| - 1])
  }

  lemma {:induction false} ReplayJoins(p: Pressed, a: seq<Event>, b: seq<Event>)
    ensures Replay(p, a + b) == Replay(Replay(p, a), b)
    decreases |b|
  {
    if b == [] {
      assert a + b == a;
    } else {
      assert (a + b)[..|a + b| - 1] == a + b[..|b| - 1];
      ReplayJoins(p, a, b[..|b| - 1]);
    }
  }

  lemma {:induction false} ReplayFew(p: Pressed, es: seq<Event>)
    requires |es| <= 1
    ensures Replay(p, es) == if es == [] then p else Apply(p, es[0])
  {
    if es != [] {
      assert es[..0] == [];
    }
  }

  lemma {:induction false} ReplayButtons(prev: Controller, now: Controller, n: nat)
    requires prev.Wf() && now.Wf() && n <= BUTTONS_COUNT
    ensures Replay(Shown(prev), DiffButtons(prev, now, n))
            == Pressed(now.buttons[..n] + prev.buttons[n..BUTTONS_COUNT], prev.l2, prev.r2)
  {
    hide Replay;
    if n == 0 {
      ReplayFew(Shown(prev), []);
    } else {
      var more := if prev.buttons[n - 1] != now.buttons[n - 1] then [Button(n - 1, if now.buttons[n - 1] then 0xff else 0)] else [];
      ReplayButtons(prev, now, n - 1);
      ReplayJoins(Shown(prev), DiffButtons(prev, now, n - 1), more);
      ReplayFew(Replay(Shown(prev), DiffButtons(prev, now, n - 1)), more);
      assert now.buttons[..n] + prev.buttons[n..BUTTONS_COUNT]
          == (now.buttons[..n - 1] + prev.buttons[n - 1..BUTTONS_COUNT])[n - 1 := now.buttons[n - 1]];
    }
  }

  /** Replaying the events of a change turns the old state into the new one. */
  lemma {:induction false} ReplayDiff(prev: Controller, now: Controller)
    requires prev.Wf() && now.Wf()
    ensures Replay(Shown(prev), Diff(prev, now)) == Shown(now)
  {
    var a := DiffButtons(prev, now, BUTTONS_COUNT);
    var b := DiffTrigger(ANALOG_L2, prev.l2, now.l2);
    var c := DiffTrigger(ANALOG_R2, prev.r2, now.r2);
    var d := DiffTouch(prev.touches[0], now.touches[0]);
    var e := DiffTouch(prev.touches[1], now.touches[1]);
    var p := Shown(prev);
    ReplayJoins(p, a + b + c + d, e);
    ReplayJoins(p, a + b + c, d);
    ReplayJoins(p, a + b, c);
    ReplayJoins(p, a, b);
    ReplayButtons(prev, now, BUTTONS_COUNT);
    hide Replay, DiffButtons;
    ReplayFew(Replay(p, a), b);
    ReplayFew(Replay(p, a + b), c);
    ReplayFew(Replay(p, a + b + c), d);
    ReplayFew(Replay(p, a + b + c + d), e);
  }

  /** The events recorded while the controller went through these states. */
  function History(states: seq<Controller>): (es: seq<Event>)
    requires |states| > 0 && forall i :: 0 <= i < |states| ==> states[i].Wf()
    ensures AllEncodable(es)
    decreases |states|
  {
    var n := |states| - 1;
    if n == 0 then [] else History(states[..n]) + Diff(states[n - 1], states[n])
  }

  /** Over any run: replaying the whole log from the first state gives the
      sender's buttons and triggers. */
  lemma {:induction false} ReplayHistory(states: seq<Controller>)
    requires |states| > 0 && forall i :: 0 <= i < |states| ==> states[i].Wf()
    ensures Replay(Shown(states[0]), History(states)) == Shown(states[|states| - 1])
    decreases |states|
  {
    hide Replay, Diff, Controller.Wf;
    var n := |states| - 1;
    if n == 0 {
      ReplayFew(Shown(states[0]), []);
    } else {
      ReplayHistory(states[..n]);
      ReplayDiff(states[n - 1], states[n]);
      ReplayJoins(Shown(states[0]), History(states[..n]), Diff(states[n - 1], states[n]));
    }
  }

  lemma {:induction false} ButtonsReadable(prev: Controller, now: Controller, n: nat)
    requires prev.Wf() && now.Wf() && n <= BUTTONS_COUNT
    ensures AllReadable(DiffButtons(prev, now, n))
  {
    if n > 0 {
      ButtonsReadable(prev, now, n - 1);
    }
  }

  lemma {:induction false} HistoryReadable(states: seq<Controller>)
    requires |states| > 0 && forall i :: 0 <= i < |states| ==> states[i].Wf() && states[i].OnPad()
    ensures AllReadable(History(states))
    decreases |states|
  {
    var n := |states| - 1;
    if n > 0 {
      HistoryReadable(states[..n]);
      ButtonsReadable(states[n - 1], states[n], BUTTONS_COUNT);
    }
  }

  // ---------------------------------------------------------------- the touchpad

  /** The touches a console shows, by their identifiers. */
  type Pad = map<int, (nat, nat)>

  function ApplyTouch(pad: Pad, e: Event): Pad {
    match e
    case Button(_, _) => pad
    case Touch(down, id, x, y) => if down then pad[id := (x, y)] else pad - {id}
  }

  function ReplayTouches(pad: Pad, es: seq<Event>): Pad
    decreases |es|
  {
    if es == [] then pad else ApplyTouch(ReplayTouches(pad, es[..|es| - 1]), es[|es| - 1])
  }

  /** Whatever is lifted was shown, and is lifted where it was shown. */
  predicate LiftsInPlace(pad: Pad, es: seq<Event>)
    decreases |es|
  {
    es != [] ==>
      var n := |es| - 1;
      LiftsInPlace(pad, es[..n]) && LiftInPlace(ReplayTouches(pad, es[..n]), es[n])
  }

  predicate LiftInPlace(pad: Pad, e: Event) {
    e.Touch? && !e.down ==> e.id in pad && pad[e.id] == (e.x, e.y)
  }

  lemma {:induction false} LiftsJoin(pad: Pad, a: seq<Event>, b: seq<Event>)
    requires LiftsInPlace(pad, a) && LiftsInPlace(ReplayTouches(pad, a), b)
    ensures LiftsInPlace(pad, a + b)
    decreases |b|
  {
    if b == [] {
      assert a + b == a;
    } else {
      var n := |b| - 1;
      assert (a + b)[..|a + b| - 1] == a + b[..n];
      LiftsJoin(pad, a, b[..n]);
      TouchesJoin(pad, a, b[..n]);
      hide ReplayTouches, LiftInPlace;
    }
  }

  /** The touch in a slot. */
  function Touched(p: Point): Pad {
    if p.id >= 0 then map[p.id := (p.x, p.y)] else map[]
  }

  function PadOf(c: Controller): Pad
    requires c.Wf()
  {
    Touched(c.touches[0]) + Touched(c.touches[1])
  }

  /** A touch and another one that took its slot since. */
  predicate Replaced(prev: Point, now: Point) {
    prev.id >= 0 && now.id >= 0 && prev.id != now.id
  }

  /** The two slots have no touch in common, before and after. */
  predicate SlotsApart(prev: Controller, now: Controller)
    requires prev.Wf() && now.Wf()
  {
    forall p, q | p in {prev.touches[0], now.touches[0]} && q in {prev.touches[1], now.touches[1]} ::
      p.id >= 0 ==> p.id != q.id
  }

  lemma {:induction false} TouchesJoin(pad: Pad, a: seq<Event>, b: seq<Event>)
    ensures ReplayTouches(pad, a + b) == ReplayTouches(ReplayTouches(pad, a), b)
    decreases |b|
  {
    if b == [] {
      assert a + b == a;
    } else {
      assert (a + b)[..|a + b| - 1] == a + b[..|b| - 1];
      TouchesJoin(pad, a, b[..|b| - 1]);
    }
  }

  lemma {:induction false} ButtonsTouchNothing(pad: Pad, es: seq<Event>)
    requires forall e :: e in es ==> e.Button?
    ensures ReplayTouches(pad, es) == pad && LiftsInPlace(pad, es)
    decreases |es|
  {
    if es != [] {
      assert es[|es| - 1] in es;
      ButtonsTouchNothing(pad, es[..|es| - 1]);
    }
  }

  lemma {:induction false} ButtonsAreButtons(prev: Controller, now: Controller, n: nat)
    requires prev.Wf() && now.Wf() && n <= BUTTONS_COUNT
    ensures forall e :: e in DiffButtons(prev, now, n) ==> e.Button?
  {
    if n > 0 {
      ButtonsAreButtons(prev, now, n - 1);
    }
  }

  /** One slot: the old touch goes, and the new one comes unless it replaces
      the old one. */
  lemma {:induction false} ReplaySlot(pad: Pad, prev: Point, now: Point)
    requires prev.id >= 0 ==> prev.id in pad && pad[prev.id] == (prev.x, prev.y)
    ensures ReplayTouches(pad, DiffTouch(prev, now))
            == (if prev.id >= 0 then pad - {prev.id} else pad) + (if Replaced(prev, now) then map[] else Touched(now))
    ensures LiftsInPlace(pad, DiffTouch(prev, now))
  {
    var es := DiffTouch(prev, now);
    if es != [] {
      assert es[..0] == [];
    }
  }

  /** The button events before those of the slots make no difference. */
  lemma {:induction false} ReplayAfterButtons(pad: Pad, a: seq<Event>, b: seq<Event>, c: seq<Event>)
    requires forall e :: e in a ==> e.Button?
    ensures ReplayTouches(pad, a + b + c) == ReplayTouches(ReplayTouches(pad, b), c)
    ensures LiftsInPlace(pad, b + c) ==> LiftsInPlace(pad, a + b + c)
  {
    hide ReplayTouches, LiftsInPlace;
    ButtonsTouchNothing(pad, a);
    TouchesJoin(pad, a + b, c);
    TouchesJoin(pad, a, b);
    if LiftsInPlace(pad, b + c) {
      LiftsJoin(pad, a, b + c);
      assert a + (b + c) == a + b + c;
    }
  }

  lemma {:induction false} ButtonEvents(prev: Controller, now: Controller)
    requires prev.Wf() && now.Wf()
    ensures var a := DiffButtons(prev, now, BUTTONS_COUNT) + DiffTrigger(ANALOG_L2, prev.l2, now.l2)
                     + DiffTrigger(ANALOG_R2, prev.r2, now.r2);
            && (forall e :: e in a ==> e.Button?)
            && Diff(prev, now) == a + DiffTouch(prev.touches[0], now.touches[0]) + DiffTouch(prev.touches[1], now.touches[1])
  {
    ButtonsAreButtons(prev, now, BUTTONS_COUNT);
    hide DiffButtons, DiffTouch;
  }

  lemma {:induction false} ReplayPad(prev: Controller, now: Controller)
    requires prev.Wf() && now.Wf() && SlotsApart(prev, now)
    ensures ReplayTouches(PadOf(prev), Diff(prev, now))
            == (if Replaced(prev.touches[0], now.touches[0]) then map[] else Touched(now.touches[0]))
               + (if Replaced(prev.touches[1], now.touches[1]) then map[] else Touched(now.touches[1]))
    ensures LiftsInPlace(PadOf(prev), Diff(prev, now))
  {
    hide LiftsInPlace, ReplayTouches, Diff, DiffButtons, DiffTouch, DiffTrigger, Touched, Replaced;
    var p0, p1, n0, n1 := prev.touches[0], prev.touches[1], now.touches[0], now.touches[1];
    ButtonEvents(prev, now);
    ReplaySlots(p0, n0, p1, n1);
    ReplayAfterButtons(PadOf(prev),
                       DiffButtons(prev, now, BUTTONS_COUNT) + DiffTrigger(ANALOG_L2, prev.l2, now.l2)
                       + DiffTrigger(ANALOG_R2, prev.r2, now.r2),
                       DiffTouch(p0, n0), DiffTouch(p1, n1));
  }

  lemma {:induction false} ReplaySlots(p0: Point, n0: Point, p1: Point, n1: Point)
    requires p0.id >= 0 ==> p0.id != p1.id && p0.id != n1.id
    requires n0.id >= 0 ==> n0.id != p1.id && n0.id != n1.id
    ensures ReplayTouches(ReplayTouches(Touched(p0) + Touched(p1), DiffTouch(p0, n0)), DiffTouch(p1, n1))
            == (if Replaced(p0, n0) then map[] else Touched(n0)) + (if Replaced(p1, n1) then map[] else Touched(n1))
    ensures LiftsInPlace(Touched(p0) + Touched(p1), DiffTouch(p0, n0) + DiffTouch(p1, n1))
  {
    hide ReplayTouches, DiffTouch, LiftsInPlace;
    var pad := Touched(p0) + Touched(p1);
    ReplaySlot(pad, p0, n0);
    var kept := if Replaced(p0, n0) then map[] else Touched(n0);
    assert ReplayTouches(pad, DiffTouch(p0, n0)) == Touched(p1) + kept;
    ReplaySlot(Touched(p1) + kept, p1, n1);
    assert (if p1.id >= 0 then Touched(p1) + kept - {p1.id} else Touched(p1) + kept) == kept;
    LiftsJoin(pad, DiffTouch(p0, n0), DiffTouch(p1, n1));
  }

  /** The console shows the touches exactly if none took the slot of another one
      since the last history: the new touch of such a slot is reported only when
      it moves. */
  lemma {:induction false} TouchesShownExactly(prev: Controller, now: Controller)
    requires prev.Wf() && now.Wf() && SlotsApart(prev, now)
    ensures ReplayTouches(PadOf(prev), Diff(prev, now)) == PadOf(now)
            <==> forall i :: 0 <= i < TOUCHES_MAX ==> !Replaced(prev.touches[i], now.touches[i])
    ensures LiftsInPlace(PadOf(prev), Diff(prev, now))
  {
    ReplayPad(prev, now);
    hide ReplayTouches, Diff, LiftsInPlace;
    var n0, n1 := now.touches[0], now.touches[1];
    if Replaced(prev.touches[0], n0) {
      assert n0.id in PadOf(now) && n0.id !in Touched(n1);
    }
    if Replaced(prev.touches[1], n1) {
      assert n1.id in PadOf(now) && n1.id !in Touched(n0);
    }
  }

  /** A finger that is lifted and put down again between two histories. */
  lemma {:induction false} ReplacedTouchHidden()
    ensures var up := Point(0, 0, -1);
            var prev := Controller(seq(32, _ => false), 0, 0, [Point(5, 6, 1), up]);
            var now := Controller(seq(32, _ => false), 0, 0, [Point(7, 8, 2), up]);
            ReplayTouches(PadOf(prev), Diff(prev, now)) == map[] != PadOf(now) == map[2 := (7, 8)]
  {
    var up := Point(0, 0, -1);
    var prev := Controller(seq(32, _ => false), 0, 0, [Point(5, 6, 1), up]);
    var now := Controller(seq(32, _ => false), 0, 0, [Point(7, 8, 2), up]);
    ReplayPad(prev, now);
    hide ReplayTouches, Diff;
    assert 2 in PadOf(now);
  }

  /** No touch takes another one's slot from one state to the next. */
  predicate Steady(states: seq<Controller>)
    requires forall i :: 0 <= i < |states| ==> states[i].Wf()
    decreases |states|
  {
    var n := |states| - 1;
    n >= 1 ==> Steady(states[..n]) && SteadyStep(states[n - 1], states[n])
  }

  predicate SteadyStep(prev: Controller, now: Controller)
    requires prev.Wf() && now.Wf()
  {
    SlotsApart(prev, now) && forall k :: 0 <= k < TOUCHES_MAX ==> !Replaced(prev.touches[k], now.touches[k])
  }

  lemma {:induction false} TouchesOfHistory(states: seq<Controller>)
    requires |states| > 0 && (forall i :: 0 <= i < |states| ==> states[i].Wf()) && Steady(states)
    ensures ReplayTouches(PadOf(states[0]), History(states)) == PadOf(states[|states| - 1])
    ensures LiftsInPlace(PadOf(states[0]), History(states))
    decreases |states|
  {
    hide LiftsInPlace, ReplayTouches, Diff, Controller.Wf, PadOf, SlotsApart, Replaced;
    var n := |states| - 1;
    if n == 0 {
      ButtonsTouchNothing(PadOf(states[0]), []);
    } else {
      TouchesOfHistory(states[..n]);
      TouchesShownExactly(states[n - 1], states[n]);
      TouchesJoin(PadOf(states[0]), History(states[..n]), Diff(states[n - 1], states[n]));
      LiftsJoin(PadOf(states[0]), History(states[..n]), Diff(states[n - 1], states[n]));
    }
  }

  // ---------------------------------------------------------------- end to end

  /** End to end: as long as fewer than sixteen packets in a row are missing and
      the last one arrives, the console shows the controller's buttons; and its
      touches, if none took another one's slot between two states. */
  lemma {:induction false} ConsoleShowsController(states: seq<Controller>, arrivals: seq<nat>)
    requires |states| > 0 && forall i :: 0 <= i < |states| ==> states[i].Wf() && states[i].OnPad()
    requires var log := History(states);
             && (forall i :: 0 <= i < |arrivals| ==> arrivals[i] < |log|)
             && Follows(0, arrivals) && (log != [] ==> |log| - 1 in arrivals)
    ensures var es := CatchUpAll([], History(states), arrivals);
            && es.Some? && Replay(Shown(states[0]), es.value) == Shown(states[|states| - 1])
            && (Steady(states) ==> ReplayTouches(PadOf(states[0]), es.value) == PadOf(states[|states| - 1]))
  {
    hide Steady, ReplayTouches, PadOf;
    hide History, Replay, CatchUpAll, Follows, ReachedAll, Controller.Wf, Controller.OnPad, Encodable, Readable;
    var log := History(states);
    HistoryReadable(states);
    WholeLogRebuilt(log, 0, arrivals);
    ReplayHistory(states);
    if Steady(states) {
      TouchesOfHistory(states);
    }
    if log != [] {
      ReachesLast(0, arrivals, |log| - 1);
    }
    assert log[..0] == [] && log[..|log|] == log;
  }

  lemma {:induction false} ReachesLast(m: nat, arrivals: seq<nat>, n: nat)
    requires n in arrivals || n < m
    ensures n < ReachedAll(m, arrivals)
    decreases |arrivals|
  {
    if arrivals != [] {
      ReachesLast(Reached(m, arrivals[0]), arrivals[1..], n);
    }
  }
}
