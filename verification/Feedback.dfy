/** The feedback history as it is kept and sent: event buffers filled in place, a
    ring that is pushed at the front, and the sender that fills it. */
module Feedback {
  import opened Arith
  import opened Bytes
  import S = SeqNum
  import opened H = FeedbackHistory

  datatype ErrorCode = Success | InvalidData | BufTooSmall

  /** The bit of a button constant, a power of two up to 1 << 17. */
  function BitOf(button: nat): Option<nat> {
    match button
    case 0x1 => Some(0) case 0x2 => Some(1) case 0x4 => Some(2) case 0x8 => Some(3)
    case 0x10 => Some(4) case 0x20 => Some(5) case 0x40 => Some(6) case 0x80 => Some(7)
    case 0x100 => Some(8) case 0x200 => Some(9) case 0x400 => Some(10) case 0x800 => Some(11)
    case 0x1000 => Some(12) case 0x2000 => Some(13) case 0x4000 => Some(14) case 0x8000 => Some(15)
    case 0x1_0000 => Some(16) case 0x2_0000 => Some(17)
    case _ => None
  }

  class HistoryEvent {
    const buf: array<byte>
    var len: nat

    ghost predicate Valid()
      reads this
    {
      buf.Length == EVENT_SIZE_MAX && len <= EVENT_SIZE_MAX
    }

    function Contents(): seq<byte>
      requires Valid()
      reads this, buf
    {
      buf[..len]
    }

    constructor ()
      ensures Valid() && fresh(buf)
    {
      buf := new byte[EVENT_SIZE_MAX];
      len := 0;
    }

    /** chiaki_feedback_history_event_set_button. */
    method SetButton(button: nat, state: byte) returns (r: ErrorCode)
      requires Valid()
      modifies this`len, buf
      ensures Valid()
      ensures match BitOf(button)
              case Some(bit) => r == Success && EncodeButton(bit, state) == Some(Contents())
              case None => r == InvalidData
    {
      buf[0] := 0x80;
      len := 2;
      match button {
        case 0x1 => buf[1] := 0x88;
        case 0x2 => buf[1] := 0x89;
        case 0x4 => buf[1] := 0x8a;
        case 0x8 => buf[1] := 0x8b;
        case 0x10 => buf[1] := 0x82;
        case 0x20 => buf[1] := 0x83;
        case 0x40 => buf[1] := 0x80;
        case 0x80 => buf[1] := 0x81;
        case 0x100 => buf[1] := 0x84;
        case 0x200 => buf[1] := 0x85;
        case 0x1_0000 => buf[1] := 0x86;
        case 0x2_0000 => buf[1] := 0x87;
        case 0x400 => buf[1] := if state != 0 then 0xaf else 0x8f; assert buf[..2] == [0x80, buf[1]]; return Success;
        case 0x800 => buf[1] := if state != 0 then 0xb0 else 0x90; assert buf[..2] == [0x80, buf[1]]; return Success;
        case 0x1000 => buf[1] := if state != 0 then 0xac else 0x8c; assert buf[..2] == [0x80, buf[1]]; return Success;
        case 0x2000 => buf[1] := if state != 0 then 0xad else 0x8d; assert buf[..2] == [0x80, buf[1]]; return Success;
        case 0x4000 => buf[1] := if state != 0 then 0xb1 else 0x91; assert buf[..2] == [0x80, buf[1]]; return Success;
        case 0x8000 => buf[1] := if state != 0 then 0xae else 0x8e; assert buf[..2] == [0x80, buf[1]]; return Success;
        case _ => return InvalidData;
      }
      buf[2] := state;
      len := 3;
      assert buf[..3] == [0x80, buf[1], state];
      r := Success;
    }

    /** chiaki_feedback_history_event_set_touchpad. */
    method SetTouchpad(down: bool, pointerId: nat, x: nat, y: nat)
      requires Valid() && pointerId < 0x100 && x < 0x1_0000 && y < 0x1_0000
      modifies this`len, buf
      ensures Valid() && Contents() == EncodeTouch(down, pointerId, x, y)
      ensures pointerId < 0x80 ==> Contents() == Encode(Touch(down, pointerId, x, y))
    {
      len := 5;
      buf[0] := if down then 0xd0 else 0xc0;
      buf[1] := pointerId % 0x80;
      buf[2] := x / 0x10 % 0x100;
      assert Pow2(4) == 16;
      buf[3] := OrBits(4, x % 0x10, y / 0x100 / 0x10) * 0x10 + y / 0x100 % 0x10;
      buf[4] := y % 0x100;
      assert buf[..5] == [buf[0], buf[1], buf[2], buf[3], buf[4]];
    }
  }

  /** The slot i places after begin in a ring. */
  function Slot(begin: nat, i: nat, size: nat): (k: nat)
    requires begin < size && i <= size
    ensures k < size && k == (begin + i) % size
  {
    WrapOnce(begin + i, size);
    if begin + i < size then begin + i else begin + i - size
  }

  /** Moving the beginning back by one slot moves every place on by one. */
  lemma SlotBefore(begin: nat, i: nat, size: nat)
    requires begin < size && i < size
    ensures var b := Slot(begin, size - 1, size);
            Slot(b, 0, size) == b && (i > 0 ==> Slot(b, i, size) == Slot(begin, i - 1, size) != b)
  {
    hide *;
    SlotSum(begin, size - 1, size);
    SlotSum(Slot(begin, size - 1, size), 0, size);
    SlotSum(Slot(begin, size - 1, size), i, size);
    if i > 0 {
      SlotSum(begin, i - 1, size);
    }
  }

  lemma SlotSum(begin: nat, i: nat, size: nat)
    requires begin < size && i <= size
    ensures Slot(begin, i, size) == if begin + i < size then begin + i else begin + i - size
  {
  }

  function Concat(es: seq<seq<byte>>): seq<byte> {
    if es == [] then [] else Concat(es[..|es| - 1]) + es[|es| - 1]
  }

  lemma {:induction false} ConcatNext(es: seq<seq<byte>>, i: nat)
    ensures Concat(es[..0]) == []
    ensures i < |es| ==> Concat(es[..i + 1]) == Concat(es[..i]) + es[i]
  {
    if i < |es| {
      assert es[..i + 1][..i] == es[..i];
    }
  }

  lemma {:induction false} ConcatGrows(es: seq<seq<byte>>, i: nat)
    requires i <= |es|
    ensures |Concat(es[..i])| <= |Concat(es)|
    decreases |es| - i
  {
    if i < |es| {
      ConcatNext(es, i);
      ConcatGrows(es, i + 1);
    } else {
      assert es[..i] == es;
    }
  }

  class HistoryBuffer {
    const events: array<seq<byte>>
    var begin: nat
    var len: nat

    ghost predicate Valid()
      reads this
    {
      events.Length > 0 && begin < events.Length && len <= events.Length
    }

    /** The events in the ring, newest first. */
    ghost function Contents(): (es: seq<seq<byte>>)
      requires Valid()
      reads this, events
      ensures |es| == len
    {
      seq(len, i requires 0 <= i < len && Valid() reads this, events => events[Slot(begin, i, events.Length)])
    }

    /** chiaki_feedback_history_buffer_init. */
    constructor (size: nat)
      requires size > 0
      ensures Valid() && fresh(events) && events.Length == size && Contents() == []
    {
      events := new seq<byte>[size](_ => []);
      begin, len := 0, 0;
    }

    /** chiaki_feedback_history_buffer_push: the oldest event goes when it is full. */
    method Push(event: seq<byte>)
      requires Valid()
      modifies this, events
      ensures Valid()
      ensures Contents() == [event] + old(Contents())[..if old(len) < events.Length then old(len) else events.Length - 1]
    {
      hide Slot;
      ghost var was, begin0, events0 := Contents(), begin, events[..];
      var size := events.Length;
      begin := Slot(begin, size - 1, size);
      len := len + 1;
      if len >= size {
        len := size;
      }
      events[begin] := event;
      ghost var kept := was[..len - 1];
      forall i | 0 <= i < len
        ensures Contents()[i] == ([event] + kept)[i]
      {
        SlotBefore(begin0, i, size);
        if i > 0 {
          assert kept[i - 1] == events0[Slot(begin0, i - 1, size)];
        }
      }
    }

    /** chiaki_feedback_history_buffer_format. */
    method Format(buf: array<byte>) returns (r: ErrorCode, written: nat)
      requires Valid()
      modifies buf
      ensures r == (if |Concat(Contents())| <= buf.Length then Success else BufTooSmall)
      ensures r == Success ==> written == |Concat(Contents())| && buf[..written] == Concat(Contents())
    {
      written := 0;
      ghost var es := Contents();
      ConcatNext(es, 0);
      var i := 0;
      while i < len
        invariant 0 <= i <= len && written <= buf.Length && es == Contents()
        invariant buf[..written] == Concat(es[..i])
      {
        var event := events[Slot(begin, i, events.Length)];
        ConcatNext(es, i);
        ConcatGrows(es, i + 1);
        if written + |event| > buf.Length {
          return BufTooSmall, written;
        }
        Memcpy(buf, written, event);
        written := written + |event|;
        i := i + 1;
      }
      assert es[..i] == es;
      r := Success;
    }
  }
}
