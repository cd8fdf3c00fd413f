/** The buffer of sent but not yet acknowledged data packets. */
module SendBuffer {
  import opened Bytes
  import opened SeqNum

  const RESEND_TIMEOUT_MS: nat := 200

  datatype Packet<B> = Packet(seqNum: int, tries: nat, lastSendMs: nat, buf: B)

  datatype PushResult = PushOk | Overflow | InvalidData

  /** What a cumulative acknowledgement covers. */
  predicate Covers(ack: int, n: int) {
    n == ack || Lt(Bits32, n, ack)
  }

  function Kept<B>(ps: seq<Packet<B>>, ack: int): seq<Packet<B>> {
    if ps == [] then []
    else
      var last := ps[|ps| - 1];
      Kept(ps[..|ps| - 1], ack) + (if Covers(ack, last.seqNum) then [] else [last])
  }

  function Covered<B>(ps: seq<Packet<B>>, ack: int): seq<int> {
    if ps == [] then []
    else
      var last := ps[|ps| - 1];
      Covered(ps[..|ps| - 1], ack) + (if Covers(ack, last.seqNum) then [last.seqNum] else [])
  }

  ghost predicate DistinctNums<B>(ps: seq<Packet<B>>) {
    forall i, j :: 0 <= i < j < |ps| ==> ps[i].seqNum != ps[j].seqNum
  }

  /** One step of either function, over a growing prefix. */
  lemma {:induction false} Snoc<B>(ps: seq<Packet<B>>, i: nat, ack: int)
    requires i < |ps|
    ensures Covers(ack, ps[i].seqNum) ==>
              Kept(ps[..i + 1], ack) == Kept(ps[..i], ack) && Covered(ps[..i + 1], ack) == Covered(ps[..i], ack) + [ps[i].seqNum]
    ensures !Covers(ack, ps[i].seqNum) ==>
              Kept(ps[..i + 1], ack) == Kept(ps[..i], ack) + [ps[i]] && Covered(ps[..i + 1], ack) == Covered(ps[..i], ack)
  {
    assert ps[..i + 1][..i] == ps[..i];
  }

  lemma {:induction false} NothingSeen<B>(ps: seq<Packet<B>>, ack: int)
    ensures Kept(ps[..0], ack) == [] && Covered(ps[..0], ack) == []
  {
  }

  ghost predicate Ascending(s: seq<nat>) {
    forall i, j :: 0 <= i < j < |s| ==> s[i] < s[j]
  }

  lemma {:induction false} AscendingNext(s: seq<nat>, n: nat)
    requires Ascending(s) && forall i :: 0 <= i < |s| ==> s[i] < n
    ensures Ascending(s + [n]) && n !in s
  {
  }

  /** Kept is an order-preserving selection of exactly the packets the
      acknowledgement does not cover: from[i] is where the i-th one came from. */
  lemma {:induction false} KeptIsSelection<B>(ps: seq<Packet<B>>, ack: int) returns (from: seq<nat>)
    ensures |from| == |Kept(ps, ack)|
    ensures forall i :: 0 <= i < |from| ==> from[i] < |ps| && Kept(ps, ack)[i] == ps[from[i]]
    ensures Ascending(from)
    ensures forall k :: 0 <= k < |ps| ==> (k in from <==> !Covers(ack, ps[k].seqNum))
    decreases |ps|
  {
    hide Covers, Kept, Ascending;
    NothingSeen(ps, ack);
    if ps == [] {
      from := [];
      assert ps == ps[..0] && Ascending(from) by {
        NothingAscends();
      }
    } else {
      var n := |ps| - 1;
      from := KeptIsSelection(ps[..n], ack);
      Snoc(ps, n, ack);
      AscendingNext(from, n);
      assert ps[..n + 1] == ps;
      if !Covers(ack, ps[n].seqNum) {
        from := from + [n];
      }
    }
  }

  lemma NothingAscends()
    ensures Ascending([])
  {
  }

  lemma {:induction false} KeptDistinct<B>(ps: seq<Packet<B>>, ack: int)
    requires DistinctNums(ps)
    ensures DistinctNums(Kept(ps, ack))
  {
    var from := KeptIsSelection(ps, ack);
    forall i, j | 0 <= i < j < |from|
      ensures Kept(ps, ack)[i].seqNum != Kept(ps, ack)[j].seqNum
    {
      assert from[i] < from[j];
    }
  }

  /** The reported numbers are exactly the covered ones, and with the kept
      packets they account for the whole buffer. */
  lemma {:induction false} CoveredNumbers<B>(ps: seq<Packet<B>>, ack: int)
    ensures forall n :: n in Covered(ps, ack) <==> Covers(ack, n) && exists p :: p in ps && p.seqNum == n
    ensures |Covered(ps, ack)| + |Kept(ps, ack)| == |ps|
    decreases |ps|
  {
    if ps != [] {
      var k := |ps| - 1;
      CoveredNumbers(ps[..k], ack);
      hide Covers;
      forall n
        ensures n in Covered(ps, ack) <==> Covers(ack, n) && exists p :: p in ps && p.seqNum == n
      {
        if p :| p in ps && p.seqNum == n {
          assert p in ps[..k] || p == ps[k];
        }
      }
    }
  }

  /** Exactly the packets it does not cover are kept. */
  lemma {:induction false} KeptMembers<B>(ps: seq<Packet<B>>, ack: int)
    ensures forall p :: p in Kept(ps, ack) ==> p in ps
    ensures forall p :: p in Kept(ps, ack) <==> p in ps && !Covers(ack, p.seqNum)
  {
    hide Covers, Ascending;
    var from := KeptIsSelection(ps, ack);
    forall p
      ensures p in Kept(ps, ack) <==> p in ps && !Covers(ack, p.seqNum)
    {
      if p in Kept(ps, ack) {
        var i :| 0 <= i < |from| && Kept(ps, ack)[i] == p;
        assert from[i] in from;
      }
      if p in ps && !Covers(ack, p.seqNum) {
        var k :| 0 <= k < |ps| && ps[k] == p;
        var i :| 0 <= i < |from| && from[i] == k;
        assert Kept(ps, ack)[i] == p;
      }
    }
  }

  /** Only the numbers of packets matter for what is kept and covered. */
  lemma {:induction false} AckImages<B, C>(ps: seq<Packet<B>>, f: Packet<B> -> Packet<C>, ack: int)
    requires forall p :: p in ps ==> f(p).seqNum == p.seqNum
    ensures Kept(Images(ps, f), ack) == Images(Kept(ps, ack), f)
    ensures Covered(Images(ps, f), ack) == Covered(ps, ack)
    decreases |ps|
  {
    hide Covers;
    if ps == [] {
      assert Images(ps, f) == [];
    } else {
      var front, last := ps[..|ps| - 1], ps[|ps| - 1];
      AckImages(front, f, ack);
      assert last in ps;
      assert Images(ps, f)[..|ps| - 1] == Images(front, f);
      assert Images(Kept(front, ack) + [last], f) == Images(Kept(front, ack), f) + [f(last)];
    }
  }

  /** An acknowledgement that has already been applied changes nothing. */
  lemma {:induction false} AckIdempotent<B>(ps: seq<Packet<B>>, ack: int)
    requires forall p :: p in ps ==> !Covers(ack, p.seqNum)
    ensures Kept(ps, ack) == ps && Covered(ps, ack) == []
    decreases |ps|
  {
    if ps != [] {
      var front, last := ps[..|ps| - 1], ps[|ps| - 1];
      assert ps == front + [last];
      AckIdempotent(front, ack);
      assert last in ps;
    }
  }

  predicate Due<B>(p: Packet<B>, now: nat) {
    (now - p.lastSendMs) % 0x1_0000_0000_0000_0000 > RESEND_TIMEOUT_MS
  }

  function Refreshed<B>(p: Packet<B>, now: nat): Packet<B> {
    if Due(p, now) then p.(lastSendMs := now, tries := p.tries + 1) else p
  }

  /** The buffers of the overdue packets, oldest slot first. */
  function Overdue<B>(ps: seq<Packet<B>>, now: nat): seq<B> {
    if ps == [] then []
    else
      var last := ps[|ps| - 1];
      Overdue(ps[..|ps| - 1], now) + (if Due(last, now) then [last.buf] else [])
  }

  lemma OverdueSnoc<B>(ps: seq<Packet<B>>, now: nat)
    ensures Overdue<B>([], now) == []
    ensures ps != [] ==>
              var n := |ps| - 1; Overdue(ps, now) == Overdue(ps[..n], now) + (if Due(ps[n], now) then [ps[n].buf] else [])
  {
  }

  /** The overdue packets are a selection in the order of their slots: from[i] is
      where the i-th one came from. */
  lemma {:induction false} OverdueIsSelection<B>(ps: seq<Packet<B>>, now: nat) returns (from: seq<nat>)
    ensures |from| == |Overdue(ps, now)| && Ascending(from)
    ensures forall i :: 0 <= i < |from| ==> from[i] < |ps| && Overdue(ps, now)[i] == ps[from[i]].buf
    ensures forall k :: 0 <= k < |ps| ==> (k in from <==> Due(ps[k], now))
    decreases |ps|
  {
    hide Due, Ascending, Overdue;
    OverdueSnoc(ps, now);
    if ps == [] {
      from := [];
      NothingAscends();
    } else {
      var n := |ps| - 1;
      from := OverdueIsSelection(ps[..n], now);
      AscendingNext(from, n);
      if Due(ps[n], now) {
        from := from + [n];
      }
    }
  }

  /** A packet is overdue more than 200 ms after its last transmission, and also
      if the clock was set back since then, but for the first 200 ms of the
      difference's unsigned range. */
  lemma {:induction false} DueExactly<B>(p: Packet<B>, now: nat)
    requires p.lastSendMs < U64 && now < U64
    ensures Due(p, now) <==> if now >= p.lastSendMs then now - p.lastSendMs > 200 else now + U64 - p.lastSendMs > 200
  {
  }

  /** A packet after the resend passes at these times. */
  function RefreshedAt<B>(p: Packet<B>, times: seq<nat>): Packet<B>
    decreases |times|
  {
    if times == [] then p else RefreshedAt(Refreshed(p, times[0]), times[1..])
  }

  /** The times it is sent again at, if the last transmission was at this one:
      each more than 200 ms after the one before. */
  function SendTimes(last: nat, times: seq<nat>): seq<nat>
    decreases |times|
  {
    if times == [] then []
    else if times[0] > last + 200 then [times[0]] + SendTimes(times[0], times[1..])
    else SendTimes(last, times[1..])
  }

  predicate Clocked(last: nat, times: seq<nat>)
    decreases |times|
  {
    times != [] ==> last <= times[0] < U64 && Clocked(times[0], times[1..])
  }

  predicate Spaced(last: nat, times: seq<nat>)
    decreases |times|
  {
    times != [] ==> times[0] > last + 200 && Spaced(times[0], times[1..])
  }

  lemma {:induction false} ClockedSince(earlier: nat, last: nat, times: seq<nat>)
    requires Clocked(last, times) && earlier <= last
    ensures Clocked(earlier, times)
  {
  }

  /** Over any run of passes with a steady clock, a packet that is not acknowledged
      is sent again at the first pass more than 200 ms after its last
      transmission, each time: its counter grows by the number of these
      transmissions and it remembers the last of them. */
  lemma {:induction false} ResentAt<B>(p: Packet<B>, times: seq<nat>)
    requires Clocked(p.lastSendMs, times)
    ensures var q, again := RefreshedAt(p, times), SendTimes(p.lastSendMs, times);
            && q == p.(tries := p.tries + |again|, lastSendMs := q.lastSendMs)
            && q.lastSendMs == (if again == [] then p.lastSendMs else again[|again| - 1])
            && Spaced(p.lastSendMs, again)
    decreases |times|
  {
    if times != [] {
      DueExactly(p, times[0]);
      var q := Refreshed(p, times[0]);
      if times[0] > p.lastSendMs + 200 {
        ResentAt(q, times[1..]);
      } else {
        ClockedSince(p.lastSendMs, times[0], times[1..]);
        ResentAt(p, times[1..]);
      }
    }
  }

  class SendBuffer<B(0)> {
    const packets: array<Packet<B>>
    var count: nat

    ghost predicate Valid()
      reads this`count, packets
    {
      count <= packets.Length < SIZE_MAX && DistinctNums(packets[..count])
    }

    constructor (size: nat)
      requires size < SIZE_MAX
      ensures Valid() && fresh(packets) && packets.Length == size && count == 0
    {
      packets := new Packet<B>[size];
      count := 0;
    }

    method Push(seqNum: int, buf: B, now: nat) returns (r: PushResult)
      requires Valid()
      modifies this`count, packets
      ensures Valid()
      ensures r == Overflow <==> old(count) == packets.Length
      ensures r == InvalidData <==> old(count) < packets.Length && exists p :: p in old(packets[..count]) && p.seqNum == seqNum
      ensures packets[..count] == old(packets[..count]) + (if r == PushOk then [Packet(seqNum, 0, now, buf)] else [])
    {
      if count >= packets.Length {
        return Overflow;
      }
      for i := 0 to count
        invariant forall j :: 0 <= j < i ==> packets[j].seqNum != seqNum
      {
        if packets[i].seqNum == seqNum {
          assert packets[i] in packets[..count];
          return InvalidData;
        }
      }
      packets[count] := Packet(seqNum, 0, now, buf);
      count := count + 1;
      r := PushOk;
      assert packets[..count] == old(packets[..count]) + [Packet(seqNum, 0, now, buf)];
    }

    /** What the shifting loop has established after looking at the first i
        packets: shift of them are covered; the others, in order, are the
        part before shiftStart followed by the part after the current gap. */
    ghost predicate Shifted(ps: seq<Packet<B>>, ack: int, i: int, shiftStart: int, shift: int)
      reads this`count, packets
    {
      && 0 <= i <= |ps| == count <= packets.Length < SIZE_MAX
      && packets[i..count] == ps[i..]
      && if shiftStart == SIZE_MAX then
           shift == 0 && packets[..i] == Kept(ps[..i], ack)
         else
           shift > 0 && 0 <= shiftStart && shiftStart + shift <= i
           && packets[..shiftStart] + packets[shiftStart + shift..i] == Kept(ps[..i], ack)
    }

    method Ack(seqNum: int, acked: array<int>) returns (ackedCount: nat)
      requires Valid() && count <= acked.Length
      modifies this`count, packets, acked
      ensures Valid()
      ensures packets[..count] == Kept(old(packets[..count]), seqNum)
      ensures ackedCount <= acked.Length && acked[..ackedCount] == Covered(old(packets[..count]), seqNum)
    {
      hide Kept, Covered, Covers, DistinctNums;
      ackedCount := 0;
      ghost var ps := packets[..count];
      NothingSeen(ps, seqNum);
      var shift, shiftStart := 0, SIZE_MAX;
      var i := 0;
      while i < count
        invariant shift >= 0 && shiftStart >= 0 && Shifted(ps, seqNum, i, shiftStart, shift)
        invariant ackedCount <= i && acked[..ackedCount] == Covered(ps[..i], seqNum)
      {
        Snoc(ps, i, seqNum);
        assert packets[i] == ps[i];
        if Covers(seqNum, packets[i].seqNum) {
          acked[ackedCount] := packets[i].seqNum;
          ackedCount := ackedCount + 1;
          shiftStart, shift := Skip(ps, seqNum, i, shiftStart, shift);
        } else {
          Stay(ps, seqNum, i, shiftStart, shift);
        }
        i := i + 1;
      }
      assert ps[..count] == ps;
      KeptDistinct(ps, seqNum);
      assert acked[..ackedCount] == Covered(ps, seqNum);
      Finish(ps, seqNum, shiftStart, shift);
    }

    /** Packet i is not covered: it stays where it is. */
    lemma {:induction false} Stay(ps: seq<Packet<B>>, ack: int, i: nat, shiftStart: int, shift: int)
      requires i < |ps| && Shifted(ps, ack, i, shiftStart, shift) && !Covers(ack, ps[i].seqNum)
      ensures Shifted(ps, ack, i + 1, shiftStart, shift)
    {
      hide Kept, Covers;
      Snoc(ps, i, ack);
      assert packets[i] == packets[i..count][0] == ps[i];
      assert packets[i..count][1..] == packets[i + 1..count];
      if shiftStart != SIZE_MAX {
        assert packets[shiftStart + shift..i + 1] == packets[shiftStart + shift..i] + [ps[i]];
      } else {
        assert packets[..i + 1] == packets[..i] + [ps[i]];
      }
    }

    /** Packet i is covered: widen the gap, or close it and start a new one. */
    method Skip(ghost ps: seq<Packet<B>>, ghost ack: int, i: nat, shiftStart: nat,
        shift: nat) returns (start': nat, shift': nat)
      requires i < |ps| && Shifted(ps, ack, i, shiftStart, shift) && Covers(ack, ps[i].seqNum)
      modifies packets
      ensures Shifted(ps, ack, i + 1, start', shift')
    {
      hide Kept, Covers;
      Snoc(ps, i, ack);
      assert packets[i..count][1..] == packets[i + 1..count];
      if shiftStart == SIZE_MAX {
        start', shift' := i, 1;
      } else if shiftStart + shift == i {
        start', shift' := shiftStart, shift + 1;
      } else {
        CloseGap(shiftStart, shift, i);
        start', shift' := i - shift, shift + 1;
      }
    }

    /** Moves the packets between the gap and index i over the gap. */
    method CloseGap(shiftStart: nat, shift: nat, i: nat)
      requires shiftStart + shift <= i <= count <= packets.Length
      modifies packets
      ensures packets[..i - shift] == old(packets[..shiftStart] + packets[shiftStart + shift..i])
      ensures packets[i..count] == old(packets[i..count])
    {
      Memmove(packets, shiftStart, shiftStart + shift, i - (shiftStart + shift));
    }

    /** Closes the last gap. */
    method Finish(ghost ps: seq<Packet<B>>, ghost ack: int, shiftStart: nat, shift: nat)
      requires Shifted(ps, ack, count, shiftStart, shift)
      modifies packets, this`count
      ensures count <= packets.Length && packets[..count] == Kept(ps, ack)
    {
      assert ps[..count] == ps;
      if shiftStart != SIZE_MAX {
        if shiftStart + shift < count {
          CloseGap(shiftStart, shift, count);
        }
        count := count - shift;
      }
    }

    /** takion_send_buffer_resend: the packets whose last transmission is too old
        go out again. */
    method Resend(now: nat) returns (sent: seq<B>)
      requires Valid()
      modifies packets
      ensures Valid()
      ensures forall i :: 0 <= i < count ==> packets[i] == Refreshed(old(packets[i]), now)
      ensures sent == Overdue(old(packets[..count]), now)
    {
      sent := [];
      ghost var ps := packets[..count];
      for i := 0 to count
        invariant forall j :: 0 <= j < i ==> packets[j] == Refreshed(ps[j], now)
        invariant forall j :: i <= j < count ==> packets[j] == ps[j]
        invariant sent == Overdue(ps[..i], now)
      {
        assert ps[..i + 1][..i] == ps[..i];
        if Due(packets[i], now) {
          sent := sent + [packets[i].buf];
          packets[i] := packets[i].(lastSendMs := now, tries := packets[i].tries + 1);
        }
      }
      assert ps[..count] == ps;
    }
  }
}
