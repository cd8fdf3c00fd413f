/** The video receiver compares 16-bit frame indices; as long as the stream stays
    within half their range it does exactly what unbounded indices would. */
module VideoWire {
  import opened Bytes
  import opened F = Frame
  import opened VideoSteps
  import opened S = SeqNum

  /** An index as the receiver stores it, -1 being none. */
  function Stored(x: int): int {
    if x < 0 then -1 else Num(Bits16, x)
  }

  function OnWire(s: State): State {
    s.(cur := Stored(s.cur), prev := Stored(s.prev), complete := Num(Bits16, s.complete))
  }

  function EventOnWire(e: Event): Event {
    match e
    case Corrupt(first, last) => Corrupt(Num(Bits16, first), Num(Bits16, last))
    case Begin(index, k) => Begin(Num(Bits16, index), k)
    case Emit(index, result, bytes, shown) => Emit(Num(Bits16, index), result, bytes, shown)
    case _ => e
  }

  function LogOnWire(log: seq<Event>): (w: seq<Event>)
    ensures |w| == |log| && forall i :: 0 <= i < |log| ==> w[i] == EventOnWire(log[i])
  {
    seq(|log|, i requires 0 <= i < |log| => EventOnWire(log[i]))
  }

  function OutcomeOnWire(o: Outcome): Outcome {
    Outcome(OnWire(o.s), LogOnWire(o.log))
  }

  function ArrivalOnWire(a: Arrival): Arrival {
    a.(p := a.p.(frameIndex := Num(Bits16, a.p.frameIndex)))
  }

  /** The packet is less than half the index range from the current frame and at
      most that far ahead of the last frame that was decoded. */
  predicate Near(s: State, p: Packet) {
    && (s.cur >= 0 ==> s.cur - 0x8000 < p.frameIndex < s.cur + 0x8000)
    && p.frameIndex - s.complete <= 0x8000
  }

  predicate Tight(s: State) {
    && s.cur - s.complete <= 0x8000 && -1 <= s.prev <= s.cur
    && 0 <= s.complete <= (if s.prev >= 0 then s.prev else 0)
  }

  lemma {:induction false} LogJoins(a: seq<Event>, b: seq<Event>)
    ensures LogOnWire(a + b) == LogOnWire(a) + LogOnWire(b)
  {
  }

  lemma {:induction false} StoredSame(s: State)
    requires Tight(s) && s.cur >= 0
    ensures Stored(s.prev) == Stored(s.cur) <==> s.prev == s.cur
  {
    if s.prev >= 0 && s.prev < s.cur {
      SameOnWire(s.cur, s.prev);
    }
  }

  lemma SameOnWire(x: int, y: int)
    requires 0 < x - y < 0x10000
    ensures Num(Bits16, x) != Num(Bits16, y)
  {
  }

  lemma {:induction false} FlushOnWire(s: State, dec: Decoder, shown: bool)
    requires s.Wf() && s.cur >= 0
    ensures FlushFrame(OnWire(s), dec, shown) == OutcomeOnWire(FlushFrame(s, dec, shown))
    ensures Tight(s) ==> Tight(FlushFrame(s, dec, shown).s)
  {
    assert LogOnWire([]) == [];
  }

  lemma Compare(x: int, y: int)
    requires -0x8000 < x - y < 0x8000
    ensures Wire.Before(Num(Bits16, x), Num(Bits16, y)) <==> Unbounded.Before(x, y)
    ensures Wire.After(Num(Bits16, x), Num(Bits16, y)) <==> Unbounded.After(x, y)
  {
    SerialOrder(Bits16, x, y);
  }

  lemma Advance(x: int, d: int)
    ensures Wire.Shift(Num(Bits16, x), d) == Num(Bits16, Unbounded.Shift(x, d))
  {
    AddWire(Bits16, x, d);
  }

  lemma SmallOnWire(x: nat)
    requires x <= 0x8000
    ensures Num(Bits16, x) == x
  {
  }

  lemma {:induction false} FlushedOnWire(s: State, a: Arrival, dec: Decoder)
    requires s.Wf() && Tight(s)
    ensures OldFlushed(OnWire(s), ArrivalOnWire(a), dec) == OutcomeOnWire(OldFlushed(s, a, dec))
    ensures var t := OldFlushed(s, a, dec).s; Tight(t) && t.cur == s.cur && t.complete >= s.complete
  {
    assert LogOnWire([]) == [];
    if s.cur >= 0 {
      StoredSame(s);
      FlushOnWire(s, dec, a.shownOld);
    }
  }

  lemma AllocOnWire(a: Arrival)
    ensures Alloc(ArrivalOnWire(a).p) == Alloc(a.p)
  {
  }

  lemma BegunOnWire(s: State, f: Outcome, gap: seq<Event>, a: Arrival)
    requires Alloc(a.p).Allocated? && Alloc(ArrivalOnWire(a).p) == Alloc(a.p)
    ensures Begun(OnWire(s), OutcomeOnWire(f), LogOnWire(gap), ArrivalOnWire(a)) == OutcomeOnWire(Begun(s, f, gap, a))
  {
    hide Num, LogOnWire, Alloc, State.Wf;
    var o := Begun(s, f, gap, a);
    FourJoin([o.log[0]], f.log, gap, [Begin(a.p.frameIndex, Alloc(a.p).frame.k)]);
    SingleOnWire([o.log[0]]);
    SingleOnWire([Begin(a.p.frameIndex, Alloc(a.p).frame.k)]);
  }

  lemma GapOnWire(s: State, complete: int, p: nat)
    requires Tight(s) && s.cur < p && p - s.complete <= 0x8000
    requires s.complete <= complete && (complete <= s.cur || complete == 0)
    ensures Gap(Wire, Stored(s.cur), Num(Bits16, complete), Num(Bits16, p)) == LogOnWire(Gap(Unbounded, s.cur, complete, p))
  {
    hide Num, LogOnWire, Clock.After, Clock.Shift;
    var next := Unbounded.Shift(complete, 1);
    NextInReach(s, p, complete);
    Advance(complete, 1);
    Advance(p, -1);
    Compare(p, next);
    GapsAgree(s, p);
    SingleOnWire([]);
    SingleOnWire([Corrupt(next, Unbounded.Shift(p, -1))]);
  }

  lemma {:induction false} StartOnWire(s: State, a: Arrival, dec: Decoder)
    requires s.Wf() && Tight(s) && Near(s, a.p) && a.p.frameIndex > s.cur && Alloc(a.p).Allocated?
    ensures Alloc(ArrivalOnWire(a).p).Allocated?
    ensures StartFrame(Wire, OnWire(s), ArrivalOnWire(a), dec) == OutcomeOnWire(StartFrame(Unbounded, s, a, dec))
    ensures Tight(StartFrame(Unbounded, s, a, dec).s)
  {
    hide Num, FlushFrame, OldFlushed, Alloc, LogOnWire, Gap, Begun;
    AllocOnWire(a);
    FlushedOnWire(s, a, dec);
    var f := OldFlushed(s, a, dec);
    var gap := Gap(Unbounded, s.cur, f.s.complete, a.p.frameIndex);
    GapOnWire(s, f.s.complete, a.p.frameIndex);
    BegunOnWire(s, f, gap, a);
    BegunTight(s, f, gap, a);
  }

  lemma BegunTight(s: State, f: Outcome, gap: seq<Event>, a: Arrival)
    requires Alloc(a.p).Allocated? && Tight(f.s) && f.s.cur < a.p.frameIndex && a.p.frameIndex - f.s.complete <= 0x8000
    ensures Tight(Begun(s, f, gap, a).s)
  {
  }

  lemma FourJoin(a: seq<Event>, b: seq<Event>, c: seq<Event>, d: seq<Event>)
    ensures LogOnWire(a + b + c + d) == LogOnWire(a) + LogOnWire(b) + LogOnWire(c) + LogOnWire(d)
  {
    hide LogOnWire;
    LogJoins(a + b + c, d);
    LogJoins(a + b, c);
    LogJoins(a, b);
  }

  /** The first frame is never further than half the range from frame 1. */
  lemma GapsAgree(s: State, p: nat)
    requires Tight(s) && p - s.complete <= 0x8000
    ensures Num(Bits16, p) == 1 && Stored(s.cur) < 0 <==> p == 1 && s.cur < 0
  {
    if s.cur < 0 {
      SmallOnWire(p);
    }
  }

  lemma NextInReach(s: State, p: nat, complete: int)
    requires Tight(s) && s.cur < p && p - s.complete <= 0x8000
    requires s.complete <= complete && (complete <= s.cur || complete == 0)
    ensures -0x8000 < p - Unbounded.Shift(complete, 1) < 0x8000
  {
  }

  lemma SingleOnWire(log: seq<Event>)
    requires |log| <= 1
    ensures LogOnWire(log) == if log == [] then [] else [EventOnWire(log[0])]
  {
  }

  lemma {:induction false} AddOnWire(s: State, a: Arrival, dec: Decoder)
    requires s.Wf() && Tight(s) && s.cur >= 0
    ensures AddUnit(OnWire(s), ArrivalOnWire(a), dec) == OutcomeOnWire(AddUnit(s, a, dec))
    ensures Tight(AddUnit(s, a, dec).s)
  {
    hide LogOnWire, Num, FlushFrame;
    SingleOnWire([]);
    var t := match Put(s.frame.value, a.p)
             case Some(f) => s.(frame := Some(f), received := s.received + 1)
             case None => s;
    StoredSame(t);
    FlushOnWire(t, dec, a.shownNew);
  }

  lemma {:induction false} DecisionsOnWire(s: State, a: Arrival, profiles: nat)
    requires Tight(s) && Near(s, a.p)
    ensures Ignored(Wire, OnWire(s), ArrivalOnWire(a).p, profiles) == Ignored(Unbounded, s, a.p, profiles)
    ensures NextFrame(Wire, OnWire(s), ArrivalOnWire(a).p) == NextFrame(Unbounded, s, a.p)
  {
    hide Num, Clock.Before, Clock.After;
    if s.cur >= 0 {
      Compare(a.p.frameIndex, s.cur);
    }
  }

  /** One packet: 16 bits decide as unbounded indices would. */
  lemma {:induction false} StepOnWire(s: State, a: Arrival, dec: Decoder, profiles: nat)
    requires s.Wf() && Tight(s) && Near(s, a.p) && CanStart(Unbounded, s, a.p, profiles)
    ensures CanStart(Wire, OnWire(s), ArrivalOnWire(a).p, profiles)
    ensures AvPacket(Wire, OnWire(s), ArrivalOnWire(a), dec, profiles)
            == OutcomeOnWire(AvPacket(Unbounded, s, a, dec, profiles))
    ensures Tight(AvPacket(Unbounded, s, a, dec, profiles).s)
  {
    hide Num, StartFrame, AddUnit, LogOnWire, Alloc, Clock.Before, Clock.After, Ignored, NextFrame;
    AllocOnWire(a);
    DecisionsOnWire(s, a, profiles);
    SingleOnWire([]);
    if !Ignored(Unbounded, s, a.p, profiles) {
      var s1 := s.(profile := a.p.streamIndex);
      var header := if s.profile != a.p.streamIndex then [Header(a.p.streamIndex)] else [];
      SingleOnWire(header);
      var started := Outcome(s1, []);
      if NextFrame(Unbounded, s, a.p) {
        NextIsLater(s, a.p);
        StartOnWire(s1, a, dec);
        started := StartFrame(Unbounded, s1, a, dec);
      } else {
        CurStarted(s, a.p);
      }
      AddOnWire(started.s, a, dec);
      var added := AddUnit(started.s, a, dec);
      LogJoins(header + started.log, added.log);
      LogJoins(header, started.log);
    }
  }

  lemma NextIsLater(s: State, p: Packet)
    requires NextFrame(Unbounded, s, p)
    ensures p.frameIndex > s.cur
  {
  }

  lemma CurStarted(s: State, p: Packet)
    requires !NextFrame(Unbounded, s, p)
    ensures s.cur >= 0
  {
  }

  /** Every packet of the stream is near the state it arrives in. */
  predicate NearRun(arrivals: seq<Arrival>, dec: Decoder, profiles: nat)
    decreases |arrivals|
  {
    arrivals == [] ||
    var n := |arrivals| - 1;
    && NearRun(arrivals[..n], dec, profiles)
    && match Run(Unbounded, arrivals[..n], dec, profiles) case Some(o) => Near(o.s, arrivals[n].p) case None => true
  }

  function StreamOnWire(arrivals: seq<Arrival>): (w: seq<Arrival>)
    ensures |w| == |arrivals| && forall i :: 0 <= i < |arrivals| ==> w[i] == ArrivalOnWire(arrivals[i])
  {
    seq(|arrivals|, i requires 0 <= i < |arrivals| => ArrivalOnWire(arrivals[i]))
  }

  /** A whole stream: the receiver with 16-bit indices does what one with
      unbounded indices does, however often the indices wrap around. */
  lemma {:induction false} RunOnWire(arrivals: seq<Arrival>, dec: Decoder, profiles: nat)
    requires NearRun(arrivals, dec, profiles) && Run(Unbounded, arrivals, dec, profiles).Some?
    ensures Run(Wire, StreamOnWire(arrivals), dec, profiles)
            == Some(OutcomeOnWire(Run(Unbounded, arrivals, dec, profiles).value))
    ensures Tight(Run(Unbounded, arrivals, dec, profiles).value.s)
    decreases |arrivals|
  {
    hide AvPacket, Tight, Near, LogOnWire, CanStart, Num;
    if arrivals == [] {
      assert StreamOnWire(arrivals) == [];
      InitOnWire();
    } else {
      var n := |arrivals| - 1;
      RunOnWire(arrivals[..n], dec, profiles);
      assert StreamOnWire(arrivals)[..n] == StreamOnWire(arrivals[..n]);
      var o := Run(Unbounded, arrivals[..n], dec, profiles).value;
      StepOnWire(o.s, arrivals[n], dec, profiles);
      LogJoins(o.log, AvPacket(Unbounded, o.s, arrivals[n], dec, profiles).log);
    }
  }

  lemma InitOnWire()
    ensures Tight(INIT) && OutcomeOnWire(Outcome(INIT, [])) == Outcome(INIT, [])
  {
  }

  /** Every frame is accounted for. Over any stream of packets whose frames can
      be allocated and that stays within reach, what the receiver does with its
      16-bit indices is the image of a log in which frames are emitted exactly
      once, in increasing order, before the next one begins; in which every index
      from 1 to before the current frame was decoded or reported corrupt, and so
      was the current one once it is complete; and in which no decoded frame is
      ever reported. */
  lemma {:induction false} EveryFrameAccounted(arrivals: seq<Arrival>, dec: Decoder, profiles: nat)
    requires NearRun(arrivals, dec, profiles) && Run(Unbounded, arrivals, dec, profiles).Some?
    ensures var o := Run(Unbounded, arrivals, dec, profiles).value;
            && Run(Wire, StreamOnWire(arrivals), dec, profiles) == Some(OutcomeOnWire(o))
            && EachEmitted(o.log) && EmitsBegan(o.log) && EmitsIncrease(o.log)
            && (forall i :: Open(o.log, i) ==> o.log[i].index == o.s.cur != o.s.prev)
            && (forall q :: 1 <= q && (q < o.s.cur || q <= o.s.complete) ==> Covered(o.log, q))
            && Honest(o.log)
  {
    var o := Run(Unbounded, arrivals, dec, profiles).value;
    RunOnWire(arrivals, dec, profiles);
    RunAccounted(arrivals, dec, profiles);
    UnbrokenMeans(o.log);
    hide Book, Run, NearRun;
  }

  // ------------------------------------------------- where the assumption matters

  predicate Reports(log: seq<Event>) {
    exists i :: 0 <= i < |log| && log[i].Corrupt?
  }

  /** A gap is reported exactly when its first frame is less than half the index
      range behind the new one; a longer one passes unnoticed. */
  lemma {:induction false} GapReportedExactly(s: State, a: Arrival, dec: Decoder)
    requires s.Wf() && (s.cur >= 0 || s.complete == 0) && Alloc(a.p).Allocated? && a.p.frameIndex < 0x10000
    ensures var missing := (a.p.frameIndex - (OldFlushed(s, a, dec).s.complete + 1)) % 0x10000;
            Reports(StartFrame(Wire, s, a, dec).log) <==> 0 < missing < 0x8000
  {
    var f := OldFlushed(s, a, dec);
    FlushesReportNothing(s, a, dec);
    GapWhen(s.cur, f.s.complete, a.p.frameIndex);
    var gap := Gap(Wire, s.cur, f.s.complete, a.p.frameIndex);
    hide Gap, OldFlushed, Alloc, State.Wf;
    var log := StartFrame(Wire, s, a, dec).log;
    if gap != [] {
      assert log[1 + |f.log|] == gap[0];
    }
  }

  lemma GapWhen(cur: int, complete: int, p: nat)
    requires (cur >= 0 || complete == 0) && p < 0x10000
    ensures var gap := Gap(Wire, cur, complete, p);
            if 0 < (p - (complete + 1)) % 0x10000 < 0x8000 then |gap| == 1 && gap[0].Corrupt? else gap == []
  {
    var next := Add(Bits16, complete, 1);
    ForwardDistance(Bits16, next, p);
    ForwardDistance(Bits16, p, next);
    DistanceFrom(complete, p);
  }

  lemma FlushesReportNothing(s: State, a: Arrival, dec: Decoder)
    requires s.Wf()
    ensures forall i :: 0 <= i < |OldFlushed(s, a, dec).log| ==> !OldFlushed(s, a, dec).log[i].Corrupt?
  {
  }

  lemma DistanceFrom(complete: int, index: int)
    ensures (index - Add(Bits16, complete, 1)) % 0x10000 == (index - (complete + 1)) % 0x10000
  {
  }
}
