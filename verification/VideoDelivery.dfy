/** Error correction seen from the stream: as soon as enough units of a frame
    arrived, whatever came before, the receiver has emitted exactly what the sender cut. */
module VideoDelivery {
  import opened Bytes
  import opened F = Frame
  import opened VideoSteps

  /** These packets carry these units of frame index. */
  predicate Carries(tail: seq<Arrival>, o: Original, index: nat, stream: nat, ids: seq<nat>) {
    && |tail| == |ids| && Arrivals(o, ids)
    && forall i :: 0 <= i < |ids| ==> tail[i].p == o.PacketAt(index, stream, ids[i])
  }

  function Elements(ids: seq<nat>): set<nat> {
    set i | i in ids
  }

  ghost predicate Delivered(log: seq<Event>, index: int, bytes: seq<byte>) {
    exists e :: e in log && e.Emit? && e.index == index && e.result != FecFailed && e.bytes == bytes
  }

  /** After some of the frame's units: it was delivered, or it is being built of
      exactly those units. */
  ghost predicate Progress(u: Outcome, o: Original, index: nat, stream: nat, ids: seq<nat>)
    requires Arrivals(o, ids)
  {
    && u.s.Wf() && u.s.cur == index && u.s.profile == stream
    && if |Elements(ids)| >= |o.src| then u.s.prev == index && Delivered(u.log, index, Concat(o.pieces))
       else u.s.prev != index && u.s.frame == Some(Arrived(o, ids)) && u.s.received == |Elements(ids)|
  }

  lemma {:induction false} DeliveredKept(log: seq<Event>, more: seq<Event>, index: int, bytes: seq<byte>)
    requires Delivered(log, index, bytes) || Delivered(more, index, bytes)
    ensures Delivered(log + more, index, bytes)
  {
    var e :| (e in log || e in more) && e.Emit? && e.index == index && e.result != FecFailed && e.bytes == bytes;
    assert e in log + more;
  }

  lemma {:induction false} ElementsNext(ids: seq<nat>, i: nat)
    ensures Elements(ids + [i]) == Elements(ids) + {i}
    ensures |Elements(ids + [i])| == |Elements(ids)| + (if i in ids then 0 else 1)
  {
    assert Elements(ids + [i]) == Elements(ids) + {i};
  }

  lemma PacketIndexIrrelevant(o: Original, f: Frame, index: nat, stream: nat, i: nat)
    requires f.Wf() && i < |o.src| + |o.par|
    ensures Put(f, o.PacketAt(index, stream, i)) == Put(f, o.PacketAt(0, 0, i))
    ensures Alloc(o.PacketAt(index, stream, i)) == Alloc(o.PacketAt(0, 0, i))
  {
  }

  /** Putting the next unit, as the reference does. */
  lemma {:induction false} PutNext(o: Original, ids: seq<nat>, i: nat)
    requires o.Valid() && Arrivals(o, ids) && i < |o.src| + |o.par|
    ensures var f := Arrived(o, ids);
            && f.Wf() && f.k == |o.src|
            && Arrived(o, ids + [i]) == (match Put(f, o.PacketAt(0, 0, i)) case Some(g) => g case None => f)
            && (Put(f, o.PacketAt(0, 0, i)).Some? <==> i !in ids)
  {
    ArrivedExact(o, ids);
    assert (ids + [i])[..|ids|] == ids;
    assert |o.src[0]| <= o.unitSize;
    var f := Arrived(o, ids);
    hide Assemble, HasPiece;
    assert f.units[i] == if i in ids then o.UnitAt(i) else [];
  }

  /** A unit is added to a frame under construction, which then holds ids. */
  lemma {:induction false} AddNext(s: State, o: Original, stream: nat, ids: seq<nat>, a: Arrival, dec: Decoder,
      before: seq<Event>)
    requires o.Valid() && Corrects(dec, o) && Arrivals(o, ids)
    requires s.Wf() && s.profile == stream && s.cur >= 0 && s.cur != s.prev
    requires match Put(s.frame.value, a.p)
             case Some(g) => Arrived(o, ids) == g && s.received + 1 == |Elements(ids)|
             case None => Arrived(o, ids) == s.frame.value && s.received == |Elements(ids)|
    ensures var u := AddUnit(s, a, dec); Progress(Outcome(u.s, before + u.log), o, s.cur, stream, ids)
  {
    hide Put, Assemble, Corrects, F.Flush, Arrived, AfterFlush;
    var u := AddUnit(s, a, dec);
    ArrivedExact(o, ids);
    if |Elements(ids)| >= |o.src| {
      FecPreservesFrame(o, dec, ids, Elements(ids));
      assert u.log[0] in u.log;
      assert Delivered(u.log, s.cur, Concat(o.pieces));
      DeliveredKept(before, u.log, s.cur, Concat(o.pieces));
    }
  }

  /** The first unit of the frame starts it. */
  lemma {:induction false} FirstUnit(u: Outcome, a: Account, o: Original, index: nat, stream: nat, i: nat,
      ar: Arrival, dec: Decoder, profiles: nat)
    requires o.Valid() && Corrects(dec, o) && i < |o.src| + |o.par| && ar.p == o.PacketAt(index, stream, i)
    requires u.s.Wf() && Accounted(u.s, a) && index > u.s.cur && stream < profiles
    ensures CanStart(Unbounded, u.s, ar.p, profiles)
    ensures var step := AvPacket(Unbounded, u.s, ar, dec, profiles);
            Progress(Outcome(step.s, u.log + step.log), o, index, stream, [i])
  {
    hide Put, Alloc, Arrived, StartFrame, AddUnit, Corrects, Original.Valid, Progress, Accounted;
    FirstArrived(o, index, stream, i);
    assert Elements([i]) == {i};
    var s1 := u.s.(profile := stream);
    var header := if u.s.profile != stream then [Header(stream)] else [];
    var started := StartFrame(Unbounded, s1, ar, dec);
    Started(u.s, s1, a, ar, dec);
    AddNext(started.s, o, stream, [i], ar, dec, u.log + header + started.log);
    var step := AvPacket(Unbounded, u.s, ar, dec, profiles);
    assert u.log + step.log == u.log + header + started.log + AddUnit(started.s, ar, dec).log;
  }

  lemma {:induction false} Started(s: State, t: State, a: Account, ar: Arrival, dec: Decoder)
    requires s.Wf() && Accounted(s, a) && t == s.(profile := t.profile) && Alloc(ar.p).Allocated? && ar.p.frameIndex > s.cur
    ensures var u := StartFrame(Unbounded, t, ar, dec).s;
            u.frame == Some(Alloc(ar.p).frame) && u.received == 0 && u.prev != u.cur && u.profile == t.profile
    ensures NextFrame(Unbounded, s, ar.p) && !(s.cur >= 0 && Unbounded.Before(ar.p.frameIndex, s.cur))
  {
  }

  lemma {:induction false} FirstArrived(o: Original, index: nat, stream: nat, i: nat)
    requires o.Valid() && i < |o.src| + |o.par|
    ensures var p := o.PacketAt(index, stream, i);
            && Alloc(p).Allocated? && Put(Alloc(p).frame, p) == Some(Arrived(o, [i]))
  {
    AnyUnitAllocates(o, index, stream, i);
    AnyUnitAllocates(o, 0, 0, i);
    var f := Alloc(o.PacketAt(0, 0, i)).frame;
    PacketIndexIrrelevant(o, f, index, stream, i);
    assert |o.src[0]| <= o.unitSize;
    assert f.units[i] == [];
    assert Put(f, o.PacketAt(0, 0, i)).Some?;
  }

  /** A further unit of the frame. */
  lemma {:induction false} NextUnit(u: Outcome, o: Original, index: nat, stream: nat, ids: seq<nat>, i: nat,
      ar: Arrival, dec: Decoder, profiles: nat)
    requires o.Valid() && Corrects(dec, o) && i < |o.src| + |o.par| && ar.p == o.PacketAt(index, stream, i)
    requires Arrivals(o, ids) && Progress(u, o, index, stream, ids) && stream < profiles
    ensures CanStart(Unbounded, u.s, ar.p, profiles)
    ensures var step := AvPacket(Unbounded, u.s, ar, dec, profiles);
            Progress(Outcome(step.s, u.log + step.log), o, index, stream, ids + [i])
  {
    ElementsNext(ids, i);
    PutNext(o, ids, i);
    var step := AvPacket(Unbounded, u.s, ar, dec, profiles);
    hide Put, Alloc, Arrived, AddUnit, Corrects, Elements;
    var added := AddUnit(u.s, ar, dec);
    assert step.log == added.log && step.s == added.s;
    if |Elements(ids)| >= |o.src| {
      LateUnit(u.s, ar, dec);
      DeliveredKept(u.log, added.log, index, Concat(o.pieces));
    } else {
      PacketIndexIrrelevant(o, Arrived(o, ids), index, stream, i);
      AddNext(u.s, o, stream, ids + [i], ar, dec, u.log);
    }
  }

  /** Units that arrive after their frame was emitted change nothing of it. */
  lemma {:induction false} LateUnit(s: State, a: Arrival, dec: Decoder)
    requires s.Wf() && s.cur >= 0 && s.cur == s.prev
    ensures var u := AddUnit(s, a, dec);
            u.log == [] && u.s.cur == s.cur && u.s.prev == s.prev && u.s.profile == s.profile
  {
  }

  /** Whatever the stream before it, once as many different units of a frame
      arrived as it has source units, in any order and with repetitions, the
      receiver has emitted the frame byte for byte as the sender cut it; before that
      it is still building the frame out of exactly the units that arrived. */
  lemma {:induction false} EnoughUnitsDeliver(pre: seq<Arrival>, tail: seq<Arrival>, o: Original, index: nat,
      stream: nat,
      ids: seq<nat>, dec: Decoder, profiles: nat)
    requires o.Valid() && Corrects(dec, o) && Carries(tail, o, index, stream, ids) && stream < profiles
    requires Run(Unbounded, pre, dec, profiles).Some? && index > Run(Unbounded, pre, dec, profiles).value.s.cur
    ensures Run(Unbounded, pre + tail, dec, profiles).Some?
    ensures Progress(Run(Unbounded, pre + tail, dec, profiles).value, o, index, stream, ids)
    decreases |ids|
  {
    hide Progress, Corrects, AvPacket, Accounted, CanStart;
    var n := |ids| - 1;
    assert (pre + tail)[..|pre + tail| - 1] == pre + tail[..n];
    assert ids == ids[..n] + [ids[n]];
    if n == 0 {
      assert pre + tail[..0] == pre;
      RunAccounted(pre, dec, profiles);
      var u := Run(Unbounded, pre, dec, profiles).value;
      FirstUnit(u, Book(Idle(-1), u.log), o, index, stream, ids[0], tail[0], dec, profiles);
    } else {
      EnoughUnitsDeliver(pre, tail[..n], o, index, stream, ids[..n], dec, profiles);
      var u := Run(Unbounded, pre + tail[..n], dec, profiles).value;
      NextUnit(u, o, index, stream, ids[..n], ids[n], tail[n], dec, profiles);
    }
  }

  /** Too few units of a frame arrived before another one begins: the frame is
      given to the callback as it is, the pieces that arrived in the sender's
      order, and marked as failed if the decoder gave up. */
  lemma {:induction false} UnfinishedIsEmitted(u: Outcome, o: Original, index: nat, stream: nat, ids: seq<nat>,
      ar: Arrival, dec: Decoder, profiles: nat)
    requires o.Valid() && Arrivals(o, ids) && Progress(u, o, index, stream, ids) && |Elements(ids)| < |o.src|
    requires Decode(Arrived(o, ids), dec) == None
    requires ar.p.frameIndex > index && Alloc(ar.p).Allocated? && (ar.p.streamIndex == stream || ar.p.streamIndex < profiles)
    ensures Emit(index, FecFailed, Concat(ArrivedPieces(o, ids)), ar.shownOld)
            in AvPacket(Unbounded, u.s, ar, dec, profiles).log
  {
    var f := Arrived(o, ids);
    UndecodedFrame(o, dec, ids);
    FewReceived(o, ids);
    hide Arrived, Alloc, Put, Decode, Elements, Assemble, Concat, ArrivedPieces, Original.Valid;
    var s1 := u.s.(profile := ar.p.streamIndex);
    var flushed := OldFlushed(s1, ar, dec);
    assert flushed.log == [Emit(index, FecFailed, Concat(ArrivedPieces(o, ids)), ar.shownOld)];
    StartHasFlush(Unbounded, s1, ar, dec);
    hide AddUnit, OldFlushed;
    StepHasStart(Unbounded, u.s, ar, dec, profiles);
    var e := flushed.log[0];
    assert e in flushed.log;
  }

  lemma {:induction false} FewReceived(o: Original, ids: seq<nat>)
    requires o.Valid() && Arrivals(o, ids) && |Elements(ids)| < |o.src|
    ensures var f := Arrived(o, ids); f.Wf() && f.k == |o.src| && SourceReceived(f) < f.k
  {
    ArrivedExact(o, ids);
    SourceCount(o, ids);
    hide Arrived, Original.Valid;
    if forall i :: 0 <= i < |o.src| ==> i in ids {
      AllThere(|o.src|, ids);
    }
  }

  lemma {:induction false} AllThere(n: nat, ids: seq<nat>)
    requires forall i :: 0 <= i < n ==> i in ids
    ensures |Elements(ids)| >= n
  {
    Smaller(Below(n), Elements(ids));
  }

  function Below(n: nat): (s: set<nat>)
    ensures |s| == n && forall i: nat :: i in s <==> i < n
  {
    if n == 0 then {} else Below(n - 1) + {n - 1}
  }

  lemma {:induction false} Smaller(a: set<nat>, b: set<nat>)
    requires a <= b
    ensures |a| <= |b|
  {
    if a != {} {
      var x :| x in a;
      Smaller(a - {x}, b - {x});
    }
  }

  lemma StartHasFlush(c: Clock, s: State, a: Arrival, dec: Decoder)
    requires s.Wf() && Alloc(a.p).Allocated?
    ensures forall e :: e in OldFlushed(s, a, dec).log ==> e in StartFrame(c, s, a, dec).log
  {
    hide Alloc, OldFlushed, Gap;
  }

  lemma StepHasStart(c: Clock, s: State, a: Arrival, dec: Decoder, profiles: nat)
    requires s.Wf() && CanStart(c, s, a.p, profiles) && !Ignored(c, s, a.p, profiles) && NextFrame(c, s, a.p)
    ensures forall e :: e in StartFrame(c, s.(profile := a.p.streamIndex), a, dec).log ==> e in AvPacket(c, s, a, dec, profiles).log
  {
    hide StartFrame, AddUnit, Alloc;
  }
}
