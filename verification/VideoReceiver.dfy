/** The video receiver: one packet at a time, with the frame processor's buffers. */
module VideoReceiver {
  import opened Bytes
  import opened F = Frame
  import opened P = FrameProcessor
  import opened V = VideoSteps

  const PROFILES_MAX: nat := 8

  class VideoReceiver {
    const frameProcessor: FrameProcessor
    var profilesCount: nat
    var profileCur: int
    var frameIndexCur: int
    var frameIndexPrev: int
    var frameIndexPrevComplete: int

    ghost predicate Valid()
      reads this, frameProcessor, frameProcessor.frameBuf, frameProcessor.unitSlots
    {
      && frameProcessor.Valid()
      && (frameProcessor.ready <==> frameIndexCur >= 0)
      && (frameIndexCur < 0 ==> Unused())
      && (frameIndexCur >= 0 && frameIndexPrev != frameIndexCur ==> frameProcessor.intact || frameProcessor.model.k == 0)
    }

    /** The frame processor as it was initialised. */
    ghost predicate Unused()
      reads frameProcessor
    {
      && frameProcessor.flushed && frameProcessor.sourceReceived + frameProcessor.fecReceived == 0
      && frameProcessor.sourceExpected + frameProcessor.fecExpected == 0
    }

    ghost function View(): (s: State)
      requires Valid()
      reads this, frameProcessor, frameProcessor.frameBuf, frameProcessor.unitSlots
      ensures s.Wf()
    {
      State(frameIndexCur, frameIndexPrev, frameIndexPrevComplete, profileCur,
            if frameProcessor.ready then Some(frameProcessor.model) else None,
            frameProcessor.sourceReceived + frameProcessor.fecReceived)
    }

    /** chiaki_video_receiver_init. */
    constructor ()
      ensures Valid() && View() == INIT && profilesCount == 0
      ensures fresh(frameProcessor) && fresh(frameProcessor.frameBuf) && fresh(frameProcessor.unitSlots)
    {
      frameProcessor := new FrameProcessor();
      profilesCount := 0;
      profileCur := -1;
      frameIndexCur, frameIndexPrev, frameIndexPrevComplete := -1, -1, 0;
    }

    /** chiaki_video_receiver_stream_info. */
    method StreamInfo(count: nat)
      requires count <= PROFILES_MAX
      modifies this`profilesCount
      ensures profilesCount == if old(profilesCount) > 0 then old(profilesCount) else count
    {
      if profilesCount > 0 {
        return;
      }
      profilesCount := count;
    }

    /** chiaki_video_receiver_flush_frame. */
    method FlushFrame(dec: Decoder, shown: bool) returns (log: seq<Event>)
      requires Valid() && frameIndexCur >= 0 && frameIndexPrev != frameIndexCur
      modifies this`frameIndexPrev, this`frameIndexPrevComplete
      modifies frameProcessor, frameProcessor.frameBuf, frameProcessor.unitSlots
      ensures Valid() && Outcome(View(), log) == V.FlushFrame(old(View()), dec, shown)
      ensures frameProcessor.frameBuf == old(frameProcessor.frameBuf) && frameProcessor.unitSlots == old(frameProcessor.unitSlots)
    {
      hide F.Flush, AfterFlush, FrameProcessor.Consistent;
      SourceExpected();
      var r, size := frameProcessor.Flush(dec);
      if r == FlushFailed {
        return [];
      }
      var succ := r != FecFailed;
      log := [Emit(frameIndexCur, r, frameProcessor.frameBuf[..size], shown)];
      if !shown {
        succ := false;
      }
      frameIndexPrev := frameIndexCur;
      if succ {
        frameIndexPrevComplete := frameIndexCur;
      }
    }

    lemma SourceExpected()
      requires Valid() && frameProcessor.ready
      ensures frameProcessor.sourceExpected == frameProcessor.model.k
      ensures frameProcessor.fecExpected == frameProcessor.model.m
      ensures frameProcessor.unitSlots.Length == frameProcessor.model.k + frameProcessor.model.m
      ensures frameProcessor.model.Wf()
    {
    }

    lemma Counters()
      requires Valid()
      ensures frameProcessor.sourceReceived + frameProcessor.fecReceived
              <= frameProcessor.sourceExpected + frameProcessor.fecExpected
    {
      if frameProcessor.ready {
        assert frameProcessor.Consistent();
      }
    }

    /** The part of av_packet that begins a frame. */
    method StartFrame(a: Arrival, dec: Decoder) returns (log: seq<Event>)
      requires Valid() && Alloc(a.p).Allocated? && (frameIndexCur < 0 || Wire.After(a.p.frameIndex, frameIndexCur))
      modifies this, frameProcessor, frameProcessor.frameBuf, frameProcessor.unitSlots
      ensures Valid() && Outcome(View(), log) == V.StartFrame(Wire, old(View()), a, dec)
      ensures profilesCount == old(profilesCount) && profileCur == old(profileCur)
      ensures frameIndexCur >= 0 && frameProcessor.model == Alloc(a.p).frame
      ensures frameProcessor.frameBuf == old(frameProcessor.frameBuf) || fresh(frameProcessor.frameBuf)
      ensures frameProcessor.unitSlots == old(frameProcessor.unitSlots) || fresh(frameProcessor.unitSlots)
    {
      hide V.OldFlushed, V.Gap, F.Alloc, FrameProcessor.Consistent, F.Frame.Wf;
      Counters();
      if frameIndexCur >= 0 {
        SourceExpected();
      }
      var received, lost := frameProcessor.ReportPacketStats();
      var flushed := FlushOld(a, dec);
      var corrupt := ReportGap(a.p.frameIndex);
      frameIndexCur := a.p.frameIndex;
      var r := frameProcessor.AllocFrame(a.p);
      SourceExpected();
      log := [Stats(received, lost)] + flushed + corrupt + [Begin(a.p.frameIndex, frameProcessor.sourceExpected)];
    }

    /** Flushes the old frame if that was not done yet. */
    method FlushOld(a: Arrival, dec: Decoder) returns (flushed: seq<Event>)
      requires Valid()
      modifies this`frameIndexPrev, this`frameIndexPrevComplete
      modifies frameProcessor, frameProcessor.frameBuf, frameProcessor.unitSlots
      ensures Valid() && Outcome(View(), flushed) == V.OldFlushed(old(View()), a, dec)
      ensures frameProcessor.frameBuf == old(frameProcessor.frameBuf) && frameProcessor.unitSlots == old(frameProcessor.unitSlots)
    {
      hide V.FlushFrame, FrameProcessor.Consistent;
      flushed := [];
      if frameIndexCur >= 0 && frameIndexPrev != frameIndexCur {
        flushed := FlushFrame(dec, a.shownOld);
      }
    }

    /** The corrupt-frame report for the frames skipped before frame p. */
    method ReportGap(p: nat) returns (corrupt: seq<Event>)
      ensures corrupt == V.Gap(Wire, frameIndexCur, frameIndexPrevComplete, p)
    {
      var next := Wire.Shift(frameIndexPrevComplete, 1);
      corrupt := [];
      if Wire.After(p, next) && !(p == 1 && frameIndexCur < 0) {
        corrupt := [Corrupt(next, Wire.Shift(p, -1))];
      }
    }

    /** The part of av_packet that stores the unit and flushes a frame that has
        enough of them. */
    method AddUnit(a: Arrival, dec: Decoder) returns (log: seq<Event>)
      requires Valid() && frameIndexCur >= 0 && a.p.unitIndex != frameProcessor.model.k + frameProcessor.model.m
      modifies this`frameIndexPrev, this`frameIndexPrevComplete
      modifies frameProcessor, frameProcessor.frameBuf, frameProcessor.unitSlots
      ensures Valid() && Outcome(View(), log) == V.AddUnit(old(View()), a, dec)
      ensures frameProcessor.frameBuf == old(frameProcessor.frameBuf) && frameProcessor.unitSlots == old(frameProcessor.unitSlots)
    {
      hide V.FlushFrame, Put, FrameProcessor.Consistent;
      PutKeepsLayout(frameProcessor, a.p);
      SourceExpected();
      var r := frameProcessor.PutUnit(a.p);
      log := [];
      if frameIndexCur != frameIndexPrev {
        SourceExpected();
        if frameProcessor.FlushPossible() {
          log := FlushFrame(dec, a.shownNew);
        }
      }
    }

    /** chiaki_video_receiver_av_packet. */
    method AvPacket(a: Arrival, dec: Decoder) returns (log: seq<Event>)
      requires Valid() && CanStart(Wire, View(), a.p, profilesCount)
      requires a.p.unitIndex != Slots(Wire, View(), a.p)
      modifies this, frameProcessor, frameProcessor.frameBuf, frameProcessor.unitSlots
      ensures Valid() && Outcome(View(), log) == V.AvPacket(Wire, old(View()), a, dec, old(profilesCount))
      ensures profilesCount == old(profilesCount)
      ensures frameProcessor.frameBuf == old(frameProcessor.frameBuf) || fresh(frameProcessor.frameBuf)
      ensures frameProcessor.unitSlots == old(frameProcessor.unitSlots) || fresh(frameProcessor.unitSlots)
    {
      hide V.StartFrame, V.AddUnit, F.Alloc, FrameProcessor.Consistent, S.Lt, S.Gt;
      if frameIndexCur >= 0 && Wire.Before(a.p.frameIndex, frameIndexCur) {
        return [];
      }
      log := [];
      if profileCur < 0 || profileCur != a.p.streamIndex {
        if a.p.streamIndex >= profilesCount {
          return [];
        }
        profileCur := a.p.streamIndex;
        log := [Header(a.p.streamIndex)];
      }
      if frameIndexCur < 0 || Wire.After(a.p.frameIndex, frameIndexCur) {
        var started := StartFrame(a, dec);
        log := log + started;
      }
      var added := AddUnit(a, dec);
      log := log + added;
    }
  }

  /** How many unit slots there are when the packet's unit is stored. */
  ghost function Slots(c: Clock, s: State, p: Packet): int
    requires s.Wf()
  {
    if NextFrame(c, s, p) then (match Alloc(p) case Allocated(f) => f.k + f.m case _ => -1)
    else s.frame.value.k + s.frame.value.m
  }

  lemma PutKeepsLayout(fp: FrameProcessor, p: Packet)
    requires fp.Valid() && fp.ready
    ensures Put(fp.model, p).Some? ==> Put(fp.model, p).value.k == fp.model.k
  {
  }
}
