/** The frame processor: units are collected side by side in one buffer, lost
    ones are decoded in place, and the frame is compacted inside that buffer. */
module FrameProcessor {
  import opened Arith
  import opened Bytes
  import opened F = Frame

  const BUFFER_PADDING: nat := 64

  datatype ErrorCode = Success | InvalidData | TooSmall

  /** Where unit i begins. */
  function Off(i: nat, stride: nat): nat {
    i * stride
  }

  lemma OffZero(stride: nat)
    ensures Off(0, stride) == 0
  {
  }

  lemma {:induction false} OffNext(i: nat, stride: nat)
    ensures Off(i + 1, stride) == Off(i, stride) + stride
  {
  }

  lemma {:induction false} OffBefore(i: nat, j: nat, stride: nat)
    requires i < j
    ensures Off(i, stride) + stride <= Off(j, stride)
    decreases j
  {
    OffNext(j - 1, stride);
    if i < j - 1 {
      OffBefore(i, j - 1, stride);
    }
  }

  lemma {:induction false} RowEndsInside(i: nat, n: nat, stride: nat)
    requires i < n
    ensures Off(i + 1, stride) <= Off(n, stride)
  {
    OffNext(i, stride);
    OffBefore(i, n, stride);
  }

  /** The row at off holds unit u followed by zeros. */
  ghost predicate RowIs(buf: seq<byte>, off: nat, stride: nat, u: Unit) {
    && off + stride <= |buf| && |u| <= stride
    && buf[off..off + |u|] == u
    && forall j :: off + |u| <= j < off + stride ==> buf[j] == 0
  }

  ghost predicate Holds(buf: seq<byte>, stride: nat, units: seq<Unit>) {
    forall i :: 0 <= i < |units| ==> RowIs(buf, Off(i, stride), stride, units[i])
  }

  ghost predicate Sizes(slots: seq<nat>, units: seq<Unit>) {
    |slots| == |units| && forall i :: 0 <= i < |units| ==> slots[i] == |units[i]|
  }

  /** Writing one row leaves the others alone. */
  lemma {:induction false} RowWritten(a: seq<byte>, b: seq<byte>, stride: nat, units: seq<Unit>, at: nat, u: Unit)
    requires |a| == |b| && at < |units| && Holds(a, stride, units) && units[at] == [] && |u| <= stride
    requires var off := Off(at, stride);
             && off + |u| <= |a| && b[off..off + |u|] == u
             && forall j :: 0 <= j < off || off + |u| <= j < |a| ==> b[j] == a[j]
    ensures Holds(b, stride, units[at := u])
  {
    var off := Off(at, stride);
    forall i | 0 <= i < |units|
      ensures RowIs(b, Off(i, stride), stride, units[at := u][i])
    {
      assert RowIs(a, Off(i, stride), stride, units[i]);
      if i < at {
        OffBefore(i, at, stride);
      } else if i > at {
        OffBefore(at, i, stride);
      }
    }
  }

  /** A zeroed buffer holds empty units. */
  lemma {:induction false} ZeroedHolds(buf: seq<byte>, stride: nat, n: nat)
    requires Off(n, stride) <= |buf| && forall j :: 0 <= j < Off(n, stride) ==> buf[j] == 0
    ensures Holds(buf, stride, Empties(n))
  {
    forall i | 0 <= i < n
      ensures RowIs(buf, Off(i, stride), stride, Empties(n)[i])
    {
      OffBefore(i, n, stride);
    }
  }

  lemma {:induction false} NothingReceived(f: Frame)
    requires f.Wf() && f.units == Empties(f.k + f.m)
    ensures SourceReceived(f) == 0 && FecReceived(f) == 0
  {
    FilledEmpties(f.k);
    FilledEmpties(f.m);
    assert f.units[..f.k] == Empties(f.k) && f.units[f.k..] == Empties(f.m);
  }

  /** The slot sizes are all put_unit needs to decide. */
  lemma {:induction false} PutDecides(slots: seq<nat>, f: Frame, p: Packet)
    requires f.Wf() && Sizes(slots, f.units)
    ensures Put(f, p) == None <==>
              p.unitIndex >= |slots| || |p.data| == 0 || |p.data| > f.unitSize || slots[p.unitIndex] != 0
  {
  }

  lemma {:induction false} SizesJoin(slots: seq<nat>, us: seq<Unit>, f: Frame)
    requires |us| == f.k <= |f.units| == |slots|
    requires forall i :: 0 <= i < f.k ==> slots[i] == |us[i]|
    requires forall i :: f.k <= i < |slots| ==> slots[i] == |f.units[i]|
    ensures Sizes(slots, Join(f, us).units)
  {
  }

  lemma {:induction false} SizesPut(slots: seq<nat>, f: Frame, p: Packet)
    requires f.Wf() && Sizes(slots, f.units) && Put(f, p).Some?
    ensures p.unitIndex < |f.units| == |slots| && f.units[p.unitIndex] == [] && 0 < |p.data| <= f.unitSize
    ensures Put(f, p).value == f.(units := f.units[p.unitIndex := p.data])
    ensures Sizes(slots[p.unitIndex := |p.data|], Put(f, p).value.units)
  {
  }

  class FrameProcessor {
    var frameBuf: array<byte>
    var frameBufSize: nat
    var bufSizePerUnit: nat
    var stride: nat
    var sourceExpected: nat
    var fecExpected: nat
    var sourceReceived: nat
    var fecReceived: nat
    var unitSlots: array<nat>
    var flushed: bool
    var statFrames: nat
    var statBytes: nat
    /** Whether the last allocation succeeded, and whether the buffer still holds
        the units as they arrived, i.e. the frame has not been flushed. */
    ghost var ready: bool
    ghost var intact: bool
    ghost var model: Frame

    /** The relation between the buffers and the frame between a successful
        allocation and the next one. */
    ghost predicate Valid()
      reads this, frameBuf, unitSlots
    {
      && frameBuf as object != unitSlots
      && frameBuf.Length == frameBufSize + BUFFER_PADDING
      && (ready ==> Consistent())
    }

    ghost predicate Consistent()
      reads this, frameBuf, unitSlots
    {
      && !flushed && model.Wf()
      && sourceExpected == model.k && fecExpected == model.m && bufSizePerUnit == model.unitSize <= stride
      && Off(model.k + model.m, stride) <= frameBufSize && stride >= 2
      && frameBufSize <= frameBuf.Length
      && Sizes(unitSlots[..], model.units)
      && sourceReceived <= SourceReceived(model) && fecReceived <= FecReceived(model)
      && (intact ==>
            && sourceReceived == SourceReceived(model) && fecReceived == FecReceived(model)
            && Holds(frameBuf[..], stride, model.units))
    }

    constructor ()
      ensures Valid() && !ready && flushed && fresh(frameBuf) && fresh(unitSlots)
      ensures sourceReceived + fecReceived == sourceExpected + fecExpected == 0
    {
      frameBuf := new byte[BUFFER_PADDING];
      frameBufSize := 0;
      bufSizePerUnit, stride := 0, 0;
      sourceExpected, fecExpected, sourceReceived, fecReceived := 0, 0, 0, 0;
      unitSlots := new nat[0];
      flushed := true;
      statFrames, statBytes := 0, 0;
      ready, intact := false, false;
    }

    /** chiaki_frame_processor_report_packet_stats. */
    method ReportPacketStats() returns (received: nat, lost: nat)
      requires Valid() && sourceReceived + fecReceived <= sourceExpected + fecExpected
      ensures received == sourceReceived + fecReceived && received + lost == sourceExpected + fecExpected
      ensures ready && intact ==> received == SourceReceived(model) + FecReceived(model) && lost == |Missing(model.units)|
    {
      received := sourceReceived + fecReceived;
      lost := sourceExpected + fecExpected - received;
      if ready && intact {
        ErasuresFit(model);
      }
    }

    /** chiaki_frame_processor_flush_possible. */
    predicate FlushPossible()
      reads this`sourceReceived, this`fecReceived, this`sourceExpected
    {
      sourceReceived + fecReceived >= sourceExpected
    }

    /** chiaki_frame_processor_alloc_frame. */
    method AllocFrame(p: Packet) returns (r: ErrorCode)
      requires Valid()
      modifies this, frameBuf, unitSlots
      ensures Valid()
      ensures frameBuf == old(frameBuf) || fresh(frameBuf)
      ensures unitSlots == old(unitSlots) || fresh(unitSlots)
      ensures ready <==> Alloc(p).Allocated?
      ensures ready ==> r == Success && model == Alloc(p).frame && intact && sourceReceived + fecReceived == 0
      ensures r == InvalidData <==> Alloc(p) == AllocInvalidData
      ensures r == TooSmall <==> Alloc(p) == AllocTooSmall
      ensures statFrames == old(statFrames) && statBytes == old(statBytes)
    {
      hide Alloc, Off, Holds, RowIs, Filled, SourceReceived, FecReceived;
      ready := false;
      r := ReadLayout(p);
      if r != Success {
        return;
      }
      ClearBuffers(sourceExpected + fecExpected);
      ready, intact := true, true;
      model := Alloc(p).frame;
      ClearedConsistent();
    }

    lemma {:induction false} ClearedConsistent()
      requires !flushed && model.Wf() && model.units == Empties(model.k + model.m)
      requires sourceExpected == model.k && fecExpected == model.m && bufSizePerUnit == model.unitSize
      requires bufSizePerUnit <= stride && 2 <= stride && sourceReceived == fecReceived == 0
      requires unitSlots.Length == model.k + model.m && forall i :: 0 <= i < unitSlots.Length ==> unitSlots[i] == 0
      requires Off(model.k + model.m, stride) <= frameBufSize <= frameBuf.Length
      requires forall j :: 0 <= j < Off(model.k + model.m, stride) ==> frameBuf[j] == 0
      ensures Consistent()
    {
      hide Off, Holds, Filled, SourceReceived, FecReceived, RowIs;
      NothingReceived(model);
      ZeroedHolds(frameBuf[..], stride, model.k + model.m);
    }

    /** The checks and sizes alloc_frame reads off a frame's first packet. */
    method ReadLayout(p: Packet) returns (r: ErrorCode)
      modifies this`flushed, this`sourceExpected, this`fecExpected, this`bufSizePerUnit, this`stride
      modifies this`sourceReceived, this`fecReceived
      ensures r == Success <==> Alloc(p).Allocated?
      ensures r == InvalidData <==> Alloc(p) == AllocInvalidData
      ensures r == TooSmall <==> Alloc(p) == AllocTooSmall
      ensures r == Success ==>
                var f := Alloc(p).frame;
                && !flushed && sourceExpected == f.k && fecExpected == f.m && bufSizePerUnit == f.unitSize
                && bufSizePerUnit <= stride && 2 <= stride && sourceReceived == fecReceived == 0
    {
      if p.unitsTotal < p.unitsFec {
        return InvalidData;
      }
      flushed := false;
      sourceExpected := p.unitsTotal - p.unitsFec;
      fecExpected := p.unitsFec;
      if fecExpected < 1 {
        fecExpected := 1;
      }
      bufSizePerUnit := |p.data|;
      if p.isVideo && p.unitIndex < sourceExpected {
        if |p.data| < 2 {
          return TooSmall;
        }
        bufSizePerUnit := bufSizePerUnit + Read16(p.data, 0);
      }
      stride := (bufSizePerUnit + 0xf) / 0x10 * 0x10;
      if bufSizePerUnit == 0 {
        return TooSmall;
      }
      sourceReceived, fecReceived := 0, 0;
      if sourceExpected + fecExpected > UNIT_SLOTS_MAX {
        return InvalidData;
      }
      r := Success;
    }

    /** Sizes the slot array and the frame buffer, and zeroes what is used. */
    method ClearBuffers(required: nat)
      requires frameBuf as object != unitSlots && frameBuf.Length == frameBufSize + BUFFER_PADDING
      modifies this`frameBuf, this`frameBufSize, this`unitSlots, frameBuf, unitSlots
      ensures frameBuf as object != unitSlots && frameBuf.Length == frameBufSize + BUFFER_PADDING
      ensures frameBuf == old(frameBuf) || fresh(frameBuf)
      ensures unitSlots == old(unitSlots) || fresh(unitSlots)
      ensures unitSlots.Length == required && forall i :: 0 <= i < required ==> unitSlots[i] == 0
      ensures Off(required, stride) <= frameBufSize
      ensures forall j :: 0 <= j < Off(required, stride) ==> frameBuf[j] == 0
    {
      if required != unitSlots.Length {
        unitSlots := new nat[required];
      }
      forall i | 0 <= i < unitSlots.Length {
        unitSlots[i] := 0;
      }
      var needed := Off(required, stride);
      if frameBufSize < needed {
        frameBuf := new byte[needed + BUFFER_PADDING];
        frameBufSize := needed;
      }
      forall j | 0 <= j < needed + BUFFER_PADDING {
        frameBuf[j] := 0;
      }
    }

    /** chiaki_frame_processor_put_unit. */
    method PutUnit(p: Packet) returns (r: ErrorCode)
      requires Valid() && ready && p.unitIndex != unitSlots.Length
      modifies this`sourceReceived, this`fecReceived, this`model, frameBuf, unitSlots
      ensures Valid()
      ensures match Put(old(model), p)
              case None => r == InvalidData && model == old(model)
                           && sourceReceived == old(sourceReceived) && fecReceived == old(fecReceived)
              case Some(after) => r == Success && model == after
                                  && sourceReceived + fecReceived == old(sourceReceived + fecReceived) + 1
    {
      PutDecides(unitSlots[..], model, p);
      hide Put, Off, Holds, Filled, SourceReceived, FecReceived, Sizes;
      if p.unitIndex > unitSlots.Length {
        return InvalidData;
      }
      if |p.data| == 0 || |p.data| > bufSizePerUnit {
        return InvalidData;
      }
      if unitSlots[p.unitIndex] != 0 {
        return InvalidData;
      }
      StoreUnit(p);
      r := Success;
    }

    method StoreUnit(p: Packet)
      requires Valid() && ready && Put(model, p).Some?
      modifies this`sourceReceived, this`fecReceived, this`model, frameBuf, unitSlots
      ensures Valid() && model == Put(old(model), p).value
      ensures sourceReceived + fecReceived == old(sourceReceived + fecReceived) + 1
    {
      SizesPut(unitSlots[..], model, p);
      OffBefore(p.unitIndex, model.k + model.m, stride);
      hide Put, Off, Holds, Filled, SourceReceived, FecReceived, Sizes, Frame.Wf, RowIs;
      ghost var m := model;
      ghost var buf := frameBuf[..];
      ghost var slots: seq<nat> := unitSlots[..];
      ghost var source, fec := sourceReceived, fecReceived;
      assert Before(m, buf, slots, source, fec);
      var off := Off(p.unitIndex, stride);
      hide Consistent, Before;
      unitSlots[p.unitIndex] := |p.data|;
      CopyUnit(off, p.data);
      CountUnit(p.unitIndex);
      model := Put(model, p).value;
      AfterStore(p, m, buf, slots, source, fec);
    }

    /** What Consistent() says of a frame whose buffers had these contents. */
    ghost predicate Before(m: Frame, buf: seq<byte>, slots: seq<nat>, source: nat, fec: nat)
      reads this`flushed, this`sourceExpected, this`fecExpected, this`bufSizePerUnit, this`stride, this`frameBufSize, this`intact
    {
      && Loose(m, slots, source, fec) && |buf| == frameBufSize + BUFFER_PADDING
      && (intact ==> source == SourceReceived(m) && fec == FecReceived(m) && Holds(buf, stride, m.units))
    }

    /** The part of it that flushing does not invalidate. */
    ghost predicate Loose(m: Frame, slots: seq<nat>, source: nat, fec: nat)
      reads this`flushed, this`sourceExpected, this`fecExpected, this`bufSizePerUnit, this`stride, this`frameBufSize
    {
      && !flushed && m.Wf()
      && sourceExpected == m.k && fecExpected == m.m && bufSizePerUnit == m.unitSize <= stride
      && Off(m.k + m.m, stride) <= frameBufSize && stride >= 2
      && Sizes(slots, m.units)
      && source <= SourceReceived(m) && fec <= FecReceived(m)
    }

    lemma {:induction false} AfterStore(p: Packet, m: Frame, buf: seq<byte>, slots: seq<nat>, source: nat, fec: nat)
      requires Before(m, buf, slots, source, fec) && Put(m, p).Some? && model == Put(m, p).value
      requires frameBuf.Length == |buf| && unitSlots.Length == |slots| && p.unitIndex < |slots|
      requires unitSlots[..] == slots[p.unitIndex := |p.data|]
      requires sourceReceived == source + (if p.unitIndex < sourceExpected then 1 else 0)
      requires fecReceived == fec + (if p.unitIndex < sourceExpected then 0 else 1)
      requires var off := Off(p.unitIndex, stride);
               && off + |p.data| <= |buf| && frameBuf[off..off + |p.data|] == p.data
               && forall j :: 0 <= j < off || off + |p.data| <= j < |buf| ==> frameBuf[j] == buf[j]
      ensures Consistent()
    {
      hide Put, Off, Holds, Filled, SourceReceived, FecReceived, Sizes, RowIs, Frame.Wf;
      PutCounts(m, p);
      SizesPut(slots, m, p);
      if intact {
        RowWritten(buf, frameBuf[..], stride, m.units, p.unitIndex, p.data);
      }
    }

    method CopyUnit(off: nat, data: Unit)
      requires off + |data| <= frameBuf.Length
      modifies frameBuf
      ensures !flushed ==> frameBuf[off..off + |data|] == data
      ensures forall j :: 0 <= j < off || off + |data| <= j < frameBuf.Length ==> frameBuf[j] == old(frameBuf[j])
    {
      if !flushed {
        Memcpy(frameBuf, off, data);
      }
    }

    method CountUnit(unitIndex: nat)
      modifies this`sourceReceived, this`fecReceived
      ensures sourceReceived == old(sourceReceived) + (if unitIndex < sourceExpected then 1 else 0)
      ensures fecReceived == old(fecReceived) + (if unitIndex < sourceExpected then 0 else 1)
    {
      if unitIndex < sourceExpected {
        sourceReceived := sourceReceived + 1;
      } else {
        fecReceived := fecReceived + 1;
      }
    }

    /** chiaki_frame_processor_fec's erasure list. */
    method ListErasures() returns (erasures: array<nat>)
      requires Valid() && ready && intact
      ensures fresh(erasures) && erasures[..] == Missing(model.units)
    {
      ErasuresFit(model);
      erasures := new nat[sourceExpected + fecExpected - (sourceReceived + fecReceived)];
      FillErasures(erasures, model.units);
    }

    method FillErasures(erasures: array<nat>, ghost units: seq<Unit>)
      requires Sizes(unitSlots[..], units) && erasures.Length == |Missing(units)| && erasures != unitSlots
      modifies erasures
      ensures erasures[..] == Missing(units)
    {
      hide Missing;
      MissingNext(units, 0);
      var index := 0;
      var i := 0;
      while i < unitSlots.Length
        invariant i <= unitSlots.Length && index <= erasures.Length
        invariant erasures[..index] == Missing(units[..i])
      {
        MissingNext(units, i);
        assert unitSlots[..][i] == |units[i]|;
        if unitSlots[i] == 0 {
          MissingPrefix(units, i + 1);
          erasures[index] := i;
          index := index + 1;
        }
        i := i + 1;
      }
      assert units[..i] == units;
    }

    /** Where a unit is, padded. */
    lemma {:induction false} RowAt(i: nat)
      requires Valid() && ready && intact && i < |model.units|
      ensures Off(i, stride) + bufSizePerUnit <= frameBuf.Length
      ensures frameBuf[Off(i, stride)..Off(i, stride) + bufSizePerUnit] == Pad(model.units[i], model.unitSize)
    {
      hide Off, Filled, SourceReceived, FecReceived, RowIs, Sizes, Pad;
      OffBefore(i, |model.units|, stride);
      PaddedRow(frameBuf[..], Off(i, stride), stride, model.units[i], model.unitSize);
    }

    /** The padded units as the decoder sees them. */
    method ReadRows() returns (rows: seq<Unit>)
      requires Valid() && ready && intact
      ensures rows == Rows(model)
    {
      hide Off, Pad, Filled, SourceReceived, FecReceived, Sizes, Holds;
      var n := sourceExpected + fecExpected;
      rows := [];
      var i := 0;
      while i < n
        invariant i <= n && |rows| == i
        invariant forall j :: 0 <= j < i ==> rows[j] == Pad(model.units[j], model.unitSize)
      {
        RowAt(i);
        rows := rows + [frameBuf[Off(i, stride)..Off(i, stride) + bufSizePerUnit]];
        i := i + 1;
      }
    }

    /** The decoder's output replaces the units in place. */
    method WriteRows(rows: seq<Unit>)
      requires forall i :: 0 <= i < |rows| ==> |rows[i]| == bufSizePerUnit <= stride
      requires Off(|rows|, stride) <= frameBuf.Length
      modifies frameBuf
      ensures forall i :: 0 <= i < |rows| ==> RowStarts(frameBuf[..], Off(i, stride), rows[i])
      ensures forall i :: 0 <= i < |rows| ==> SameBetween(old(frameBuf[..]), frameBuf[..], Off(i, stride) + bufSizePerUnit, Off(i + 1, stride))
    {
      hide Off;
      ghost var before := frameBuf[..];
      forall j | 0 <= j < |rows|
        ensures SameBetween(before, before, Off(j, stride) + bufSizePerUnit, Off(j + 1, stride))
      {
        RowEndsInside(j, |rows|, stride);
      }
      var i := 0;
      while i < |rows|
        invariant i <= |rows|
        invariant forall j :: 0 <= j < i ==> RowStarts(frameBuf[..], Off(j, stride), rows[j])
        invariant forall j :: 0 <= j < |rows| ==> SameBetween(before, frameBuf[..], Off(j, stride) + bufSizePerUnit, Off(j + 1, stride))
      {
        OffBefore(i, |rows|, stride);
        ghost var prior := frameBuf[..];
        Memcpy(frameBuf, Off(i, stride), rows[i]);
        forall j | 0 <= j < i
          ensures RowStarts(frameBuf[..], Off(j, stride), rows[j])
        {
          OffBefore(j, i, stride);
          assert RowStarts(prior, Off(j, stride), rows[j]);
        }
        forall j | 0 <= j < |rows|
          ensures SameBetween(before, frameBuf[..], Off(j, stride) + bufSizePerUnit, Off(j + 1, stride))
        {
          OffNext(j, stride);
          if j < i {
            OffBefore(j, i, stride);
          } else if j > i {
            OffBefore(i, j, stride);
          }
          RowEndsInside(j, |rows|, stride);
        }
        i := i + 1;
      }
    }

    /** Reads back each source unit's padding and sets its size. */
    method RestoreSizes(ghost rows: seq<Unit>)
      requires sourceExpected <= |rows| && sourceExpected <= unitSlots.Length && stride >= 2 && bufSizePerUnit >= 1
      requires Off(sourceExpected, stride) <= frameBuf.Length && frameBuf as object != unitSlots
      requires forall i :: 0 <= i < sourceExpected ==>
                 Decoded(frameBuf[..], Off(i, stride), rows[i]) && |rows[i]| == bufSizePerUnit && unitSlots[i] <= bufSizePerUnit
      modifies unitSlots
      ensures forall i :: 0 <= i < sourceExpected ==> unitSlots[i] == RestoredSize(rows[i], old(unitSlots[i]))
      ensures forall i :: sourceExpected <= i < unitSlots.Length ==> unitSlots[i] == old(unitSlots[i])
    {
      hide Off, Decoded, PaddingOf;
      var i := 0;
      while i < sourceExpected
        invariant i <= sourceExpected
        invariant forall j :: 0 <= j < i ==> unitSlots[j] == RestoredSize(rows[j], old(unitSlots[j]))
        invariant forall j :: i <= j < unitSlots.Length ==> unitSlots[j] == old(unitSlots[j])
      {
        OffBefore(i, sourceExpected, stride);
        var off := Off(i, stride);
        PaddingRead(frameBuf[..], off, rows[i]);
        var padding := Read16(frameBuf[off..off + 2], 0);
        if padding < bufSizePerUnit {
          unitSlots[i] := bufSizePerUnit - padding;
        }
        i := i + 1;
      }
    }

    /** One unit slides down to the end of what has been collected. */
    method CompactOne(cur: nat, off: nat, size: nat, ghost done: seq<byte>, ghost u: Unit) returns (next: nat)
      requires cur <= off && off + size <= frameBuf.Length && size == |u|
      requires frameBuf[..cur] == done && frameBuf[off..off + size] == u
      modifies frameBuf
      ensures next <= off + size && next <= frameBuf.Length && frameBuf[..next] == done + Part(u)
      ensures forall j :: off + size <= j < frameBuf.Length ==> frameBuf[j] == old(frameBuf[j])
    {
      if size < 2 {
        return cur;
      }
      ghost var part := frameBuf[off + 2..off + size];
      assert part == u[2..];
      Memmove(frameBuf, cur, off + 2, size - 2);
      next := cur + (size - 2);
      assert frameBuf[..next] == done + part;
    }

    /** The compaction loop of flush. */
    method Compact(ghost us: seq<Unit>) returns (cur: nat)
      requires sourceExpected == |us| <= unitSlots.Length && Off(|us|, stride) <= frameBuf.Length
      requires frameBuf as object != unitSlots
      requires forall i :: 0 <= i < |us| ==>
                 unitSlots[i] == |us[i]| <= stride && RowStarts(frameBuf[..], Off(i, stride), us[i])
      modifies frameBuf
      ensures cur <= frameBuf.Length && frameBuf[..cur] == Assemble(us)
    {
      hide Off, Assemble, RowStarts;
      ghost var before := frameBuf[..];
      OffZero(stride);
      AssembleNext(us, 0);
      cur := 0;
      var i := 0;
      while i < sourceExpected
        invariant i <= sourceExpected && cur <= Off(i, stride) <= frameBuf.Length
        invariant frameBuf[..cur] == Assemble(us[..i])
        invariant forall j :: Off(i, stride) <= j < frameBuf.Length ==> frameBuf[j] == before[j]
      {
        OffNext(i, stride);
        RowEndsInside(i, |us|, stride);
        RowStill(before, frameBuf[..], Off(i, stride), us[i]);
        AssembleNext(us, i);
        cur := CompactOne(cur, Off(i, stride), unitSlots[i], Assemble(us[..i]), us[i]);
        i := i + 1;
      }
      assert us[..i] == us;
    }

    /** chiaki_frame_processor_fec: whether decoding succeeded, and the source
        units that are then in the buffer with their sizes in the slots. */
    method Fec(dec: Decoder) returns (ok: bool, ghost us: seq<Unit>)
      requires Valid() && ready && intact && Placed(model.units[..model.k])
      modifies frameBuf, unitSlots
      ensures FecOutcome(model, dec, ok, us) && |us| == model.k && Placed(us)
      ensures Sizes(unitSlots[..], Join(model, us).units)
    {
      hide Consistent, Off, Missing, Holds, RowIs, Restored, Placed, Sizes, Rows, Join;
      ConsistentIsLoose();
      var erasures := ListErasures();
      var rows := ReadRows();
      var decoded := dec(sourceExpected, fecExpected, rows, erasures[..]);
      if decoded == None || !SameShape(rows, decoded.value) {
        JoinSame(model);
        return false, model.units[..model.k];
      }
      ok, us := true, Restored(model, decoded.value);
      PlaceDecoded(decoded.value);
    }

    /** Each of these units is at its place in the buffer, its size in its slot. */
    ghost predicate Placed(us: seq<Unit>)
      reads this`stride, this`frameBuf, this`unitSlots, frameBuf, unitSlots
    {
      && |us| <= unitSlots.Length && Off(|us|, stride) <= frameBuf.Length
      && forall i :: 0 <= i < |us| ==> unitSlots[i] == |us[i]| <= stride && RowStarts(frameBuf[..], Off(i, stride), us[i])
    }

    method PlaceDecoded(rows: seq<Unit>)
      requires Valid() && ready && intact && SameShape(Rows(model), rows)
      modifies frameBuf, unitSlots
      ensures var us := Restored(model, rows); Placed(us) && Sizes(unitSlots[..], Join(model, us).units)
    {
      hide Consistent, Off, Decoded, Holds, RowIs, RowStarts, Restored, Sizes, Loose;
      ConsistentIsLoose();
      ghost var slots: seq<nat> := unitSlots[..];
      OffMonotone(model.k, model.k + model.m, stride);
      DecodeIntoBuffer(rows);
      SizeDecoded(rows, slots);
      SizesJoin(unitSlots[..], Restored(model, rows), model);
    }

    method DecodeIntoBuffer(rows: seq<Unit>)
      requires Valid() && ready && intact && SameShape(Rows(model), rows)
      modifies frameBuf
      ensures forall i :: 0 <= i < model.k ==> Decoded(frameBuf[..], Off(i, stride), rows[i])
    {
      hide Off, RowIs, RowStarts, SameBetween, Decoded, Sizes, Holds, Consistent, Loose;
      ConsistentIsLoose();
      ghost var m := model;
      ghost var before := frameBuf[..];
      WriteRows(rows);
      AllDecoded(before, frameBuf[..], stride, m, rows);
    }

    method SizeDecoded(rows: seq<Unit>, ghost slots: seq<nat>)
      requires model.Wf() && SameShape(Rows(model), rows) && frameBuf as object != unitSlots
      requires sourceExpected == model.k && bufSizePerUnit == model.unitSize <= stride && stride >= 2
      requires Off(model.k, stride) <= frameBuf.Length
      requires unitSlots[..] == slots && Sizes(slots, model.units)
      requires forall i :: 0 <= i < model.k ==> Decoded(frameBuf[..], Off(i, stride), rows[i])
      modifies unitSlots
      ensures Placed(Restored(model, rows))
      ensures forall i :: model.k <= i < unitSlots.Length ==> unitSlots[i] == |model.units[i]|
    {
      hide Off, Decoded, PaddingOf;
      assert forall i :: 0 <= i < |slots| ==> unitSlots[i] == slots[i];
      RestoreSizes(rows);
      AllPlaced(frameBuf[..], stride, model, rows);
    }

    /** chiaki_frame_processor_flush. */
    method Flush(dec: Decoder) returns (r: FlushResult, frameSize: nat)
      requires Valid() && (ready || flushed) && (ready ==> intact || sourceExpected == 0)
      modifies this`intact, this`model, this`statFrames, this`statBytes, frameBuf, unitSlots
      ensures Valid()
      ensures !ready ==> r == FlushFailed
      ensures ready ==> r == F.Flush(old(model), dec).result
      ensures r == FlushFailed ==> intact == old(intact) && model == old(model) && statFrames == old(statFrames)
      ensures r != FlushFailed ==>
                && frameSize <= frameBuf.Length && frameBuf[..frameSize] == F.Flush(old(model), dec).bytes
                && statFrames == old(statFrames) + 1 && statBytes == old(statBytes) + frameSize
                && model == AfterFlush(old(model), dec)
    {
      hide Off, Filled, SourceReceived, FecReceived, Sizes, Holds, RowIs, Assemble, Placed, AfterFlush, Restored, Rows,
        Frame.Wf;
      frameSize := 0;
      if sourceExpected == 0 || flushed {
        return FlushFailed, 0;
      }
      ghost var us;
      r, us := RecoverUnits(dec);
      frameSize := CompactPlaced(us);
      statFrames := statFrames + 1;
      statBytes := statBytes + frameSize;
    }

    method CompactPlaced(ghost us: seq<Unit>) returns (cur: nat)
      requires Valid() && ready && !intact && |us| == sourceExpected && Placed(us)
      modifies frameBuf
      ensures cur <= frameBuf.Length && frameBuf[..cur] == Assemble(us) && Valid()
    {
      hide Consistent, Loose, Assemble, Holds, RowIs;
      ConsistentIsLoose();
      cur := Compact(us);
      LooseIsConsistent();
    }

    lemma {:induction false} ConsistentIsLoose()
      requires Consistent()
      ensures Loose(model, unitSlots[..], sourceReceived, fecReceived)
      ensures model.Wf() && |model.units| == unitSlots.Length == model.k + model.m && Sizes(unitSlots[..], model.units)
      ensures sourceExpected == model.k && fecExpected == model.m && bufSizePerUnit == model.unitSize <= stride && stride >= 2
      ensures Off(model.k + model.m, stride) <= frameBuf.Length
      ensures intact ==> Holds(frameBuf[..], stride, model.units)
    {
      hide Off, Filled, SourceReceived, FecReceived, Holds, RowIs;
    }

    lemma {:induction false} LooseIsConsistent()
      requires !intact && Loose(model, unitSlots[..], sourceReceived, fecReceived)
      requires frameBuf.Length == frameBufSize + BUFFER_PADDING
      ensures Consistent()
    {
      hide Sizes, Off, Filled, SourceReceived, FecReceived;
    }

    /** The part of flush before the compaction. */
    method RecoverUnits(dec: Decoder) returns (r: FlushResult, ghost us: seq<Unit>)
      requires Valid() && ready && intact && sourceExpected > 0
      modifies this`intact, this`model, frameBuf, unitSlots
      ensures Valid() && !intact && model == AfterFlush(old(model), dec) && |us| == sourceExpected && Placed(us)
      ensures F.Flush(old(model), dec) == Flushed(r, Assemble(us)) && r != FlushFailed
    {
      SourcePlaced();
      hide Off, Filled, Sizes, Holds, Assemble, RowStarts;
      if sourceReceived < sourceExpected {
        r, us := RecoverLost(dec);
        return;
      }
      r := FlushSuccess;
      us := model.units[..model.k];
      intact := false;
    }

    method RecoverLost(dec: Decoder) returns (r: FlushResult, ghost us: seq<Unit>)
      requires Valid() && ready && intact && 0 < sourceExpected && sourceReceived < sourceExpected
      modifies this`intact, this`model, frameBuf, unitSlots
      ensures Valid() && !intact && model == AfterFlush(old(model), dec) && |us| == sourceExpected && Placed(us)
      ensures F.Flush(old(model), dec) == Flushed(r, Assemble(us)) && r != FlushFailed
    {
      hide Consistent, FecOutcome, Filled, Assemble, SourceReceived, FecReceived, Decode, F.Flush, Frame.Wf, Placed,
        Holds, RowIs, Join, AfterFlush;
      SourcePlaced();
      SomeLost();
      ghost var m := model;
      var ok;
      ok, us := DecodeLost(dec, m);
      FecFlush(m, dec, ok, us);
      r := if ok then FecSuccess else FecFailed;
    }

    lemma SomeLost()
      requires Valid() && ready && intact && sourceReceived < sourceExpected
      ensures model.Wf() && model.k == sourceExpected && SourceReceived(model) < model.k
    {
    }

    method DecodeLost(dec: Decoder, ghost m: Frame) returns (ok: bool, ghost us: seq<Unit>)
      requires Valid() && ready && intact && m == model && m.k == sourceExpected && Placed(m.units[..m.k])
      modifies this`intact, this`model, frameBuf, unitSlots
      ensures Valid() && !intact && |us| == m.k && Placed(us) && FecOutcome(m, dec, ok, us)
      ensures m.k <= |m.units| && model == Join(m, us)
    {
      hide Consistent, Loose, FecOutcome, Frame.Wf, Placed, Sizes, Join, RowIs, Holds;
      ghost var slots: seq<nat> := unitSlots[..];
      ConsistentIsLoose();
      ok, us := Fec(dec);
      intact := false;
      model := Join(m, us);
      AfterFec(m, slots, dec, ok, us);
    }

    lemma {:induction false} AfterFec(m: Frame, slots: seq<nat>, dec: Decoder, ok: bool, us: seq<Unit>)
      requires !intact && Loose(m, slots, sourceReceived, fecReceived) && |us| == m.k && FecOutcome(m, dec, ok, us)
      requires model == Join(m, us) && Sizes(unitSlots[..], model.units)
      requires frameBuf.Length == frameBufSize + BUFFER_PADDING
      ensures Consistent()
    {
      hide Decode, Off, Filled, SourceReceived, FecReceived, Sizes;
      if ok {
        RestoredConsistent(m, Decode(m, dec).value);
      } else {
        JoinSame(m);
      }
    }

    /** The source units are at their places as they arrived. */
    lemma {:induction false} SourcePlaced()
      requires Valid() && ready && intact
      ensures Placed(model.units[..model.k])
    {
      OffMonotone(model.k, model.k + model.m, stride);
      hide Off;
      var us := model.units[..model.k];
      forall i | 0 <= i < |us|
        ensures unitSlots[i] == |us[i]| <= stride && RowStarts(frameBuf[..], Off(i, stride), us[i])
      {
        assert unitSlots[..][i] == |model.units[i]|;
        assert RowIs(frameBuf[..], Off(i, stride), stride, model.units[i]);
      }
    }
  }

  /** What decoding makes of a lossy frame. */
  ghost predicate FecOutcome(m: Frame, dec: Decoder, ok: bool, us: seq<Unit>)
    requires m.Wf()
  {
    match Decode(m, dec)
    case None => !ok && us == m.units[..m.k]
    case Some(rows) => ok && us == Restored(m, rows)
  }

  lemma {:induction false} FecFlush(m: Frame, dec: Decoder, ok: bool, us: seq<Unit>)
    requires m.Wf() && m.k > 0 && SourceReceived(m) < m.k && FecOutcome(m, dec, ok, us)
    ensures F.Flush(m, dec) == Flushed(if ok then FecSuccess else FecFailed, Assemble(us))
    ensures |us| == m.k && Join(m, us) == AfterFlush(m, dec)
  {
    JoinSame(m);
  }

  lemma {:induction false} FilledGrows(a: seq<Unit>, b: seq<Unit>)
    requires |a| == |b| && forall i :: 0 <= i < |a| && a[i] != [] ==> b[i] != []
    ensures Filled(a) <= Filled(b)
    decreases |a|
  {
    if a != [] {
      FilledGrows(a[..|a| - 1], b[..|b| - 1]);
    }
  }

  /** Restoring sizes never empties a slot and stays within the unit size. */
  lemma {:induction false} RestoredConsistent(m: Frame, rows: seq<Unit>)
    requires m.Wf() && SameShape(Rows(m), rows)
    ensures var g := Join(m, Restored(m, rows));
            g.Wf() && SourceReceived(m) <= SourceReceived(g) && FecReceived(m) == FecReceived(g)
  {
    var us := Restored(m, rows);
    var g := Join(m, us);
    assert g.units[..m.k] == us && g.units[m.k..] == m.units[m.k..];
    FilledGrows(m.units[..m.k], us);
  }

  lemma {:induction false} AllDecoded(a: seq<byte>, b: seq<byte>, stride: nat, m: Frame, rows: seq<Unit>)
    requires m.Wf() && m.unitSize <= stride && stride >= 2 && Holds(a, stride, m.units) && SameShape(Rows(m), rows)
    requires forall i :: 0 <= i < |rows| ==> RowStarts(b, Off(i, stride), rows[i])
    requires forall i :: 0 <= i < |rows| ==> SameBetween(a, b, Off(i, stride) + m.unitSize, Off(i + 1, stride))
    ensures forall i :: 0 <= i < m.k ==> Decoded(b, Off(i, stride), rows[i])
  {
    hide Off, RowIs, RowStarts, SameBetween, Decoded;
    forall i | 0 <= i < m.k
      ensures Decoded(b, Off(i, stride), rows[i])
    {
      ZeroAfter(a, b, stride, m.units, i, rows[i]);
    }
  }

  lemma {:induction false} AllPlaced(buf: seq<byte>, stride: nat, m: Frame, rows: seq<Unit>)
    requires m.Wf() && SameShape(Rows(m), rows)
    requires forall i :: 0 <= i < m.k ==> Decoded(buf, Off(i, stride), rows[i])
    ensures forall i :: 0 <= i < m.k ==> RowStarts(buf, Off(i, stride), Restored(m, rows)[i])
  {
    hide Off, RowStarts;
    forall i | 0 <= i < m.k
      ensures RowStarts(buf, Off(i, stride), Restored(m, rows)[i])
    {
      RowPrefix(buf, Off(i, stride), rows[i], RestoredSize(rows[i], |m.units[i]|));
    }
  }

  lemma {:induction false} OffMonotone(i: nat, j: nat, stride: nat)
    requires i <= j
    ensures Off(i, stride) <= Off(j, stride)
  {
    if i < j {
      OffBefore(i, j, stride);
    }
  }

  lemma {:induction false} RowPrefix(buf: seq<byte>, off: nat, row: Unit, n: nat)
    requires RowStarts(buf, off, row) && n <= |row|
    ensures RowStarts(buf, off, row[..n])
  {
    assert buf[off..off + |row|][..n] == buf[off..off + n];
  }

  /** A one-byte row is followed by a zero, because the decoder leaves the rest
      of the stride alone. */
  lemma {:induction false} ZeroAfter(a: seq<byte>, b: seq<byte>, stride: nat, units: seq<Unit>, i: nat, row: Unit)
    requires i < |units| && Holds(a, stride, units) && stride >= 2 && 1 <= |row| <= stride && |units[i]| <= |row|
    requires RowStarts(b, Off(i, stride), row)
    requires SameBetween(a, b, Off(i, stride) + |row|, Off(i + 1, stride))
    ensures Decoded(b, Off(i, stride), row)
  {
    OffNext(i, stride);
    assert RowIs(a, Off(i, stride), stride, units[i]);
  }

  lemma {:induction false} AssembleNext(us: seq<Unit>, i: nat)
    ensures Assemble(us[..0]) == []
    ensures i < |us| ==> Assemble(us[..i + 1]) == Assemble(us[..i]) + Part(us[i])
  {
    if i < |us| {
      assert us[..i + 1][..i] == us[..i];
    }
  }

  lemma {:induction false} RowStill(a: seq<byte>, b: seq<byte>, off: nat, u: Unit)
    requires |a| == |b| && RowStarts(a, off, u) && forall j :: off <= j < |a| ==> b[j] == a[j]
    ensures RowStarts(b, off, u)
  {
  }

  /** A decoded row, with a zero after it should it be a single byte. */
  ghost predicate Decoded(buf: seq<byte>, off: nat, row: Unit) {
    RowStarts(buf, off, row) && off + 2 <= |buf| && (|row| == 1 ==> buf[off + 1] == 0)
  }

  lemma {:induction false} PaddingRead(buf: seq<byte>, off: nat, row: Unit)
    requires Decoded(buf, off, row) && |row| >= 1
    ensures off + 2 <= |buf| && Read16(buf[off..off + 2], 0) == PaddingOf(row)
  {
    assert buf[off..off + |row|][0] == row[0];
    assert |row| > 1 ==> buf[off..off + |row|][1] == row[1];
  }

  lemma {:induction false} MissingNext(us: seq<Unit>, i: nat)
    ensures Missing(us[..0]) == []
    ensures i < |us| ==> Missing(us[..i + 1]) == Missing(us[..i]) + (if us[i] == [] then [i] else [])
  {
    if i < |us| {
      assert us[..i + 1][..i] == us[..i];
    }
  }

  lemma {:induction false} MissingPrefix(us: seq<Unit>, i: nat)
    requires i <= |us|
    ensures |Missing(us[..i])| <= |Missing(us)|
    decreases |us|
  {
    if i < |us| {
      var n := |us| - 1;
      assert us[..n][..i] == us[..i];
      MissingPrefix(us[..n], i);
    } else {
      assert us[..i] == us;
    }
  }

  lemma {:induction false} PaddedRow(buf: seq<byte>, off: nat, stride: nat, u: Unit, n: nat)
    requires RowIs(buf, off, stride, u) && |u| <= n <= stride
    ensures buf[off..off + n] == Pad(u, n)
  {
    var row := buf[off..off + n];
    forall j | 0 <= j < n
      ensures row[j] == Pad(u, n)[j]
    {
      if j < |u| {
        assert buf[off..off + |u|][j] == u[j];
      }
    }
  }

  ghost predicate RowStarts(buf: seq<byte>, off: nat, row: Unit) {
    off + |row| <= |buf| && buf[off..off + |row|] == row
  }

  ghost predicate SameBetween(a: seq<byte>, b: seq<byte>, lo: nat, hi: nat) {
    |a| == |b| && hi <= |a| && forall j :: lo <= j < hi ==> a[j] == b[j]
  }
}
