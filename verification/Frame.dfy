/** What a video frame under assembly means: its received units, which are
    missing, and the bytes it is flushed to; and why forward error correction
    does not change those bytes. */
module Frame {
  import opened Bytes

  type Unit = seq<byte>

  const UNIT_SLOTS_MAX: nat := 256

  /** ChiakiTakionAVPacket, as far as frame assembly reads it. */
  datatype Packet = Packet(frameIndex: nat, streamIndex: nat, isVideo: bool, unitIndex: nat,
                           unitsTotal: nat, unitsFec: nat, data: Unit)

  /** k source units, m correction units, the size of the largest unit, and what
      has been received of each; [] is an empty slot. */
  datatype Frame = Frame(k: nat, m: nat, unitSize: nat, units: seq<Unit>) {
    predicate Wf() {
      && |units| == k + m <= UNIT_SLOTS_MAX && m >= 1 && unitSize >= 1
      && forall i :: 0 <= i < |units| ==> |units[i]| <= unitSize
    }
  }

  datatype AllocResult = Allocated(frame: Frame) | AllocInvalidData | AllocTooSmall

  function Empties(n: nat): (us: seq<Unit>)
    ensures |us| == n && forall i :: 0 <= i < n ==> us[i] == []
  {
    seq(n, _ => [])
  }

  /** chiaki_frame_processor_alloc_frame, memory permitting. */
  function Alloc(p: Packet): (r: AllocResult)
    ensures r.Allocated? ==> r.frame.Wf() && r.frame.units == Empties(r.frame.k + r.frame.m)
  {
    if p.unitsTotal < p.unitsFec then AllocInvalidData else
      var k := p.unitsTotal - p.unitsFec;
      var m := if p.unitsFec < 1 then 1 else p.unitsFec;
      var extended := p.isVideo && p.unitIndex < k;
      if extended && |p.data| < 2 then AllocTooSmall else
        var unitSize := |p.data| + (if extended then Read16(p.data, 0) else 0);
        if unitSize == 0 then AllocTooSmall
        else if k + m > UNIT_SLOTS_MAX then AllocInvalidData
        else Allocated(Frame(k, m, unitSize, Empties(k + m)))
  }

  /** chiaki_frame_processor_put_unit: None where it reports an error. */
  function Put(f: Frame, p: Packet): (r: Option<Frame>)
    requires f.Wf()
    ensures r.Some? ==> r.value.Wf()
  {
    if p.unitIndex >= |f.units| || |p.data| == 0 || |p.data| > f.unitSize || f.units[p.unitIndex] != [] then None
    else Some(f.(units := f.units[p.unitIndex := p.data]))
  }

  // ---------------------------------------------------------------- bookkeeping

  function Filled(us: seq<Unit>): (n: nat)
    ensures n <= |us|
  {
    if us == [] then 0 else Filled(us[..|us| - 1]) + (if us[|us| - 1] == [] then 0 else 1)
  }

  /** The erasure list: indices of the empty slots. */
  function Missing(us: seq<Unit>): seq<nat> {
    if us == [] then [] else
      var n := |us| - 1;
      Missing(us[..n]) + (if us[n] == [] then [n] else [])
  }

  /** The erasure list is ascending, holds exactly the empty slots, and its
      length is what the counters say it is. */
  lemma {:induction false} MissingExact(us: seq<Unit>)
    ensures forall i, j :: 0 <= i < j < |Missing(us)| ==> Missing(us)[i] < Missing(us)[j]
    ensures forall i :: i in Missing(us) <==> 0 <= i < |us| && us[i] == []
    ensures |Missing(us)| == |us| - Filled(us)
    decreases |us|
  {
    if us != [] {
      var rest := Missing(us[..|us| - 1]);
      MissingExact(us[..|us| - 1]);
      forall i | 0 <= i < |rest|
        ensures rest[i] < |us| - 1
      {
        assert rest[i] in rest;
      }
    }
  }

  lemma {:induction false} FilledSplits(a: seq<Unit>, b: seq<Unit>)
    ensures Filled(a + b) == Filled(a) + Filled(b)
    decreases |b|
  {
    if b == [] {
      assert a + b == a;
    } else {
      assert (a + b)[..|a + b| - 1] == a + b[..|b| - 1];
      FilledSplits(a, b[..|b| - 1]);
    }
  }

  lemma {:induction false} FilledUpdate(us: seq<Unit>, i: nat, u: Unit)
    requires i < |us| && us[i] == [] && u != []
    ensures Filled(us[i := u]) == Filled(us) + 1
    decreases |us|
  {
    var n := |us| - 1;
    if i == n {
      assert us[i := u][..n] == us[..n];
    } else {
      assert us[i := u][..n] == us[..n][i := u];
      FilledUpdate(us[..n], i, u);
    }
  }

  lemma {:induction false} FilledEmpties(n: nat)
    ensures Filled(Empties(n)) == 0
  {
    if n > 0 {
      assert Empties(n)[..n - 1] == Empties(n - 1);
      FilledEmpties(n - 1);
    }
  }

  function SourceReceived(f: Frame): nat
    requires f.k <= |f.units|
  {
    Filled(f.units[..f.k])
  }

  function FecReceived(f: Frame): nat
    requires f.k <= |f.units|
  {
    Filled(f.units[f.k..])
  }

  /** What a successful put does to the two received counters. */
  lemma {:induction false} PutCounts(f: Frame, p: Packet)
    requires f.Wf() && Put(f, p).Some?
    ensures var g := Put(f, p).value;
            && SourceReceived(g) == SourceReceived(f) + (if p.unitIndex < f.k then 1 else 0)
            && FecReceived(g) == FecReceived(f) + (if p.unitIndex < f.k then 0 else 1)
  {
    var g := Put(f, p).value;
    if p.unitIndex < f.k {
      assert g.units[..f.k] == f.units[..f.k][p.unitIndex := p.data];
      assert g.units[f.k..] == f.units[f.k..];
      FilledUpdate(f.units[..f.k], p.unitIndex, p.data);
    } else {
      assert g.units[..f.k] == f.units[..f.k];
      assert g.units[f.k..] == f.units[f.k..][p.unitIndex - f.k := p.data];
      FilledUpdate(f.units[f.k..], p.unitIndex - f.k, p.data);
    }
  }

  /** Once as many units arrived as the frame has source units, the missing ones
      are no more than the correction units. */
  lemma {:induction false} ErasuresFit(f: Frame)
    requires f.Wf()
    ensures |Missing(f.units)| == (f.k + f.m) - (SourceReceived(f) + FecReceived(f))
    ensures SourceReceived(f) + FecReceived(f) >= f.k <==> |Missing(f.units)| <= f.m
  {
    MissingExact(f.units);
    FilledSplits(f.units[..f.k], f.units[f.k..]);
    assert f.units[..f.k] + f.units[f.k..] == f.units;
  }

  // ---------------------------------------------------------------- flushing

  datatype FlushResult = FlushSuccess | FecSuccess | FecFailed | FlushFailed

  datatype Flushed = Flushed(result: FlushResult, bytes: seq<byte>)

  /** The erasure decoder, left uninterpreted: source and correction counts,
      all units padded to the unit size, the erasure list. */
  type Decoder = (nat, nat, seq<Unit>, seq<nat>) -> Option<seq<Unit>>

  function Pad(u: Unit, n: nat): (r: Unit)
    requires |u| <= n
    ensures |r| == n
  {
    u + Zeros(n - |u|)
  }

  function Rows(f: Frame): (rows: seq<Unit>)
    requires f.Wf()
    ensures |rows| == |f.units|
    ensures forall i :: 0 <= i < |rows| ==> rows[i] == Pad(f.units[i], f.unitSize)
  {
    seq(|f.units|, i requires 0 <= i < |f.units| => Pad(f.units[i], f.unitSize))
  }

  /** The decoder overwrites the units in place, so it changes no sizes. */
  predicate SameShape(rows: seq<Unit>, decoded: seq<Unit>) {
    |decoded| == |rows| && forall i :: 0 <= i < |rows| ==> |decoded[i]| == |rows[i]|
  }

  function Decode(f: Frame, dec: Decoder): (r: Option<seq<Unit>>)
    requires f.Wf()
    ensures r.Some? ==> SameShape(Rows(f), r.value)
  {
    match dec(f.k, f.m, Rows(f), Missing(f.units))
    case Some(rows) => if SameShape(Rows(f), rows) then Some(rows) else None
    case None => None
  }

  /** The padding a unit declares in its first two bytes. */
  function PaddingOf(row: Unit): nat
    requires |row| >= 1
  {
    row[0] as int * 0x100 + (if |row| > 1 then row[1] as int else 0)
  }

  function RestoredSize(row: Unit, oldSize: nat): (n: nat)
    requires |row| >= 1 && oldSize <= |row|
    ensures n <= |row|
  {
    if PaddingOf(row) >= |row| then oldSize else |row| - PaddingOf(row)
  }

  /** The source units with their sizes restored after decoding. */
  function Restored(f: Frame, rows: seq<Unit>): (us: seq<Unit>)
    requires f.Wf() && SameShape(Rows(f), rows)
    ensures |us| == f.k
    ensures forall i :: 0 <= i < f.k ==> us[i] == rows[i][..RestoredSize(rows[i], |f.units[i]|)]
  {
    seq(f.k, i requires 0 <= i < f.k => rows[i][..RestoredSize(rows[i], |f.units[i]|)])
  }

  /** A unit's contribution to the frame: without its two-byte prefix. */
  function Part(u: Unit): seq<byte> {
    if |u| < 2 then [] else u[2..]
  }

  function Assemble(us: seq<Unit>): seq<byte> {
    if us == [] then [] else Assemble(us[..|us| - 1]) + Part(us[|us| - 1])
  }

  function Concat(pieces: seq<seq<byte>>): seq<byte> {
    if pieces == [] then [] else pieces[0] + Concat(pieces[1..])
  }

  lemma {:induction false} ConcatSnoc(pieces: seq<seq<byte>>, piece: seq<byte>)
    ensures Concat(pieces + [piece]) == Concat(pieces) + piece
  {
    var all := pieces + [piece];
    if pieces == [] {
      assert all[1..] == [];
    } else {
      ConcatSnoc(pieces[1..], piece);
      assert all[1..] == pieces[1..] + [piece];
    }
  }

  /** A unit holds a piece of the frame behind two bytes; a shorter one holds
      nothing. */
  predicate HasPiece(u: Unit, piece: seq<byte>) {
    if |u| < 2 then piece == [] else |u| == 2 + |piece| && forall j :: 0 <= j < |piece| ==> u[2 + j] == piece[j]
  }

  /** Assembling concatenates what the units hold. */
  lemma {:induction false} AssembleExactly(us: seq<Unit>, pieces: seq<seq<byte>>)
    requires |us| == |pieces| && forall i :: 0 <= i < |us| ==> HasPiece(us[i], pieces[i])
    ensures Assemble(us) == Concat(pieces)
    decreases |us|
  {
    hide HasPiece, Part, Concat;
    if us == [] {
      NothingAssembled();
    } else {
      var n := |us| - 1;
      AssembleExactly(us[..n], pieces[..n]);
      ConcatSnoc(pieces[..n], pieces[n]);
      assert pieces == pieces[..n] + [pieces[n]];
      PartIsPiece(us[n], pieces[n]);
    }
  }

  lemma NothingAssembled()
    ensures Assemble([]) == Concat([]) == []
  {
  }

  lemma PartIsPiece(u: Unit, piece: seq<byte>)
    requires HasPiece(u, piece)
    ensures Part(u) == piece
  {
  }

  /** chiaki_frame_processor_flush of an allocated frame. */
  function Flush(f: Frame, dec: Decoder): Flushed
    requires f.Wf()
  {
    if f.k == 0 then Flushed(FlushFailed, [])
    else if SourceReceived(f) == f.k then Flushed(FlushSuccess, Assemble(f.units[..f.k]))
    else match Decode(f, dec)
      case None => Flushed(FecFailed, Assemble(f.units[..f.k]))
      case Some(rows) => Flushed(FecSuccess, Assemble(Restored(f, rows)))
  }

  /** The frame with its source units replaced. */
  function Join(f: Frame, us: seq<Unit>): (g: Frame)
    requires |us| == f.k <= |f.units|
    ensures g.k == f.k && g.m == f.m && g.unitSize == f.unitSize && |g.units| == |f.units|
  {
    f.(units := us + f.units[f.k..])
  }

  lemma {:induction false} JoinSame(f: Frame)
    requires f.k <= |f.units|
    ensures Join(f, f.units[..f.k]) == f
  {
    assert f.units[..f.k] + f.units[f.k..] == f.units;
  }

  /** What flushing leaves behind: decoding fills the empty source slots. */
  function AfterFlush(f: Frame, dec: Decoder): (g: Frame)
    requires f.Wf()
    ensures g.k == f.k && g.m == f.m && g.unitSize == f.unitSize && |g.units| == |f.units|
  {
    if f.k == 0 || SourceReceived(f) == f.k || Decode(f, dec) == None then f
    else Join(f, Restored(f, Decode(f, dec).value))
  }

  // ---------------------------------------------------------------- what was sent

  /** A frame as the sender cut it into pieces: each goes into a source unit, behind
      two bytes that declare how much the unit is padded, and there are correction
      units. */
  datatype Original = Original(pieces: seq<seq<byte>>, src: seq<Unit>, par: seq<Unit>, fec: nat, unitSize: nat) {
    function M(): nat {
      if fec < 1 then 1 else fec
    }

    ghost predicate Valid() {
      && |src| >= 1 && |par| == M() && |src| + M() <= UNIT_SLOTS_MAX
      && |pieces| == |src| && (forall i :: 0 <= i < |src| ==> HasPiece(src[i], pieces[i]))
      && (forall i :: 0 <= i < |src| ==>
            2 <= |src[i]| <= unitSize && Read16(src[i], 0) == unitSize - |src[i]|)
      && (forall i :: 0 <= i < |par| ==> |par[i]| == unitSize)
    }

    function UnitAt(i: nat): Unit
      requires i < |src| + |par|
    {
      if i < |src| then src[i] else par[i - |src|]
    }

    function PacketAt(frameIndex: nat, streamIndex: nat, i: nat): Packet
      requires i < |src| + |par|
    {
      Packet(frameIndex, streamIndex, true, i, |src| + fec, fec, UnitAt(i))
    }

    ghost function Codeword(): (rows: seq<Unit>)
      requires Valid()
      ensures |rows| == |src| + |par|
      ensures forall i :: 0 <= i < |rows| ==> rows[i] == Pad(UnitAt(i), unitSize)
    {
      seq(|src| + |par|, i requires 0 <= i < |src| + |par| => Pad(UnitAt(i), unitSize))
    }
  }

  /** The decoder's contract for this frame: as long as no more units are erased
      than there are correction units, it restores all of them. Erasures are
      ascending unit indices, and all rows have the unit size. */
  ghost predicate Corrects(dec: Decoder, o: Original)
    requires o.Valid()
  {
    forall rows, erasures :: CorrectsAt(dec, o, rows, erasures)
  }

  predicate IsErasures(erasures: seq<nat>, units: nat) {
    && (forall i :: 0 <= i < |erasures| ==> erasures[i] < units)
    && forall i, j :: 0 <= i < j < |erasures| ==> erasures[i] < erasures[j]
  }

  lemma {:induction false} MissingIsErasures(us: seq<Unit>)
    ensures IsErasures(Missing(us), |us|)
  {
    MissingExact(us);
    hide Missing;
    forall i | 0 <= i < |Missing(us)|
      ensures Missing(us)[i] < |us|
    {
      assert Missing(us)[i] in Missing(us);
    }
  }

  ghost predicate CorrectsAt(dec: Decoder, o: Original, rows: seq<Unit>, erasures: seq<nat>)
    requires o.Valid()
  {
    |rows| == |o.Codeword()| && (forall i :: 0 <= i < |rows| ==> |rows[i]| == o.unitSize)
    && |erasures| <= o.M() && IsErasures(erasures, |rows|)
    && (forall i :: 0 <= i < |rows| && i !in erasures ==> rows[i] == o.Codeword()[i])
    ==> dec(|o.src|, o.M(), rows, erasures) == Some(o.Codeword())
  }

  /** The frame after these units arrived, in this order; the first one makes the
      receiver allocate it, repeated ones are refused. */
  function Arrived(o: Original, arrivals: seq<nat>): (f: Frame)
    requires forall i :: 0 <= i < |arrivals| ==> arrivals[i] < |o.src| + |o.par|
    decreases |arrivals|
  {
    if arrivals == [] then Frame(0, 1, 1, Empties(1)) else
      var n := |arrivals| - 1;
      var p := o.PacketAt(0, 0, arrivals[n]);
      var before := if n == 0 then (match Alloc(p) case Allocated(f) => f case _ => Frame(0, 1, 1, Empties(1)))
                    else Arrived(o, arrivals[..n]);
      if before.Wf() then
        match Put(before, p)
        case Some(after) => after
        case None => before
      else before
  }

  predicate Arrivals(o: Original, arrivals: seq<nat>) {
    |arrivals| > 0 && forall i :: 0 <= i < |arrivals| ==> arrivals[i] < |o.src| + |o.par|
  }

  /** A frame is allocated exactly if its correction units are no more than all its
      units, what the first packet says of the unit size can be read and is not
      zero, and there are at most 256 slots, one for correction even if there
      are no such units. A source unit of a video says by how much it is padded. */
  lemma {:induction false} AllocExactly(p: Packet)
    ensures var source := p.isVideo && p.unitIndex < p.unitsTotal - p.unitsFec;
            var slots := p.unitsTotal + (if p.unitsFec == 0 then 1 else 0);
            var size := |p.data| + (if source && |p.data| >= 2 then p.data[0] as int * 256 + p.data[1] as int else 0);
            match Alloc(p)
            case AllocInvalidData => p.unitsTotal < p.unitsFec || (slots > 256 && size > 0 && (source ==> |p.data| >= 2))
            case AllocTooSmall => p.unitsTotal >= p.unitsFec && (size == 0 || (source && |p.data| < 2))
            case Allocated(f) =>
              && p.unitsTotal >= p.unitsFec && slots <= 256 && size > 0 && (source ==> |p.data| >= 2)
              && f.unitSize == size && f.k == p.unitsTotal - p.unitsFec && f.k + f.m == slots == |f.units|
              && forall i :: 0 <= i < slots ==> f.units[i] == []
  {
  }

  /** A unit is stored exactly if it has a free slot and is neither empty nor larger
      than the unit size; no other slot changes. */
  lemma {:induction false} PutExactly(f: Frame, p: Packet)
    requires f.Wf()
    ensures Put(f, p).Some? <==> p.unitIndex < f.k + f.m && 0 < |p.data| <= f.unitSize && f.units[p.unitIndex] == []
    ensures Put(f, p).Some? ==>
              var g := Put(f, p).value;
              && g == f.(units := g.units) && |g.units| == |f.units|
              && forall i :: 0 <= i < |f.units| ==> g.units[i] == if i == p.unitIndex then p.data else f.units[i]
  {
  }

  /** Whichever unit comes first, it tells the receiver the frame's layout. */
  lemma {:induction false} AnyUnitAllocates(o: Original, frameIndex: nat, streamIndex: nat, i: nat)
    requires o.Valid() && i < |o.src| + |o.par|
    ensures Alloc(o.PacketAt(frameIndex, streamIndex, i))
            == Allocated(Frame(|o.src|, o.M(), o.unitSize, Empties(|o.src| + o.M())))
  {
    var p := o.PacketAt(frameIndex, streamIndex, i);
    assert p.unitsTotal - p.unitsFec == |o.src|;
    if i < |o.src| {
      assert |p.data| + Read16(p.data, 0) == o.unitSize;
    } else {
      assert |o.par[i - |o.src|]| == o.unitSize;
      assert |o.src[0]| <= o.unitSize;
    }
  }

  /** Putting a genuine unit into a frame of this layout. */
  lemma {:induction false} PutGenuine(o: Original, f: Frame, i: nat)
    requires o.Valid() && i < |o.src| + |o.par|
    requires f.Wf() && f.k == |o.src| && f.m == o.M() && f.unitSize == o.unitSize
    requires f.units[i] == [] || f.units[i] == o.UnitAt(i)
    ensures var g := match Put(f, o.PacketAt(0, 0, i)) case Some(after) => after case None => f;
            g == f.(units := f.units[i := o.UnitAt(i)]) && g.Wf()
  {
    UnitNotEmpty(o, i);
    assert f.units[i] != [] ==> f.units == f.units[i := o.UnitAt(i)];
  }

  /** Whichever unit came first, in whatever order and however often: the frame
      holds exactly the units that arrived. */
  lemma {:induction false} ArrivedExact(o: Original, arrivals: seq<nat>)
    requires o.Valid() && Arrivals(o, arrivals)
    ensures var f := Arrived(o, arrivals);
            && f.Wf() && f.k == |o.src| && f.m == o.M() && f.unitSize == o.unitSize
            && forall i :: 0 <= i < |f.units| ==> f.units[i] == if i in arrivals then o.UnitAt(i) else []
    decreases |arrivals|
  {
    hide HasPiece;
    var n := |arrivals| - 1;
    var last := arrivals[n];
    assert arrivals == arrivals[..n] + [last];
    if n == 0 {
      AnyUnitAllocates(o, 0, 0, last);
      PutGenuine(o, Frame(|o.src|, o.M(), o.unitSize, Empties(|o.src| + o.M())), last);
    } else {
      ArrivedExact(o, arrivals[..n]);
      PutGenuine(o, Arrived(o, arrivals[..n]), last);
    }
  }

  lemma {:induction false} FilledIsCount(us: seq<Unit>, filled: set<nat>)
    requires forall i: nat :: i in filled <==> i < |us| && us[i] != []
    ensures Filled(us) == |filled|
    decreases |us|
  {
    if us == [] {
      assert filled == {};
    } else {
      var n := |us| - 1;
      FilledIsCount(us[..n], filled - {n});
      if us[n] != [] {
        assert filled == (filled - {n}) + {n};
      } else {
        assert filled == filled - {n};
      }
    }
  }

  /** Any k different units are enough, and then decoding gets a row set it must
      be able to restore. */
  lemma {:induction false} EnoughArrived(o: Original, arrivals: seq<nat>, got: set<nat>)
    requires o.Valid() && Arrivals(o, arrivals)
    requires (forall i: nat :: i in got <==> i in arrivals) && |got| >= |o.src|
    ensures var f := Arrived(o, arrivals);
            && f.Wf() && |Missing(f.units)| <= f.m
            && |Rows(f)| == |o.Codeword()|
            && forall i :: 0 <= i < |Rows(f)| && i !in Missing(f.units) ==> Rows(f)[i] == o.Codeword()[i]
  {
    var f := Arrived(o, arrivals);
    ArrivedExact(o, arrivals);
    hide Arrived, Missing;
    assert forall i: nat :: i in got <==> i < |f.units| && f.units[i] != [];
    FilledIsCount(f.units, got);
    MissingExact(f.units);
  }

  /** Restoring sizes after decoding gives back the original source units. */
  lemma {:induction false} RestoredOriginal(o: Original, f: Frame)
    requires o.Valid() && f.Wf() && f.k == |o.src| && f.m == o.M() && f.unitSize == o.unitSize
    ensures SameShape(Rows(f), o.Codeword()) && Restored(f, o.Codeword()) == o.src
  {
    var rows := o.Codeword();
    forall i | 0 <= i < f.k
      ensures Restored(f, rows)[i] == o.src[i]
    {
      assert rows[i] == o.src[i] + Zeros(o.unitSize - |o.src[i]|);
      assert PaddingOf(rows[i]) == Read16(o.src[i], 0);
    }
  }

  /** Forward error correction preserves meaning: if at least as many different
      units arrive as the frame has source units, in any order and with any
      repetitions, the flushed frame is byte for byte what the sender cut. */
  lemma {:induction false} FecPreservesFrame(o: Original, dec: Decoder, arrivals: seq<nat>, got: set<nat>)
    requires o.Valid() && Corrects(dec, o) && Arrivals(o, arrivals)
    requires (forall i: nat :: i in got <==> i in arrivals) && |got| >= |o.src|
    ensures var f := Arrived(o, arrivals);
            && f.Wf()
            && Flush(f, dec).bytes == Concat(o.pieces)
            && Flush(f, dec).result == if forall i :: 0 <= i < |o.src| ==> i in arrivals then FlushSuccess else FecSuccess
  {
    var f := Arrived(o, arrivals);
    hide Arrived, Missing, Assemble, Concat, Corrects, Original.Valid, HasPiece, Flush, SourceReceived;
    OriginalAssembles(o);
    SourceCount(o, arrivals);
    if SourceReceived(f) == f.k {
      CompleteFlush(o, dec, arrivals);
    } else {
      DecodedFlush(o, dec, arrivals, got);
    }
  }

  lemma {:induction false} CompleteFlush(o: Original, dec: Decoder, arrivals: seq<nat>)
    requires o.Valid() && Arrivals(o, arrivals) && Arrived(o, arrivals).Wf()
    requires var f := Arrived(o, arrivals); SourceReceived(f) == f.k
    ensures Flush(Arrived(o, arrivals), dec) == Flushed(FlushSuccess, Assemble(o.src))
  {
    hide Arrived, Assemble, SourceReceived, HasPiece, Original.Valid;
    ArrivedExact(o, arrivals);
    SourceCount(o, arrivals);
    LosslessFlush(o, dec, Arrived(o, arrivals));
  }

  lemma {:induction false} DecodedFlush(o: Original, dec: Decoder, arrivals: seq<nat>, got: set<nat>)
    requires o.Valid() && Corrects(dec, o) && Arrivals(o, arrivals) && Arrived(o, arrivals).Wf()
    requires (forall i: nat :: i in got <==> i in arrivals) && |got| >= |o.src|
    requires var f := Arrived(o, arrivals); SourceReceived(f) != f.k
    ensures Flush(Arrived(o, arrivals), dec) == Flushed(FecSuccess, Assemble(o.src))
  {
    hide Arrived, Missing, Assemble, Filled, Corrects, Original.Valid, Rows, Decode, Original.Codeword, HasPiece, Flush;
    ArrivedExact(o, arrivals);
    EnoughArrived(o, arrivals, got);
    LossyFlush(o, dec, Arrived(o, arrivals));
  }

  lemma OriginalAssembles(o: Original)
    requires o.Valid()
    ensures Assemble(o.src) == Concat(o.pieces)
  {
    hide HasPiece;
    AssembleExactly(o.src, o.pieces);
  }

  /** The pieces that arrived, with nothing in the place of the others. */
  function ArrivedPieces(o: Original, arrivals: seq<nat>): seq<seq<byte>> {
    seq(|o.pieces|, i requires 0 <= i < |o.pieces| => if i in arrivals then o.pieces[i] else [])
  }

  /** Without decoding the frame is what arrived of it, in the sender's order. */
  lemma {:induction false} UndecodedFrame(o: Original, dec: Decoder, arrivals: seq<nat>)
    requires o.Valid() && Arrivals(o, arrivals)
    ensures var f := Arrived(o, arrivals);
            && f.Wf()
            && Assemble(f.units[..f.k]) == Concat(ArrivedPieces(o, arrivals))
            && (Decode(f, dec) == None && SourceReceived(f) < f.k ==>
                  Flush(f, dec) == Flushed(FecFailed, Concat(ArrivedPieces(o, arrivals))))
  {
    hide Arrived, Assemble, Concat, Filled, Missing, Decode, Rows;
    var f := Arrived(o, arrivals);
    ArrivedExact(o, arrivals);
    var pieces := ArrivedPieces(o, arrivals);
    forall i | 0 <= i < f.k
      ensures HasPiece(f.units[..f.k][i], pieces[i])
    {
      assert f.units[i] == if i in arrivals then o.UnitAt(i) else [];
    }
    AssembleExactly(f.units[..f.k], pieces);
  }

  lemma {:induction false} LosslessFlush(o: Original, dec: Decoder, f: Frame)
    requires o.Valid() && f.Wf() && f.k == |o.src| && SourceReceived(f) == f.k
    requires forall i :: 0 <= i < f.k ==> f.units[i] == o.src[i]
    ensures Flush(f, dec) == Flushed(FlushSuccess, Assemble(o.src))
  {
    hide Assemble, SourceReceived, HasPiece;
    assert f.units[..f.k] == o.src;
  }

  /** Decoding a frame with few enough erasures flushes the original. */
  lemma {:induction false} LossyFlush(o: Original, dec: Decoder, f: Frame)
    requires o.Valid() && Corrects(dec, o)
    requires f.Wf() && f.k == |o.src| && f.m == o.M() && f.unitSize == o.unitSize
    requires SourceReceived(f) < f.k && |Missing(f.units)| <= f.m
    requires forall i :: 0 <= i < |Rows(f)| && i !in Missing(f.units) ==> Rows(f)[i] == o.Codeword()[i]
    ensures Flush(f, dec) == Flushed(FecSuccess, Assemble(o.src))
  {
    hide Missing, Assemble, Restored, Filled, SourceReceived, Rows, Decode, Corrects, Original.Codeword,
      Original.Valid, SameShape;
    RestoredOriginal(o, f);
    DecodesOriginal(o, dec, f);
  }

  lemma {:induction false} DecodesOriginal(o: Original, dec: Decoder, f: Frame)
    requires o.Valid() && Corrects(dec, o)
    requires f.Wf() && f.k == |o.src| && f.m == o.M() && f.unitSize == o.unitSize && |Missing(f.units)| <= f.m
    requires forall i :: 0 <= i < |Rows(f)| && i !in Missing(f.units) ==> Rows(f)[i] == o.Codeword()[i]
    ensures Decode(f, dec) == Some(o.Codeword())
  {
    hide Missing, Rows, Restored, Original.Codeword, Original.Valid, SameShape, IsErasures;
    RestoredOriginal(o, f);
    MissingIsErasures(f.units);
    assert CorrectsAt(dec, o, Rows(f), Missing(f.units));
  }

  lemma {:induction false} SourceCount(o: Original, arrivals: seq<nat>)
    requires o.Valid() && Arrivals(o, arrivals)
    ensures var f := Arrived(o, arrivals);
            f.Wf() && (SourceReceived(f) == f.k <==> forall i :: 0 <= i < |o.src| ==> i in arrivals)
  {
    hide Arrived, Missing, Filled, Original.Valid, Original.UnitAt;
    var f := Arrived(o, arrivals);
    ArrivedExact(o, arrivals);
    var source := f.units[..f.k];
    MissingExact(source);
    forall i | 0 <= i < |source|
      ensures source[i] == [] <==> i !in arrivals
    {
      UnitNotEmpty(o, i);
      assert source[i] == f.units[i];
    }
    if SourceReceived(f) == f.k {
      forall i | 0 <= i < |o.src|
        ensures i in arrivals
      {
        assert i !in Missing(source);
      }
    } else {
      assert Missing(source)[0] in Missing(source);
    }
  }

  lemma UnitNotEmpty(o: Original, i: nat)
    requires o.Valid() && i < |o.src| + |o.par|
    ensures 1 <= |o.UnitAt(i)| <= o.unitSize
  {
    assert |o.src[0]| <= o.unitSize;
  }
}
