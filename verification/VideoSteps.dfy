/** What the video receiver does with one packet, as a function; and what that
    adds up to over a whole stream: every frame is emitted once and in order,
    and every frame that was not decoded is reported. */
module VideoSteps {
  import opened Bytes
  import S = SeqNum
  import opened F = Frame

  /** How frame indices are compared and advanced: by the 16 bits on the wire,
      or as the unbounded positions the sender means by them. */
  datatype Clock = Wire | Unbounded {
    predicate Before(a: int, b: int) {
      if Wire? then S.Lt(S.Bits16, a, b) else a < b
    }

    predicate After(a: int, b: int) {
      if Wire? then S.Gt(S.Bits16, a, b) else a > b
    }

    function Shift(a: int, d: int): int {
      if Wire? then S.Add(S.Bits16, a, d) else a + d
    }
  }

  /** What the receiver does, in order: profile headers and frames handed to the
      session's callback, packet statistics, corrupt-frame reports. Begin marks
      the allocation of a frame with k source units. */
  datatype Event =
    | Header(profile: nat)
    | Stats(received: int, lost: int)
    | Corrupt(first: int, last: int)
    | Begin(index: int, k: nat)
    | Emit(index: int, result: FlushResult, bytes: seq<byte>, shown: bool)

  /** frame_index_cur, _prev and _prev_complete, the profile, and the frame
      processor: its frame and how many units have been put since its allocation. */
  datatype State = State(cur: int, prev: int, complete: int, profile: int, frame: Option<Frame>, received: nat) {
    predicate Wf() {
      (frame.Some? <==> cur >= 0) && (frame.Some? ==> frame.value.Wf())
    }
  }

  const INIT := State(-1, -1, 0, -1, None, 0)

  datatype Outcome = Outcome(s: State, log: seq<Event>)

  /** A packet, and what the session's callback answers for the frames flushed
      while handling it. */
  datatype Arrival = Arrival(p: Packet, shownOld: bool, shownNew: bool)

  /** chiaki_video_receiver_flush_frame. */
  function FlushFrame(s: State, dec: Decoder, shown: bool): (o: Outcome)
    requires s.Wf() && s.cur >= 0
    ensures o.s.Wf() && o.s.cur == s.cur
  {
    var f := s.frame.value;
    var flushed := Flush(f, dec);
    if flushed.result == FlushFailed then Outcome(s, [])
    else
      Outcome(s.(prev := s.cur,
                 complete := if flushed.result != FecFailed && shown then s.cur else s.complete,
                 frame := Some(AfterFlush(f, dec))),
              [Emit(s.cur, flushed.result, flushed.bytes, shown)])
  }

  /** The old frame is flushed if it was not yet. */
  function OldFlushed(s: State, a: Arrival, dec: Decoder): (o: Outcome)
    requires s.Wf()
    ensures o.s.Wf()
  {
    if s.cur >= 0 && s.prev != s.cur then FlushFrame(s, dec, a.shownOld) else Outcome(s, [])
  }

  /** The report of the frames skipped before frame p. */
  function Gap(c: Clock, cur: int, complete: int, p: int): seq<Event> {
    var next := c.Shift(complete, 1);
    if c.After(p, next) && !(p == 1 && cur < 0) then [Corrupt(next, c.Shift(p, -1))] else []
  }

  /** Frame a.p.frameIndex begins after the outcome f of flushing the old one. */
  function Begun(s: State, f: Outcome, gap: seq<Event>, a: Arrival): (o: Outcome)
    requires Alloc(a.p).Allocated?
  {
    var expected := match s.frame case None => 0 case Some(g) => g.k + g.m;
    Outcome(f.s.(cur := a.p.frameIndex, frame := Some(Alloc(a.p).frame), received := 0),
            [Stats(s.received, expected - s.received)] + f.log + gap + [Begin(a.p.frameIndex, Alloc(a.p).frame.k)])
  }

  /** The old frame is flushed, a gap is reported, the new frame is allocated. */
  function StartFrame(c: Clock, s: State, a: Arrival, dec: Decoder): (o: Outcome)
    requires s.Wf() && Alloc(a.p).Allocated?
    ensures o.s.Wf() && o.s.cur == a.p.frameIndex
  {
    var f := OldFlushed(s, a, dec);
    Begun(s, f, Gap(c, s.cur, f.s.complete, a.p.frameIndex), a)
  }

  /** The unit is stored, and the frame flushed if it can be. */
  function AddUnit(s: State, a: Arrival, dec: Decoder): (o: Outcome)
    requires s.Wf() && s.cur >= 0
    ensures o.s.Wf() && o.s.cur == s.cur
  {
    var t := match Put(s.frame.value, a.p)
             case Some(f) => s.(frame := Some(f), received := s.received + 1)
             case None => s;
    if t.cur != t.prev && t.received >= t.frame.value.k then FlushFrame(t, dec, a.shownNew) else Outcome(t, [])
  }

  predicate Ignored(c: Clock, s: State, p: Packet, profiles: nat) {
    || (s.cur >= 0 && c.Before(p.frameIndex, s.cur))
    || (s.profile != p.streamIndex && p.streamIndex >= profiles)
  }

  predicate NextFrame(c: Clock, s: State, p: Packet) {
    s.cur < 0 || c.After(p.frameIndex, s.cur)
  }

  /** Should the packet begin a frame, its frame can be allocated. */
  predicate CanStart(c: Clock, s: State, p: Packet, profiles: nat) {
    !Ignored(c, s, p, profiles) && NextFrame(c, s, p) ==> Alloc(p).Allocated?
  }

  /** chiaki_video_receiver_av_packet, as long as frames can be allocated. */
  function AvPacket(c: Clock, s: State, a: Arrival, dec: Decoder, profiles: nat): (o: Outcome)
    requires s.Wf() && CanStart(c, s, a.p, profiles)
    ensures o.s.Wf()
  {
    if Ignored(c, s, a.p, profiles) then Outcome(s, []) else
      var header := if s.profile != a.p.streamIndex then [Header(a.p.streamIndex)] else [];
      var s1 := s.(profile := a.p.streamIndex);
      var started := if NextFrame(c, s, a.p) then StartFrame(c, s1, a, dec) else Outcome(s1, []);
      var added := AddUnit(started.s, a, dec);
      Outcome(added.s, header + started.log + added.log)
  }

  /** A stream of packets from the start; None where a frame fails to allocate. */
  function Run(c: Clock, arrivals: seq<Arrival>, dec: Decoder, profiles: nat): (o: Option<Outcome>)
    ensures o.Some? ==> o.value.s.Wf()
    decreases |arrivals|
  {
    if arrivals == [] then Some(Outcome(INIT, [])) else
      var n := |arrivals| - 1;
      match Run(c, arrivals[..n], dec, profiles)
      case None => None
      case Some(o) =>
        if !CanStart(c, o.s, arrivals[n].p, profiles) then None
        else
          var step := AvPacket(c, o.s, arrivals[n], dec, profiles);
          Some(Outcome(step.s, o.log + step.log))
  }

  // ------------------------------------------------- every frame is emitted once

  /** The record of frames a log must keep: none yet or the last one done, or
      one under construction. */
  datatype Account = Idle(last: int) | Building(index: int) | Broken

  /** Reads a log: frames begin in increasing order; one with source units is
      emitted exactly once, and before the next one begins. */
  function Book(a: Account, log: seq<Event>): Account
    decreases |log|
  {
    if log == [] then a else BookOne(Book(a, log[..|log| - 1]), log[|log| - 1])
  }

  function BookOne(a: Account, e: Event): Account {
    match e
    case Begin(i, k) => if a.Idle? && i > a.last then (if k > 0 then Building(i) else Idle(i)) else Broken
    case Emit(i, _, _, _) => if a == Building(i) then Idle(i) else Broken
    case _ => a
  }

  lemma {:induction false} BookJoins(a: Account, x: seq<Event>, y: seq<Event>)
    ensures Book(a, x + y) == Book(Book(a, x), y)
    decreases |y|
  {
    if y == [] {
      assert x + y == x;
    } else {
      assert (x + y)[..|x + y| - 1] == x + y[..|y| - 1];
      BookJoins(a, x, y[..|y| - 1]);
    }
  }

  lemma {:induction false} BookSingle(a: Account, e: Event)
    ensures Book(a, []) == a && Book(a, [e]) == BookOne(a, e)
  {
    assert [e][..0] == [];
  }

  /** Begun at i, emitted at j, and nothing else began in between. */
  predicate EmittedAt(log: seq<Event>, i: int, j: int) {
    && 0 <= i < j < |log| && log[i].Begin? && log[j].Emit? && log[j].index == log[i].index
    && forall x :: i < x < j ==> !log[x].Begin?
  }

  /** Begun at i and still under construction. */
  predicate Open(log: seq<Event>, i: int) {
    && 0 <= i < |log| && log[i].Begin? && Book(Idle(-1), log) == Building(log[i].index)
    && forall x :: i < x < |log| ==> !log[x].Begin?
  }

  /** Each frame with source units that began is emitted before any other
      begins, unless it is the last one and still under construction. */
  ghost predicate EachEmitted(log: seq<Event>) {
    forall i :: 0 <= i < |log| && log[i].Begin? && log[i].k > 0 ==> Open(log, i) || exists j :: EmittedAt(log, i, j)
  }

  /** Only frames that began are emitted, and each only once, in increasing order. */
  ghost predicate EmitsBegan(log: seq<Event>) {
    forall j :: 0 <= j < |log| && log[j].Emit? ==> exists i :: EmittedAt(log, i, j) && log[i].k > 0
  }

  predicate EmitsIncrease(log: seq<Event>) {
    forall i, j :: 0 <= i < j < |log| && log[i].Emit? && log[j].Emit? ==> log[i].index < log[j].index
  }

  predicate Unbroken(log: seq<Event>) {
    Book(Idle(-1), log) != Broken
  }

  lemma {:induction false} UnbrokenMeans(log: seq<Event>)
    requires Unbroken(log)
    ensures EachEmitted(log) && EmitsBegan(log) && EmitsIncrease(log)
  {
    UnbrokenSettles(log);
    UnbrokenBegan(log);
    UnbrokenIncreases(log);
  }

  lemma {:induction false} BookLast(log: seq<Event>)
    requires log != []
    ensures Book(Idle(-1), log) == BookOne(Book(Idle(-1), log[..|log| - 1]), log[|log| - 1])
    ensures Unbroken(log) ==> Unbroken(log[..|log| - 1])
  {
  }

  lemma {:induction false} EmittedKept(rest: seq<Event>, log: seq<Event>, i: int, j: int)
    requires rest <= log && EmittedAt(rest, i, j)
    ensures EmittedAt(log, i, j) && 0 <= i < |rest| && log[i] == rest[i]
  {
  }

  lemma {:induction false} UnbrokenSettles(log: seq<Event>)
    requires Unbroken(log)
    ensures EachEmitted(log)
    ensures Book(Idle(-1), log).Building? ==> exists i :: Open(log, i) && log[i].k > 0
    decreases |log|
  {
    if log != [] {
      var n := |log| - 1;
      var rest := log[..n];
      BookLast(log);
      UnbrokenSettles(rest);
      hide Book, EmittedAt;
      forall i | 0 <= i < n && log[i].Begin? && log[i].k > 0
        ensures Open(log, i) || exists j :: EmittedAt(log, i, j)
      {
        assert rest[i] == log[i];
        Settles(log, i);
      }
      if !log[n].Emit? && !log[n].Begin? && Book(Idle(-1), rest).Building? {
        var i :| Open(rest, i) && rest[i].k > 0;
        assert Open(log, i);
      } else if log[n].Begin? && log[n].k > 0 {
        assert Open(log, n);
      }
    }
  }

  lemma {:induction false} Settles(log: seq<Event>, i: int)
    requires log != [] && Unbroken(log) && 0 <= i < |log| - 1 && log[i].Begin? && log[i].k > 0
    requires var rest := log[..|log| - 1]; Open(rest, i) || exists j :: EmittedAt(rest, i, j)
    ensures Open(log, i) || exists j :: EmittedAt(log, i, j)
  {
    var n := |log| - 1;
    BookLast(log);
    hide Book;
    if Open(log[..n], i) {
      if log[n].Emit? {
        assert EmittedAt(log, i, n);
      } else {
        assert Open(log, i);
      }
    } else {
      var j :| EmittedAt(log[..n], i, j);
      EmittedKept(log[..n], log, i, j);
    }
  }

  /** What is emitted is the frame under construction. */
  lemma {:induction false} OpenEmitted(log: seq<Event>, i: int)
    requires log != [] && Unbroken(log) && log[|log| - 1].Emit? && Open(log[..|log| - 1], i)
    ensures EmittedAt(log, i, |log| - 1)
  {
    BookLast(log);
    hide Book;
  }

  lemma {:induction false} UnbrokenBegan(log: seq<Event>)
    requires Unbroken(log)
    ensures EmitsBegan(log)
    decreases |log|
  {
    hide Book, Unbroken, EachEmitted;
    if log != [] {
      var n := |log| - 1;
      var rest := log[..n];
      BookLast(log);
      UnbrokenBegan(rest);
      UnbrokenSettles(rest);
      forall j | 0 <= j < |log| && log[j].Emit?
        ensures exists i :: EmittedAt(log, i, j) && log[i].k > 0
      {
        if j < n {
          assert rest[j] == log[j];
          var i :| EmittedAt(rest, i, j) && rest[i].k > 0;
          EmittedKept(rest, log, i, j);
        } else {
          BuildingBefore(log);
          var i :| Open(rest, i) && rest[i].k > 0;
          OpenEmitted(log, i);
          assert log[i] == rest[i];
        }
      }
    }
  }

  lemma BuildingBefore(log: seq<Event>)
    requires log != [] && Unbroken(log) && log[|log| - 1].Emit?
    ensures Book(Idle(-1), log[..|log| - 1]).Building?
  {
    BookLast(log);
    hide Book;
  }

  predicate EmitsBelow(log: seq<Event>, top: int) {
    forall i :: 0 <= i < |log| && log[i].Emit? ==> log[i].index < top
  }

  lemma {:induction false} UnbrokenIncreases(log: seq<Event>)
    requires Unbroken(log)
    ensures EmitsIncrease(log)
    ensures Book(Idle(-1), log).Building? ==> EmitsBelow(log, Book(Idle(-1), log).index)
    ensures Book(Idle(-1), log).Idle? ==> EmitsBelow(log, Book(Idle(-1), log).last + 1)
    decreases |log|
  {
    if log != [] {
      var n := |log| - 1;
      var rest := log[..n];
      BookLast(log);
      UnbrokenIncreases(rest);
      hide Book;
      assert forall i :: 0 <= i < n ==> log[i] == rest[i];
    }
  }

  // ------------------------------------------------- the receiver keeps the record

  /** A frame that has begun is still to be emitted until it has been, unless it
      has no source units at all. */
  predicate Accounted(s: State, a: Account) {
    && s.prev <= s.cur && 0 <= s.complete <= (if s.prev >= 0 then s.prev else 0)
    && if s.cur < 0 then a == Idle(-1) && s.prev == -1
       else if s.frame.Some? && s.frame.value.k > 0 && s.prev != s.cur then a == Building(s.cur)
       else a == Idle(s.cur)
  }

  lemma {:induction false} FlushKeeps(s: State, a: Account, dec: Decoder, shown: bool)
    requires s.Wf() && s.cur >= 0 && s.prev != s.cur && Accounted(s, a)
    ensures var o := FlushFrame(s, dec, shown);
            && Accounted(o.s, Book(a, o.log)) && Book(a, o.log) == Idle(s.cur)
            && (o.s.prev == s.cur || s.frame.value.k == 0)
  {
    var o := FlushFrame(s, dec, shown);
    assert o.log == [] || o.log == [o.log[0]];
    if o.log != [] {
      BookSingle(a, o.log[0]);
    }
  }

  lemma {:induction false} BookFour(a: Account, x: seq<Event>, y: seq<Event>, z: seq<Event>, w: seq<Event>)
    ensures Book(a, x + y + z + w) == Book(Book(Book(Book(a, x), y), z), w)
  {
    BookJoins(a, x + y + z, w);
    BookJoins(a, x + y, z);
    BookJoins(a, x, y);
  }

  /** Events that say nothing about the record. */
  lemma {:induction false} BookAside(a: Account, log: seq<Event>)
    requires |log| <= 1 && forall e :: e in log ==> !e.Begin? && !e.Emit?
    ensures Book(a, log) == a
  {
    if log != [] {
      assert log == [log[0]];
      BookSingle(a, log[0]);
    }
  }

  lemma {:induction false} OldFlushedKeeps(s: State, a: Account, ar: Arrival, dec: Decoder)
    requires s.Wf() && Accounted(s, a)
    ensures var f := OldFlushed(s, ar, dec); Book(a, f.log) == Idle(s.cur) && Accounted(f.s, Idle(s.cur)) && f.s.prev <= s.cur
  {
    BookAside(a, []);
    if s.cur >= 0 && s.prev != s.cur {
      FlushKeeps(s, a, dec, ar.shownOld);
    }
  }

  lemma {:induction false} StartKeeps(s: State, a: Account, ar: Arrival, dec: Decoder)
    requires s.Wf() && Accounted(s, a) && Alloc(ar.p).Allocated? && ar.p.frameIndex > s.cur
    ensures var o := StartFrame(Unbounded, s, ar, dec);
            Accounted(o.s, Book(a, o.log)) && o.s.prev != o.s.cur
  {
    hide FlushFrame, OldFlushed, Book, Gap;
    OldFlushedKeeps(s, a, ar, dec);
    StartLog(s, a, ar, dec);
  }

  /** The log of StartFrame, read. */
  lemma {:induction false} StartLog(s: State, a: Account, ar: Arrival, dec: Decoder)
    requires s.Wf() && Alloc(ar.p).Allocated?
    ensures Book(a, StartFrame(Unbounded, s, ar, dec).log)
            == BookOne(Book(a, OldFlushed(s, ar, dec).log), Begin(ar.p.frameIndex, Alloc(ar.p).frame.k))
  {
    var log, f := StartFrame(Unbounded, s, ar, dec).log, OldFlushed(s, ar, dec);
    var begin := Begin(ar.p.frameIndex, Alloc(ar.p).frame.k);
    var gap := Gap(Unbounded, s.cur, f.s.complete, ar.p.frameIndex);
    hide FlushFrame, OldFlushed, Book, Alloc;
    assert log == [log[0]] + f.log + gap + [begin];
    BookFour(a, [log[0]], f.log, gap, [begin]);
    BookAside(a, [log[0]]);
    BookAside(Book(a, f.log), gap);
    BookSingle(Book(a, f.log), begin);
  }

  lemma {:induction false} AddKeeps(s: State, a: Account, ar: Arrival, dec: Decoder)
    requires s.Wf() && s.cur >= 0 && Accounted(s, a)
    ensures var o := AddUnit(s, ar, dec);
            Accounted(o.s, Book(a, o.log))
  {
    hide Book;
    var t := match Put(s.frame.value, ar.p)
             case Some(f) => s.(frame := Some(f), received := s.received + 1)
             case None => s;
    assert Accounted(t, a);
    BookAside(a, []);
    if t.cur != t.prev && t.received >= t.frame.value.k {
      FlushKeeps(t, a, dec, ar.shownNew);
    }
  }

  /** One packet keeps the record. */
  lemma {:induction false} StepAccounted(s: State, a: Account, ar: Arrival, dec: Decoder, profiles: nat)
    requires s.Wf() && Accounted(s, a)
    requires CanStart(Unbounded, s, ar.p, profiles)
    ensures var o := AvPacket(Unbounded, s, ar, dec, profiles);
            Accounted(o.s, Book(a, o.log))
  {
    hide Book, StartFrame, AddUnit;
    var o := AvPacket(Unbounded, s, ar, dec, profiles);
    BookAside(a, []);
    if !Ignored(Unbounded, s, ar.p, profiles) {
      var s1 := s.(profile := ar.p.streamIndex);
      var header := if s.profile != ar.p.streamIndex then [Header(ar.p.streamIndex)] else [];
      BookAside(a, header);
      var started := Outcome(s1, []);
      if NextFrame(Unbounded, s, ar.p) {
        started := StartFrame(Unbounded, s1, ar, dec);
        StartKeeps(s1, a, ar, dec);
      }
      AddKeeps(started.s, Book(a, started.log), ar, dec);
      var added := AddUnit(started.s, ar, dec);
      assert o.log == header + started.log + added.log + [];
      BookFour(a, header, started.log, added.log, []);
      BookAside(Book(Book(a, started.log), added.log), []);
    }
  }

  // ------------------------------------------------- no frame is lost silently

  /** Frame q was decoded and taken, or lies in a corrupt-frame report. */
  predicate Covers(e: Event, q: int) {
    || (e.Emit? && e.index == q && e.result != FecFailed && e.shown)
    || (e.Corrupt? && e.first <= q <= e.last)
  }

  ghost predicate Covered(log: seq<Event>, q: int) {
    exists e :: e in log && Covers(e, q)
  }

  ghost predicate AllCovered(s: State, log: seq<Event>) {
    forall q :: 1 <= q && (q < s.cur || q <= s.complete) ==> Covered(log, q)
  }

  lemma {:induction false} CoveredKept(log: seq<Event>, more: seq<Event>, q: int)
    ensures Covered(log, q) || Covered(more, q) ==> Covered(log + more, q)
  {
    if Covered(log, q) {
      var e :| e in log && Covers(e, q);
      assert e in log + more;
    } else if Covered(more, q) {
      var e :| e in more && Covers(e, q);
      assert e in log + more;
    }
  }

  lemma {:induction false} FlushCovers(s: State, log: seq<Event>, dec: Decoder, shown: bool)
    requires s.Wf() && s.cur >= 0 && s.complete <= s.cur && AllCovered(s, log)
    ensures var o := FlushFrame(s, dec, shown); AllCovered(o.s, log + o.log)
  {
    var o := FlushFrame(s, dec, shown);
    forall q | 1 <= q && (q < o.s.cur || q <= o.s.complete)
      ensures Covered(log + o.log, q)
    {
      CoveredKept(log, o.log, q);
      if q == s.cur && q > s.complete {
        assert o.log[0] in o.log && Covers(o.log[0], q);
      }
    }
  }

  lemma {:induction false} OldFlushedCovers(s: State, log: seq<Event>, ar: Arrival, dec: Decoder)
    requires s.Wf() && AllCovered(s, log) && (s.complete <= s.cur || s.complete == 0)
    ensures var f := OldFlushed(s, ar, dec); AllCovered(f.s, log + f.log) && f.s.cur == s.cur
  {
    if s.cur >= 0 && s.prev != s.cur {
      FlushCovers(s, log, dec, ar.shownOld);
    } else {
      assert log + [] == log;
    }
  }

  lemma {:induction false} StartCovers(s: State, log: seq<Event>, ar: Arrival, dec: Decoder)
    requires s.Wf() && Alloc(ar.p).Allocated? && ar.p.frameIndex > s.cur && AllCovered(s, log)
    requires s.complete <= s.cur || s.complete == 0
    ensures var o := StartFrame(Unbounded, s, ar, dec); AllCovered(o.s, log + o.log)
  {
    hide OldFlushed, Alloc, Covered, Covers, State.Wf;
    OldFlushedCovers(s, log, ar, dec);
    var o, f := StartFrame(Unbounded, s, ar, dec), OldFlushed(s, ar, dec);
    var gap := Gap(Unbounded, s.cur, f.s.complete, ar.p.frameIndex);
    forall q | 1 <= q && (q < o.s.cur || q <= o.s.complete)
      ensures Covered(log + o.log, q)
    {
      if q <= f.s.complete {
        CoveredAmong(log + f.log, log + o.log, q);
      } else {
        GapCovers(f.s.complete, ar.p.frameIndex, q);
        CoveredAmong(gap, log + o.log, q);
      }
    }
  }

  lemma CoveredAmong(some: seq<Event>, all: seq<Event>, q: int)
    requires Covered(some, q) && forall e :: e in some ==> e in all
    ensures Covered(all, q)
  {
  }

  lemma GapCovers(complete: int, p: int, q: int)
    requires complete < q < p
    ensures Covered([Corrupt(complete + 1, p - 1)], q)
  {
    assert Corrupt(complete + 1, p - 1) in [Corrupt(complete + 1, p - 1)];
  }

  lemma {:induction false} AddCovers(s: State, log: seq<Event>, ar: Arrival, dec: Decoder)
    requires s.Wf() && s.cur >= 0 && s.complete <= s.cur && AllCovered(s, log)
    ensures var o := AddUnit(s, ar, dec); AllCovered(o.s, log + o.log)
  {
    var t := match Put(s.frame.value, ar.p)
             case Some(f) => s.(frame := Some(f), received := s.received + 1)
             case None => s;
    assert log + [] == log;
    assert AllCovered(t, log);
    if t.cur != t.prev && t.received >= t.frame.value.k {
      FlushCovers(t, log, dec, ar.shownNew);
    }
  }

  /** One packet keeps every frame before the current one covered. */
  lemma {:induction false} StepCovered(s: State, a: Account, log: seq<Event>, ar: Arrival, dec: Decoder, profiles: nat)
    requires s.Wf() && Accounted(s, a) && AllCovered(s, log)
    requires CanStart(Unbounded, s, ar.p, profiles)
    ensures var o := AvPacket(Unbounded, s, ar, dec, profiles); AllCovered(o.s, log + o.log)
  {
    hide AllCovered, AddUnit, StartFrame, Accounted;
    var o := AvPacket(Unbounded, s, ar, dec, profiles);
    if Ignored(Unbounded, s, ar.p, profiles) {
      assert log + o.log == log;
    } else {
      var s1 := s.(profile := ar.p.streamIndex);
      var header := if s.profile != ar.p.streamIndex then [Header(ar.p.streamIndex)] else [];
      HeaderCovers(s, log, s1, header);
      AccountedAgain(s, s1, a);
      var started := Outcome(s1, []);
      if NextFrame(Unbounded, s, ar.p) {
        started := StartFrame(Unbounded, s1, ar, dec);
        StartCovers(s1, log + header, ar, dec);
        StartComplete(s1, a, ar, dec);
      } else {
        assert log + header + [] == log + header;
      }
      AddCovers(started.s, log + header + started.log, ar, dec);
      var added := AddUnit(started.s, ar, dec);
      assert log + o.log == log + header + started.log + added.log;
    }
  }

  lemma {:induction false} AccountedAgain(s: State, t: State, a: Account)
    requires Accounted(s, a) && t == s.(profile := t.profile)
    ensures Accounted(t, a) && (t.complete <= t.cur || t.complete == 0) && (t.cur >= 0 ==> t.complete <= t.cur)
  {
  }

  lemma {:induction false} HeaderCovers(s: State, log: seq<Event>, t: State, more: seq<Event>)
    requires AllCovered(s, log) && t == s.(profile := t.profile)
    ensures AllCovered(t, log + more)
  {
    forall q | Covered(log, q)
      ensures Covered(log + more, q)
    {
      CoveredKept(log, more, q);
    }
  }

  lemma {:induction false} StartComplete(s: State, a: Account, ar: Arrival, dec: Decoder)
    requires s.Wf() && Accounted(s, a) && Alloc(ar.p).Allocated? && ar.p.frameIndex > s.cur
    ensures StartFrame(Unbounded, s, ar, dec).s.complete <= ar.p.frameIndex
  {
  }

  // ------------------------------------------------- no decoded frame is reported

  predicate IsDecoded(e: Event) {
    e.Emit? && e.result != FecFailed && e.shown
  }

  /** Reports and decoded frames exclude each other. */
  ghost predicate Honest(log: seq<Event>) {
    forall c, d :: c in log && d in log && c.Corrupt? && IsDecoded(d) ==> !(c.first <= d.index <= c.last)
  }

  /** What keeps it so: nothing past the last complete frame was decoded, nothing
      from the current frame on was reported. */
  ghost predicate Bounded(s: State, log: seq<Event>) {
    && (forall d :: d in log && IsDecoded(d) ==> 0 <= d.index <= s.complete)
    && (forall c :: c in log && c.Corrupt? ==> c.last < s.cur)
  }

  ghost predicate Sound(s: State, log: seq<Event>) {
    Honest(log) && Bounded(s, log)
  }

  /** Events that are neither leave everything as it is. */
  lemma {:induction false} SoundAside(s: State, log: seq<Event>, t: State, more: seq<Event>)
    requires Sound(s, log) && t.cur >= s.cur && t.complete == s.complete
    requires forall e :: e in more ==> !e.Corrupt? && !e.Emit?
    ensures Sound(t, log + more)
  {
    assert forall e :: e in log + more ==> e in log || e in more;
  }

  lemma {:induction false} FlushSound(s: State, log: seq<Event>, dec: Decoder, shown: bool)
    requires s.Wf() && s.cur >= 0 && s.complete <= s.cur && Sound(s, log)
    ensures var o := FlushFrame(s, dec, shown); Sound(o.s, log + o.log)
  {
    hide F.Flush, AfterFlush, F.Frame.Wf;
    var o := FlushFrame(s, dec, shown);
    assert forall e :: e in log + o.log ==> e in log || e in o.log;
  }

  lemma {:induction false} OldFlushedSound(s: State, log: seq<Event>, ar: Arrival, dec: Decoder)
    requires s.Wf() && Sound(s, log) && (s.complete <= s.cur || s.complete == 0)
    ensures var f := OldFlushed(s, ar, dec);
            Sound(f.s, log + f.log) && f.s.cur == s.cur && (f.s.complete <= s.cur || f.s.complete == 0)
  {
    if s.cur >= 0 && s.prev != s.cur {
      FlushSound(s, log, dec, ar.shownOld);
    } else {
      assert log + [] == log;
    }
  }

  lemma {:induction false} StartSound(s: State, log: seq<Event>, ar: Arrival, dec: Decoder)
    requires s.Wf() && Alloc(ar.p).Allocated? && ar.p.frameIndex > s.cur && Sound(s, log)
    requires s.complete <= s.cur || s.complete == 0
    ensures var o := StartFrame(Unbounded, s, ar, dec); Sound(o.s, log + o.log)
  {
    hide FlushFrame, OldFlushed, Alloc, Sound, State.Wf;
    OldFlushedSound(s, log, ar, dec);
    var o, f := StartFrame(Unbounded, s, ar, dec), OldFlushed(s, ar, dec);
    var gap := Gap(Unbounded, s.cur, f.s.complete, ar.p.frameIndex);
    ReportSound(f.s, log, o.log[0], f.log, gap, o.log[|o.log| - 1], o.s);
  }

  lemma {:induction false} ReportSound(s: State, log: seq<Event>, before: Event, more: seq<Event>, gap: seq<Event>,
      after: Event, t: State)
    requires Sound(s, log + more) && t.cur > s.cur && t.complete == s.complete
    requires before.Stats? && after.Begin? && |gap| <= 1
    requires forall e :: e in gap ==> e == Corrupt(s.complete + 1, t.cur - 1)
    ensures Sound(t, log + ([before] + more + gap + [after]))
  {
    var all := log + ([before] + more + gap + [after]);
    assert forall e :: e in all ==> e == before || e == after || e in gap || e in log + more;
  }

  lemma {:induction false} AddSound(s: State, log: seq<Event>, ar: Arrival, dec: Decoder)
    requires s.Wf() && s.cur >= 0 && s.complete <= s.cur && Sound(s, log)
    ensures var o := AddUnit(s, ar, dec); Sound(o.s, log + o.log)
  {
    hide Sound, FlushFrame;
    var t := match Put(s.frame.value, ar.p)
             case Some(f) => s.(frame := Some(f), received := s.received + 1)
             case None => s;
    SoundAside(s, log, t, []);
    assert log + [] == log;
    if t.cur != t.prev && t.received >= t.frame.value.k {
      FlushSound(t, log, dec, ar.shownNew);
    }
  }

  /** One packet reports no frame that was or will be decoded. */
  lemma {:induction false} StepSound(s: State, a: Account, log: seq<Event>, ar: Arrival, dec: Decoder, profiles: nat)
    requires s.Wf() && Accounted(s, a) && Sound(s, log)
    requires CanStart(Unbounded, s, ar.p, profiles)
    ensures var o := AvPacket(Unbounded, s, ar, dec, profiles); Sound(o.s, log + o.log)
  {
    hide Sound, AddUnit, StartFrame, Accounted;
    var o := AvPacket(Unbounded, s, ar, dec, profiles);
    if Ignored(Unbounded, s, ar.p, profiles) {
      assert log + o.log == log;
    } else {
      var s1 := s.(profile := ar.p.streamIndex);
      var header := if s.profile != ar.p.streamIndex then [Header(ar.p.streamIndex)] else [];
      SoundAside(s, log, s1, header);
      AccountedAgain(s, s1, a);
      var started := Outcome(s1, []);
      if NextFrame(Unbounded, s, ar.p) {
        started := StartFrame(Unbounded, s1, ar, dec);
        StartSound(s1, log + header, ar, dec);
        StartComplete(s1, a, ar, dec);
      } else {
        assert log + header + [] == log + header;
      }
      AddSound(started.s, log + header + started.log, ar, dec);
      var added := AddUnit(started.s, ar, dec);
      assert log + o.log == log + header + started.log + added.log;
    }
  }

  /** Over any stream in which frames can be allocated, every frame is emitted
      once and in order, every index from 1 to the current one was decoded or
      lies in a report, and no index is both. */
  lemma {:induction false} RunAccounted(arrivals: seq<Arrival>, dec: Decoder, profiles: nat)
    requires Run(Unbounded, arrivals, dec, profiles).Some?
    ensures var o := Run(Unbounded, arrivals, dec, profiles).value;
            Accounted(o.s, Book(Idle(-1), o.log)) && AllCovered(o.s, o.log) && Sound(o.s, o.log)
    decreases |arrivals|
  {
    if arrivals == [] {
      BookAside(Idle(-1), []);
    } else {
      var n := |arrivals| - 1;
      RunAccounted(arrivals[..n], dec, profiles);
      var o := Run(Unbounded, arrivals[..n], dec, profiles).value;
      var a := Book(Idle(-1), o.log);
      StepAccounted(o.s, a, arrivals[n], dec, profiles);
      StepCovered(o.s, a, o.log, arrivals[n], dec, profiles);
      StepSound(o.s, a, o.log, arrivals[n], dec, profiles);
      BookJoins(Idle(-1), o.log, AvPacket(Unbounded, o.s, arrivals[n], dec, profiles).log);
      hide AvPacket, Accounted, AllCovered, Sound, Book;
    }
  }
}
