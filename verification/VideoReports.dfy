/** What the callbacks are told besides frames: profile headers and packet
    statistics, over whole streams. */
module VideoReports {
  import opened Bytes
  import opened F = Frame
  import opened VideoSteps

  // ------------------------------------------------- profile headers

  /** The profile the callback was last told, none at first. */
  function LastHeader(log: seq<Event>): int
    decreases |log|
  {
    if log == [] then -1 else
      match log[|log| - 1]
      case Header(profile) => profile
      case _ => LastHeader(log[..|log| - 1])
  }

  /** A header is never repeated, and only known profiles have one. */
  predicate HeadersChange(log: seq<Event>, profiles: nat) {
    forall i :: 0 <= i < |log| && log[i].Header? ==> log[i].profile < profiles && log[i].profile != LastHeader(log[..i])
  }

  predicate NoHeaders(log: seq<Event>) {
    forall e :: e in log ==> !e.Header?
  }

  lemma {:induction false} NoMoreHeaders(log: seq<Event>, more: seq<Event>, profiles: nat)
    requires NoHeaders(more)
    ensures LastHeader(log + more) == LastHeader(log)
    ensures HeadersChange(log, profiles) ==> HeadersChange(log + more, profiles)
    decreases |more|
  {
    var all := log + more;
    if more == [] {
      assert all == log;
    } else {
      var n := |more| - 1;
      NoMoreHeaders(log, more[..n], profiles);
      assert all[..|all| - 1] == log + more[..n];
      assert more[n] in more;
      hide LastHeader;
      if HeadersChange(log, profiles) {
        forall i | 0 <= i < |all| && all[i].Header?
          ensures all[i].profile < profiles && all[i].profile != LastHeader(all[..i])
        {
          assert all[..i] == (log + more[..n])[..i] && all[i] == (log + more[..n])[i];
        }
      }
    }
  }

  lemma {:induction false} OneHeader(log: seq<Event>, profile: nat, profiles: nat)
    requires HeadersChange(log, profiles) && LastHeader(log) != profile < profiles
    ensures LastHeader(log + [Header(profile)]) == profile && HeadersChange(log + [Header(profile)], profiles)
  {
    var all := log + [Header(profile)];
    assert all[..|log|] == log;
    hide LastHeader;
    forall i | 0 <= i < |all| && all[i].Header?
      ensures all[i].profile < profiles && all[i].profile != LastHeader(all[..i])
    {
      assert all[..i] == log[..i];
    }
  }

  /** A packet that is not ignored is handled under its own profile; the header
      comes first, exactly if the profile is another one than before. */
  lemma {:induction false} HeaderExactly(c: Clock, s: State, a: Arrival, dec: Decoder, profiles: nat)
    requires s.Wf() && CanStart(c, s, a.p, profiles) && !Ignored(c, s, a.p, profiles)
    ensures var o := AvPacket(c, s, a, dec, profiles);
            && o.s.profile == a.p.streamIndex
            && if s.profile == a.p.streamIndex then NoHeaders(o.log)
               else o.log != [] && o.log[0] == Header(a.p.streamIndex) && a.p.streamIndex < profiles && NoHeaders(o.log[1..])
  {
    hide Alloc, Put, Flush, AfterFlush, Clock.Before, Clock.After, Gap;
    var o := AvPacket(c, s, a, dec, profiles);
    var s1 := s.(profile := a.p.streamIndex);
    var started := if NextFrame(c, s, a.p) then StartFrame(c, s1, a, dec) else Outcome(s1, []);
    StartHasNone(c, s1, a, dec);
    AddHasNone(started.s, a, dec);
    hide StartFrame, AddUnit;
    var added := AddUnit(started.s, a, dec);
    if s.profile != a.p.streamIndex {
      assert o.log == [Header(a.p.streamIndex)] + started.log + added.log;
      assert o.log[1..] == started.log + added.log;
    } else {
      assert o.log == [] + started.log + added.log == started.log + added.log;
    }
  }

  lemma StartHasNone(c: Clock, s: State, a: Arrival, dec: Decoder)
    requires s.Wf()
    ensures Alloc(a.p).Allocated? ==> var o := StartFrame(c, s, a, dec); NoHeaders(o.log) && o.s.profile == s.profile
  {
  }

  lemma AddHasNone(s: State, a: Arrival, dec: Decoder)
    requires s.Wf()
    ensures s.cur >= 0 ==> var o := AddUnit(s, a, dec); NoHeaders(o.log) && o.s.profile == s.profile
  {
  }

  /** Over every stream, the callback knows the current profile, and is told only
      when it changes. */
  lemma {:induction false} HeadersFollow(c: Clock, arrivals: seq<Arrival>, dec: Decoder, profiles: nat)
    requires Run(c, arrivals, dec, profiles).Some?
    ensures var o := Run(c, arrivals, dec, profiles).value;
            LastHeader(o.log) == o.s.profile && HeadersChange(o.log, profiles)
    decreases |arrivals|
  {
    hide AvPacket, CanStart, Ignored, LastHeader, HeadersChange, NoHeaders;
    if arrivals == [] {
      NothingTold(profiles);
    } else {
      var n := |arrivals| - 1;
      HeadersFollow(c, arrivals[..n], dec, profiles);
      var o := Run(c, arrivals[..n], dec, profiles).value;
      HeaderStep(c, o, arrivals[n], dec, profiles);
    }
  }

  lemma NothingTold(profiles: nat)
    ensures LastHeader([]) == -1 && HeadersChange([], profiles)
  {
  }

  lemma IgnoredDoesNothing(c: Clock, s: State, a: Arrival, dec: Decoder, profiles: nat)
    requires s.Wf() && CanStart(c, s, a.p, profiles) && Ignored(c, s, a.p, profiles)
    ensures AvPacket(c, s, a, dec, profiles) == Outcome(s, [])
  {
  }

  lemma {:induction false} HeaderStep(c: Clock, o: Outcome, a: Arrival, dec: Decoder, profiles: nat)
    requires o.s.Wf() && CanStart(c, o.s, a.p, profiles)
    requires LastHeader(o.log) == o.s.profile && HeadersChange(o.log, profiles)
    ensures var step := AvPacket(c, o.s, a, dec, profiles);
            LastHeader(o.log + step.log) == step.s.profile && HeadersChange(o.log + step.log, profiles)
  {
    hide AvPacket, CanStart, Ignored, LastHeader, HeadersChange, NoHeaders;
    var step := AvPacket(c, o.s, a, dec, profiles);
    if Ignored(c, o.s, a.p, profiles) {
      IgnoredDoesNothing(c, o.s, a, dec, profiles);
      assert o.log + [] == o.log;
    } else {
      HeaderExactly(c, o.s, a, dec, profiles);
      if o.s.profile == a.p.streamIndex {
        NoMoreHeaders(o.log, step.log, profiles);
      } else {
        OneHeader(o.log, a.p.streamIndex, profiles);
        NoMoreHeaders(o.log + [Header(a.p.streamIndex)], step.log[1..], profiles);
        assert o.log + step.log == o.log + [Header(a.p.streamIndex)] + step.log[1..];
      }
    }
  }

  // ------------------------------------------------- packet statistics

  /** The frame a packet's unit is meant for: its own new one, or the current one. */
  function Target(c: Clock, s: State, p: Packet, profiles: nat): Option<Frame>
    requires s.Wf() && CanStart(c, s, p, profiles)
  {
    if Ignored(c, s, p, profiles) then None
    else if NextFrame(c, s, p) then Some(Alloc(p).frame)
    else s.frame
  }

  /** Whether the packet's unit is stored. */
  predicate Stores(c: Clock, s: State, p: Packet, profiles: nat)
    requires s.Wf() && CanStart(c, s, p, profiles)
  {
    var f := Target(c, s, p, profiles);
    f.Some? && f.value.Wf() && Put(f.value, p).Some?
  }

  /** How many units of a stream are stored. */
  function StoredUnits(c: Clock, arrivals: seq<Arrival>, dec: Decoder, profiles: nat): nat
    decreases |arrivals|
  {
    if arrivals == [] then 0 else
      var n := |arrivals| - 1;
      var before := Run(c, arrivals[..n], dec, profiles);
      StoredUnits(c, arrivals[..n], dec, profiles)
      + (if before.Some? && CanStart(c, before.value.s, arrivals[n].p, profiles) && Stores(c, before.value.s, arrivals[n].p, profiles)
         then 1 else 0)
  }

  /** All the units a log reports as received. */
  function Reported(log: seq<Event>): int
    decreases |log|
  {
    if log == [] then 0 else
      Reported(log[..|log| - 1]) + (match log[|log| - 1] case Stats(received, _) => received case _ => 0)
  }

  predicate NoStats(log: seq<Event>) {
    forall e :: e in log ==> !e.Stats?
  }

  lemma {:induction false} ReportedJoins(x: seq<Event>, y: seq<Event>)
    ensures Reported(x + y) == Reported(x) + Reported(y)
    decreases |y|
  {
    if y == [] {
      assert x + y == x;
    } else {
      assert (x + y)[..|x + y| - 1] == x + y[..|y| - 1];
      ReportedJoins(x, y[..|y| - 1]);
    }
  }

  lemma {:induction false} NothingReported(log: seq<Event>)
    requires NoStats(log)
    ensures Reported(log) == 0
    decreases |log|
  {
    if log != [] {
      assert log[|log| - 1] in log;
      NothingReported(log[..|log| - 1]);
    }
  }

  /** Starting a frame first reports the one before it: what was stored of it, and
      the rest of its units, of both kinds, as lost. */
  lemma {:induction false} StartReports(c: Clock, s: State, a: Arrival, dec: Decoder)
    requires s.Wf() && Alloc(a.p).Allocated?
    ensures var o := StartFrame(c, s, a, dec);
            && o.log != [] && o.log[0].Stats? && NoStats(o.log[1..]) && o.s.received == 0
            && o.log[0].received == s.received
            && o.log[0].received + o.log[0].lost == (if s.frame == None then 0 else |s.frame.value.units|)
  {
    var f := OldFlushed(s, a, dec);
    var gap := Gap(c, s.cur, f.s.complete, a.p.frameIndex);
    assert StartFrame(c, s, a, dec).log[1..] == f.log + gap + [Begin(a.p.frameIndex, Alloc(a.p).frame.k)];
    hide Flush, AfterFlush, Alloc, Clock.After, Clock.Shift;
  }

  lemma AddReports(s: State, a: Arrival, dec: Decoder)
    requires s.Wf() && s.cur >= 0
    ensures var o := AddUnit(s, a, dec);
            NoStats(o.log) && o.s.received == s.received + (if Put(s.frame.value, a.p).Some? then 1 else 0)
  {
    hide Flush, AfterFlush, Put;
  }

  /** One packet reports what it takes off the count. */
  lemma {:induction false} StepReports(c: Clock, s: State, a: Arrival, dec: Decoder, profiles: nat)
    requires s.Wf() && CanStart(c, s, a.p, profiles)
    ensures var o := AvPacket(c, s, a, dec, profiles);
            Reported(o.log) + o.s.received == s.received + (if Stores(c, s, a.p, profiles) then 1 else 0)
  {
    hide Reported, Alloc, Put, StartFrame, AddUnit, NoStats;
    if Ignored(c, s, a.p, profiles) {
      NothingReportedYet();
    } else {
      var header := if s.profile != a.p.streamIndex then [Header(a.p.streamIndex)] else [];
      var s1 := s.(profile := a.p.streamIndex);
      var started := if NextFrame(c, s, a.p) then StartFrame(c, s1, a, dec) else Outcome(s1, []);
      var added := AddUnit(started.s, a, dec);
      HeaderReports(header);
      ReportedJoins(header + started.log, added.log);
      ReportedJoins(header, started.log);
      StartTotal(c, s, s1, a, dec, started, profiles);
      AddReports(started.s, a, dec);
      NothingReported(added.log);
    }
  }

  lemma HeaderReports(header: seq<Event>)
    requires forall e :: e in header ==> e.Header?
    ensures Reported(header) == 0
  {
    NothingReported(header);
  }

  lemma NothingReportedYet()
    ensures Reported([]) == 0
  {
  }

  lemma {:induction false} StartTotal(c: Clock, s: State, s1: State, a: Arrival, dec: Decoder, started: Outcome,
      profiles: nat)
    requires s.Wf() && s1.Wf() && s1 == s.(profile := s1.profile)
    requires CanStart(c, s, a.p, profiles) && !Ignored(c, s, a.p, profiles)
    requires started == if NextFrame(c, s, a.p) then StartFrame(c, s1, a, dec) else Outcome(s1, [])
    ensures Reported(started.log) + started.s.received == s.received
    ensures started.s.frame == Target(c, s, a.p, profiles)
  {
    if NextFrame(c, s, a.p) {
      StartReports(c, s1, a, dec);
      var log := started.log;
      ReportedJoins([log[0]], log[1..]);
      assert log == [log[0]] + log[1..] && [log[0]][..0] == [];
      NothingReported(log[1..]);
      assert Reported([log[0]]) == log[0].received;
      hide Reported;
    } else {
      NothingReportedYet();
    }
  }

  /** Over every stream, what was reported as received and what has been stored
      since the last report are together the units that were stored. */
  lemma {:induction false} StatsConserve(c: Clock, arrivals: seq<Arrival>, dec: Decoder, profiles: nat)
    requires Run(c, arrivals, dec, profiles).Some?
    ensures var o := Run(c, arrivals, dec, profiles).value;
            Reported(o.log) + o.s.received == StoredUnits(c, arrivals, dec, profiles)
    decreases |arrivals|
  {
    hide AvPacket, CanStart, Stores, Reported;
    if arrivals == [] {
      NothingReportedYet();
    } else {
      var n := |arrivals| - 1;
      StatsConserve(c, arrivals[..n], dec, profiles);
      var o := Run(c, arrivals[..n], dec, profiles).value;
      StepReports(c, o.s, arrivals[n], dec, profiles);
      ReportedJoins(o.log, AvPacket(c, o.s, arrivals[n], dec, profiles).log);
    }
  }
}
