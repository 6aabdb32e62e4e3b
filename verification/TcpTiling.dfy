/**
 * The send side: stop-and-wait. The ranges of sequence numbers that a
 * connection ever uses follow each other without gap or overlap.
 */
module TcpTiling {
  import opened Bytes
  import opened Common
  import opened SequenceNumbers
  import opened Tcp
  import opened TcpDelivery
  import opened TcpInvariant

  // ------------------------------------------------------------------ ranges

  /** Sequence numbers relative to the initial one, not wrapped. */
  datatype Range = Range(start: nat, len: nat)

  /** A connection with the offset of snd_nxt, and every range it has claimed for a SYN, data or a FIN. */
  datatype Ledger = Ledger(conn: Conn, una: nat, claims: seq<Range>)

  /** The step puts something new into flight. */
  predicate Claims(c: Conn, out: Outcome) {
    && out.x.conn.len > 0
    && (out.acked || c.len == 0 || LeavesByFin(c, out.x.conn))
  }

  predicate LeavesByFin(c: Conn, c': Conn) {
    c.state == ESTABLISHED && (c'.state == FIN_WAIT_1 || c'.state == LAST_ACK)
  }

  function Record(l: Ledger, out: Outcome): Ledger {
    var una := l.una + (if out.acked then l.conn.len else 0);
    Ledger(out.x.conn, una, if Claims(l.conn, out) then l.claims + [Range(una, out.x.conn.len)] else l.claims)
  }

  function Keep(l: Ledger, events: seq<Event>): Ledger {
    if events == [] then l
    else
      var before := Keep(l, events[..|events| - 1]);
      Record(before, Do(before.conn, events[|events| - 1]))
  }

  /** Each range starts where the one before it ends; the first is the SYN, at offset 0. */
  ghost predicate Tile(claims: seq<Range>) {
    && claims != [] && claims[0] == Range(0, 1)
    && forall i :: 0 < i < |claims| ==> claims[i].start == claims[i - 1].start + claims[i - 1].len
  }

  /** The last range is the outstanding one, or has been acknowledged. */
  ghost predicate Tiled(l: Ledger) {
    && Tile(l.claims)
    && (l.conn.state != CLOSED ==>
          var last := l.claims[|l.claims| - 1];
          if l.conn.len > 0 then last == Range(l.una, l.conn.len) else last.start + last.len == l.una)
  }

  /** The last uip_close or uip_abort is a uip_close. */
  predicate AsksToClose(calls: seq<AppCall>)
    decreases |calls|
  {
    calls != [] && (AsksToClose(calls[1..]) || (calls[0].Close? && Abort !in calls[1..]))
  }

  /** The application closes in answer to new data while older data of its own is still outstanding. */
  predicate ClosesEarly(c: Conn, e: Event) {
    && e.Arrives? && !e.seg.rst && !OutOfOrder(c, e.seg)
    && c.state == ESTABLISHED && c.len > 0 && !AcksOutstanding(c, e.seg)
    && e.seg.data != [] && !c.stopped && !e.seg.fin
    && AsksToClose(e.calls)
  }

  lemma {:induction false} CloseFlag(x: Local, calls: seq<AppCall>)
    ensures var f := Callback(x, calls).flags;
      && (f.close && !f.abort <==> AsksToClose(calls) || (x.flags.close && !x.flags.abort && Abort !in calls))
      && (f.ackdata ==> x.flags.ackdata)
    decreases |calls|
  {
    if calls != [] {
      CloseFlag(Call(x, calls[0]), calls[1..]);
    }
  }

  /** What the application's answer does to the send side. */
  lemma SendKeepsSender(x: Local, calls: seq<AppCall>, given: seq<byte>, acked: bool)
    requires x.conn.state == ESTABLISHED && (x.flags.ackdata ==> x.conn.len == 0)
    requires !x.flags.close && !x.flags.abort
    ensures var out := CallAndSend(x, calls, given, acked);
      var c := out.x.conn;
      && out.acked == acked
      && c.sndNxt == x.conn.sndNxt
      && (c.state == ESTABLISHED || c.state == FIN_WAIT_1 || c.state == CLOSED)
      && (c.state == FIN_WAIT_1 <==> AsksToClose(calls))
      && (c.state == FIN_WAIT_1 ==> c.len == 1)
      && (c.state != FIN_WAIT_1 && x.conn.len > 0 ==> c.len == x.conn.len)
      && (c.state == CLOSED ==> c.len == x.conn.len)
  {
    hide Callback;
    CloseFlag(x, calls);
  }

  lemma TileSnoc(claims: seq<Range>, r: Range)
    requires Tile(claims)
    ensures Tile(claims + [r]) <==> r.start == claims[|claims| - 1].start + claims[|claims| - 1].len
  {
    var n := |claims|;
    assert (claims + [r])[n] == r && (claims + [r])[n - 1] == claims[n - 1];
  }

  /** The facts about a step that decide the ledger. */
  ghost predicate SendStep(c: Conn, e: Event, out: Outcome) {
    var c' := out.x.conn;
    && (out.acked ==> e.Arrives? && AcksOutstanding(c, e.seg) && c.len > 0)
    && c'.sndNxt == (if out.acked then Add32(c.sndNxt, c.len) else c.sndNxt)
    && (c'.state == CLOSED || out.acked || ClosesEarly(c, e) || c.len == 0 || c'.len == c.len)
    && (c'.state == CLOSED ==> c'.len == if out.acked then 0 else c.len)
    && (LeavesByFin(c, c') && c.len > 0 ==> out.acked || ClosesEarly(c, e))
    && (ClosesEarly(c, e) ==> c.len > 0 && !out.acked && LeavesByFin(c, c') && c'.len == 1)
    && (c.state == CLOSED ==> c'.state == CLOSED)
  }

  lemma ArrivalSends(c: Conn, e: Event, y: Local, seg: Segment, calls: seq<AppCall>, acked: bool)
    requires e.Arrives? && e.seg == seg && e.calls == calls && !seg.rst && !OutOfOrder(c, seg)
    requires acked == AcksOutstanding(c, seg) == y.flags.ackdata
    requires !y.flags.close && !y.flags.abort && (acked ==> c.len > 0)
    requires y.conn.state == c.state && y.conn.stopped == c.stopped && y.conn.len == if acked then 0 else c.len
    requires y.conn.sndNxt == if acked then Add32(c.sndNxt, c.len) else c.sndNxt
    ensures SendStep(c, e, InOrder(y, seg, calls, acked))
  {
    hide CallAndSend, Add32, AcksOutstanding, OutOfOrder, Callback, AsksToClose;
    match c.state {
      case SYN_RCVD => SendKeepsSender(PassiveConnected(y, seg), calls, seg.data, acked);
      case SYN_SENT => SendKeepsSender(ActiveConnected(y, seg), calls, [], acked);
      case ESTABLISHED =>
        var z := TakeData(y, seg);
        SendKeepsSender(z.(slen := 0), calls, if z.flags.newdata then seg.data else [], acked);
      case _ =>
    }
  }

  lemma EveryStepSends(c: Conn, e: Event)
    ensures SendStep(c, e, Do(c, e))
  {
    hide CallAndSend, Add32, AcksOutstanding, OutOfOrder, InOrder, AsksToClose, Callback;
    match e {
      case Arrives(seg, rto, calls, slen, buf) =>
        if !seg.rst && !OutOfOrder(c, seg) {
          var acked := AcksOutstanding(c, seg);
          AckMeansOutstanding(c, seg);
          ArrivalSends(c, e, AfterAck(Local(c, NO_FLAGS, slen, buf), acked, rto), seg, calls, acked);
        }
      case TimerTick(calls, buf) =>
        if c.state == ESTABLISHED {
          SendKeepsSender(Local(c, NO_FLAGS.(poll := true), 0, buf), calls, [], false);
        }
      case Polled(calls, slen, buf) =>
        if c.state == ESTABLISHED {
          SendKeepsSender(Local(c, NO_FLAGS.(poll := true), slen, buf), calls, [], false);
        }
    }
  }

  lemma AckMeansOutstanding(c: Conn, seg: Segment)
    ensures AcksOutstanding(c, seg) ==> c.len > 0
  {
  }

  /** snd_nxt moves only by the outstanding length, and only on an acknowledgment of exactly that. */
  lemma SndNxtMoves(c: Conn, e: Event)
    ensures var out := Do(c, e);
      && out.x.conn.sndNxt == (if out.acked then Add32(c.sndNxt, c.len) else c.sndNxt)
      && (out.acked ==> e.Arrives? && AcksOutstanding(c, e.seg))
  {
    hide Do;
    EveryStepSends(c, e);
  }

  /** A step keeps the tiling exactly when the application does not close early. */
  lemma StepTilesIff(l: Ledger, e: Event)
    requires Tiled(l)
    ensures Tiled(Record(l, Do(l.conn, e))) <==> !ClosesEarly(l.conn, e)
  {
    hide Do, ClosesEarly, AcksOutstanding;
    var out := Do(l.conn, e);
    EveryStepSends(l.conn, e);
    OnlyOpenClosesEarly(l.conn, e);
    if Claims(l.conn, out) {
      TileSnoc(l.claims, Range(Record(l, out).una, out.x.conn.len));
    }
  }

  lemma OnlyOpenClosesEarly(c: Conn, e: Event)
    ensures ClosesEarly(c, e) ==> c.state == ESTABLISHED
  {
  }

  // ------------------------------------------------------------------- runs

  ghost predicate NeverClosesEarly(l: Ledger, events: seq<Event>) {
    events == [] ||
    (NeverClosesEarly(l, events[..|events| - 1])
     && !ClosesEarly(Keep(l, events[..|events| - 1]).conn, events[|events| - 1]))
  }

  /** The offset kept in the ledger is where snd_nxt stands. */
  ghost predicate Counts(l: Ledger, iss: nat) {
    l.conn.sndNxt.Value() == (iss + l.una) % TWO_32
  }

  lemma StepCounts(l: Ledger, e: Event, iss: nat)
    requires Counts(l, iss)
    ensures Counts(Record(l, Do(l.conn, e)), iss)
  {
    hide Do, Add32, AcksOutstanding;
    SndNxtMoves(l.conn, e);
    Add32IsModular(l.conn.sndNxt, l.conn.len);
    AddTwice(iss + l.una, l.conn.len);
  }

  /**
   * Over every run in which the application does not close with data of its own
   * outstanding, the ranges used for SYN, data and FIN tile the sequence space
   * from the initial sequence number on, and snd_nxt is the end of the
   * acknowledged ones, modulo 2^32.
   */
  lemma {:induction false} SequenceTiling(l: Ledger, events: seq<Event>, iss: nat)
    requires Tiled(l) && Counts(l, iss) && NeverClosesEarly(l, events)
    ensures Tiled(Keep(l, events)) && Counts(Keep(l, events), iss)
  {
    hide Do, ClosesEarly, Tiled, Counts;
    if events != [] {
      var front, last := events[..|events| - 1], events[|events| - 1];
      SequenceTiling(l, front, iss);
      StepTilesIff(Keep(l, front), last);
      StepCounts(Keep(l, front), last, iss);
    }
  }

  /** Every connection starts that way. */
  lemma OpenIsTiled(c: Conn, iss: Seq4, syn: Segment, lport: uint16, rport: uint16, ripaddr: Addr)
    ensures var l := Ledger(ActiveOpen(c, iss, lport, rport, ripaddr), 0, [Range(0, 1)]);
      Tiled(l) && Counts(l, iss.Value())
    ensures var l := Ledger(PassiveOpen(c, iss, syn, lport, rport, ripaddr), 0, [Range(0, 1)]);
      Tiled(l) && Counts(l, iss.Value())
  {
    ValueInRange(iss);
  }

  // -------------------------------------------------------------- what is sent

  /** A segment that consumes sequence numbers is the outstanding range, all of it; its connection is not closed. */
  ghost predicate SendsOutstanding(out: Outcome) {
    out.seg.Some? && !out.seg.value.rst && out.seg.value.Span() > 0 ==>
      && out.seg.value.seqno == out.x.conn.sndNxt && out.seg.value.Span() == out.x.conn.len
      && out.x.conn.state != CLOSED
  }

  ghost predicate SendsAndBounds(out: Outcome) {
    SendsOutstanding(out) && Bounded(out.x.conn)
  }

  ghost predicate RoomForMss(e: Event) {
    |e.buf| == UIP_TCP_MSS
  }

  lemma AnswerSendsOutstanding(x: Local, calls: seq<AppCall>, given: seq<byte>, acked: bool)
    requires Bounded(x.conn) && x.conn.state == ESTABLISHED && |x.buf| == UIP_TCP_MSS
    ensures SendsAndBounds(CallAndSend(x, calls, given, acked))
  {
  }

  lemma OpeningSendsOutstanding(y: Local, seg: Segment, calls: seq<AppCall>, acked: bool)
    requires |y.buf| == UIP_TCP_MSS && y.conn.mss <= y.conn.initialmss <= UIP_TCP_MSS
    requires y.conn.state == SYN_RCVD || y.conn.state == SYN_SENT
    requires y.conn.len == if y.flags.ackdata then 0 else 1
    ensures y.conn.state == SYN_RCVD ==> SendsAndBounds(Tcp.InSynRcvd(y, seg, calls, acked))
    ensures y.conn.state == SYN_SENT ==> SendsAndBounds(Tcp.InSynSent(y, seg, calls, acked))
  {
    hide CallAndSend, Add32, Increment, Callback;
    AnswerSendsOutstanding(PassiveConnected(y, seg), calls, seg.data, acked);
    AnswerSendsOutstanding(ActiveConnected(y, seg), calls, [], acked);
  }

  lemma EstablishedSendsOutstanding(y: Local, seg: Segment, calls: seq<AppCall>, acked: bool)
    requires |y.buf| == UIP_TCP_MSS && Bounded(y.conn) && y.conn.state == ESTABLISHED
    ensures SendsAndBounds(Tcp.InEstablished(y, seg, calls, acked))
  {
    hide CallAndSend, Add32, Callback;
    var z := TakeData(y, seg);
    AnswerSendsOutstanding(z.(slen := 0), calls, if z.flags.newdata then seg.data else [], acked);
  }

  lemma FinWaitSendsOutstanding(y: Local, seg: Segment, calls: seq<AppCall>, acked: bool)
    requires y.conn.mss <= y.conn.initialmss <= UIP_TCP_MSS
    requires (y.conn.state == FIN_WAIT_1 || y.conn.state == FIN_WAIT_2)
    requires y.conn.len == if y.conn.state == FIN_WAIT_2 || y.flags.ackdata then 0 else 1
    ensures SendsAndBounds(InFinWait(y, seg, calls, acked))
  {
    hide Add32, Callback;
  }

  lemma ArrivalSendsOutstanding(y: Local, seg: Segment, calls: seq<AppCall>, acked: bool)
    requires |y.buf| == UIP_TCP_MSS && y.conn.mss <= y.conn.initialmss <= UIP_TCP_MSS
    requires if y.flags.ackdata then y.conn.len == 0 else LenFits(y.conn)
    ensures SendsAndBounds(InOrder(y, seg, calls, acked))
  {
    hide Tcp.InSynRcvd, Tcp.InSynSent, Tcp.InEstablished, InFinWait, Callback;
    match y.conn.state {
      case SYN_RCVD => OpeningSendsOutstanding(y, seg, calls, acked);
      case SYN_SENT => OpeningSendsOutstanding(y, seg, calls, acked);
      case ESTABLISHED => EstablishedSendsOutstanding(y, seg, calls, acked);
      case FIN_WAIT_1 => FinWaitSendsOutstanding(y, seg, calls, acked);
      case FIN_WAIT_2 => FinWaitSendsOutstanding(y, seg, calls, acked);
      case _ =>
    }
  }

  lemma TimerSendsOutstanding(x: Local, calls: seq<AppCall>)
    requires Bounded(x.conn) && |x.buf| == UIP_TCP_MSS && x.conn.len > 0
    ensures SendsAndBounds(TimeOut(x, calls)) && SendsAndBounds(Retransmit(x, calls))
  {
    hide Callback, Backoff, StopBit;
  }

  /**
   * Every segment sent, first transmission or not, is a reset, a pure ACK, or
   * exactly the outstanding range, whatever the application does.
   */
  lemma EveryStepSendsOutstanding(c: Conn, e: Event)
    requires Bounded(c) && RoomForMss(e)
    ensures SendsAndBounds(Do(c, e))
  {
    hide CallAndSend, Add32, InOrder, TimeOut, Retransmit, Callback;
    match e {
      case Arrives(seg, rto, calls, slen, buf) =>
        if !seg.rst && !OutOfOrder(c, seg) {
          var acked := AcksOutstanding(c, seg);
          ArrivalSendsOutstanding(AfterAck(Local(c, NO_FLAGS, slen, buf), acked, rto), seg, calls, acked);
        }
      case TimerTick(calls, buf) =>
        if c.len > 0 {
          TimerSendsOutstanding(Local(c, NO_FLAGS, 0, buf), calls);
        }
        if c.state == ESTABLISHED {
          AnswerSendsOutstanding(Local(c, NO_FLAGS.(poll := true), 0, buf), calls, [], false);
        }
      case Polled(calls, slen, buf) =>
        if c.state == ESTABLISHED {
          AnswerSendsOutstanding(Local(c, NO_FLAGS.(poll := true), slen, buf), calls, [], false);
        }
    }
  }

  /** The segment is the last of the ranges. */
  ghost predicate IsLastClaim(seg: Segment, claims: seq<Range>, iss: nat) {
    claims != [] && var last := claims[|claims| - 1];
    seg.seqno.Value() == (iss + last.start) % TWO_32 && seg.Span() == last.len
  }

  lemma StepSendsLastClaim(l: Ledger, e: Event, iss: nat)
    requires Tiled(l) && Counts(l, iss) && Bounded(l.conn) && RoomForMss(e) && !ClosesEarly(l.conn, e)
    ensures var out := Do(l.conn, e);
      && Bounded(out.x.conn)
      && (out.seg.Some? && !out.seg.value.rst && out.seg.value.Span() > 0 ==>
            IsLastClaim(out.seg.value, Record(l, out).claims, iss))
  {
    hide Do, ClosesEarly;
    EveryStepSendsOutstanding(l.conn, e);
    StepTilesIff(l, e);
    StepCounts(l, e, iss);
  }

  /**
   * Over every run that does not close early, with whatever stops and restarts:
   * each segment on the line that consumes sequence numbers is the last claimed
   * range, all of it. A retransmission repeats that range, and nothing else ever
   * overlaps it.
   */
  lemma {:induction false} SegmentsAreLastClaims(l: Ledger, events: seq<Event>, k: nat, iss: nat)
    requires Tiled(l) && Counts(l, iss) && Bounded(l.conn) && NeverClosesEarly(l, events)
    requires forall i :: 0 <= i < |events| ==> RoomForMss(events[i])
    ensures Bounded(Keep(l, events).conn)
    ensures k < |events| ==>
      var before := Keep(l, events[..k]);
      var out := Do(before.conn, events[k]);
      && Record(before, out).claims <= Keep(l, events).claims
      && (out.seg.Some? && !out.seg.value.rst && out.seg.value.Span() > 0 ==>
            IsLastClaim(out.seg.value, Record(before, out).claims, iss))
  {
    hide Do, ClosesEarly, Tiled, Counts, Bounded, IsLastClaim;
    if events != [] {
      var front, last := events[..|events| - 1], events[|events| - 1];
      SequenceTiling(l, front, iss);
      SegmentsAreLastClaims(l, front, k, iss);
      StepSendsLastClaim(Keep(l, front), last, iss);
      if k < |front| {
        assert front[..k] == events[..k];
      }
    }
  }

  // ---------------------------------------------------- a connection that is mute

  /** Both segment sizes are zero, and nothing is outstanding. */
  ghost predicate Mute(c: Conn) {
    c.mss == 0 && c.initialmss == 0 && c.state != SYN_SENT && (c.state == ESTABLISHED ==> c.len == 0)
  }

  lemma MuteAnswer(x: Local, calls: seq<AppCall>, given: seq<byte>, acked: bool)
    requires Mute(x.conn) && x.conn.state == ESTABLISHED
    ensures var out := CallAndSend(x, calls, given, acked);
      Mute(out.x.conn) && (out.seg.Some? ==> out.seg.value.data == [])
  {
  }

  lemma MuteArrival(y: Local, seg: Segment, calls: seq<AppCall>, acked: bool)
    requires Mute(y.conn)
    ensures var out := InOrder(y, seg, calls, acked);
      Mute(out.x.conn) && (out.seg.Some? ==> out.seg.value.data == [])
  {
    hide CallAndSend, Add32, Increment, Callback;
    match y.conn.state {
      case SYN_RCVD => MuteAnswer(PassiveConnected(y, seg), calls, seg.data, acked);
      case ESTABLISHED =>
        var z := TakeData(y, seg);
        MuteAnswer(z.(slen := 0), calls, if z.flags.newdata then seg.data else [], acked);
      case _ =>
    }
  }

  lemma MuteStep(c: Conn, e: Event)
    requires Mute(c)
    ensures var out := Do(c, e);
      Mute(out.x.conn) && (out.seg.Some? ==> out.seg.value.data == [])
  {
    hide CallAndSend, Add32, InOrder, Callback;
    match e {
      case Arrives(seg, rto, calls, slen, buf) =>
        if !seg.rst && !OutOfOrder(c, seg) {
          var acked := AcksOutstanding(c, seg);
          MuteArrival(AfterAck(Local(c, NO_FLAGS, slen, buf), acked, rto), seg, calls, acked);
        }
      case TimerTick(calls, buf) =>
        if c.state == ESTABLISHED {
          MuteAnswer(Local(c, NO_FLAGS.(poll := true), 0, buf), calls, [], false);
        }
      case Polled(calls, slen, buf) =>
        if c.state == ESTABLISHED {
          MuteAnswer(Local(c, NO_FLAGS.(poll := true), slen, buf), calls, [], false);
        }
    }
  }

  /** With both segment sizes zero, no run of the connection ever sends a byte of data. */
  lemma {:induction false} MuteForever(l: Ledger, events: seq<Event>, e: Event)
    requires Mute(l.conn)
    ensures Mute(Keep(l, events).conn)
    ensures var out := Do(Keep(l, events).conn, e); out.seg.Some? ==> out.seg.value.data == []
  {
    hide Do, Mute;
    if events != [] {
      MuteForever(l, events[..|events| - 1], e);
      MuteStep(Keep(l, events[..|events| - 1]).conn, events[|events| - 1]);
    }
    MuteStep(Keep(l, events).conn, e);
  }

  /** The connection sends data when `e` happens after `events`. */
  ghost predicate SendsData(c: Conn, events: seq<Event>, e: Event) {
    var out := Do(Keep(Ledger(c, 0, []), events).conn, e);
    out.seg.Some? && out.seg.value.data != []
  }

  /** Some run of the connection, with the buffer as it is, sends data. */
  ghost predicate CanSend(c: Conn) {
    exists events, e ::
      (forall i :: 0 <= i < |events| ==> RoomForMss(events[i])) && RoomForMss(e) && SendsData(c, events, e)
  }

  function Blank(): (buf: seq<byte>)
    ensures |buf| == UIP_TCP_MSS
  {
    seq(UIP_TCP_MSS, i => 0)
  }

  /** One byte of data in order, from a peer with a closed window, answered with one byte. */
  function Provoke(c: Conn): Event {
    Arrives(Segment(false, false, false, false, false, c.rcvNxt, c.rcvNxt, 0, None, [0]), 0, [Send([0])], 0, Blank())
  }

  lemma ProvokedSends(c: Conn)
    requires c.state == ESTABLISHED && !c.stopped && c.len == 0 && c.initialmss > 0
    ensures var out := Do(c, Provoke(c)); out.seg.Some? && out.seg.value.data == [0]
  {
    hide Add32;
    var e := Provoke(c);
    var y := TakeData(Local(c, NO_FLAGS, 0, Blank()), e.seg);
    var z := y.(slen := 1, buf := Overwrite(Blank(), [0]));
    assert [Send([0])][1..] == [] && [0][..1] == [0];
    assert Callback(y.(slen := 0), e.calls) == z;
    assert Overwrite(Blank(), [0])[..1] == [0];
  }

  /** An open connection with nothing outstanding can send if and only if its initial segment size is not zero. */
  lemma OpenCanSendIff(c: Conn)
    requires c.state == ESTABLISHED && !c.stopped && c.len == 0 && c.mss <= c.initialmss
    ensures CanSend(c) <==> c.initialmss != 0
  {
    hide Do;
    if c.initialmss != 0 {
      ProvokedSends(c);
      assert Keep(Ledger(c, 0, []), []).conn == c;
      assert SendsData(c, [], Provoke(c));
    } else {
      NeverSends(c);
    }
  }

  lemma NeverSends(c: Conn)
    requires Mute(c)
    ensures !CanSend(c)
  {
    hide Do, Keep;
    forall events, e
      ensures !SendsData(c, events, e)
    {
      MuteForever(Ledger(c, 0, []), events, e);
    }
  }

  /** The acknowledgment of our SYNACK. */
  function Acknowledge(c: Conn): Event {
    Arrives(Segment(false, false, false, false, true, c.rcvNxt, Add32(c.sndNxt, c.len), 0, None, []), 0, [], 0, Blank())
  }

  lemma AcknowledgedIsOpen(c: Conn)
    requires c.state == SYN_RCVD && !c.stopped && c.len == 1
    ensures var c' := Do(c, Acknowledge(c)).x.conn;
      c'.state == ESTABLISHED && !c'.stopped && c'.len == 0 && c'.initialmss == c.initialmss
  {
    hide Add32;
  }

  /**
   * A passive open can lead to a connection that sends data if and only if the
   * peer announces a segment size other than zero, or announces none and the
   * slot was left with one by an earlier connection. In a slot that was never
   * used the size is zero.
   */
  lemma PassiveOpenCanSendIff(c: Conn, iss: Seq4, syn: Segment, lport: uint16, rport: uint16, ripaddr: Addr)
    requires c.mss <= c.initialmss
    ensures CanSend(PassiveOpen(c, iss, syn, lport, rport, ripaddr))
      <==> (if syn.mss.Some? then syn.mss.value != 0 else c.initialmss != 0)
  {
    hide Do, Add32;
    var p := PassiveOpen(c, iss, syn, lport, rport, ripaddr);
    if p.initialmss == 0 {
      NeverSends(p);
    } else {
      AcknowledgedIsOpen(p);
      var l, events := Ledger(p, 0, []), [Acknowledge(p)];
      var c' := Do(p, Acknowledge(p)).x.conn;
      assert events[..0] == [];
      assert Keep(l, events) == Record(Keep(l, []), Do(p, Acknowledge(p)));
      ProvokedSends(c');
      assert SendsData(p, events, Provoke(c'));
    }
  }

  /** The same after the SYNACK that completes an active open; without an option the size is the largest. */
  lemma ActiveOpenCanSendIff(x: Local, synack: Segment)
    requires x.conn.mss <= x.conn.initialmss && x.conn.initialmss != 0
    ensures CanSend(ActiveConnected(x, synack).conn) <==> synack.mss != Some(0)
  {
    hide CanSend, Add32;
    OpenCanSendIff(ActiveConnected(x, synack).conn);
  }
}
