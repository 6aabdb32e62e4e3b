/**
 * The other half of reliable sending: on a line that loses nothing, every
 * message arrives and every call of `psock_send` ends.
 */
module PsockProgress {
  import opened Bytes
  import opened Common
  import opened SequenceNumbers
  import opened Tcp
  import opened TcpDelivery
  import opened TcpTiling
  import opened TcpProgress
  import opened PsockSend
  import opened PsockDelivery

  /** No message is longer than a segment can be. */
  ghost predicate AllFit(msgs: seq<seq<byte>>) {
    forall i :: 0 <= i < |msgs| ==> |msgs[i]| <= 1460
  }

  /** The connection, the thread and the peer, and the segment on its way to the peer. */
  datatype Line = Line(w: World, seg: Option<Segment>, peer: Track)

  /** A segment that arrives where the application is silent, or is the thread; the other globals are as they may be. */
  function Delivery(seg: Segment, rto: byte, slen: uint16, buf: seq<byte>): Event {
    Arrives(seg, rto, [], slen, buf)
  }

  /** The segment is delivered, and what the peer answers comes back to the thread. */
  ghost function Round(l: Line, msgs: seq<seq<byte>>, rto: byte, slen: uint16, buf: seq<byte>): Line {
    if l.seg.None? then l
    else
      var out := Do(l.peer.conn, Delivery(l.seg.value, rto, slen, buf));
      var peer := After(l.peer, out);
      if out.seg.None? then Line(l.w, None, peer)
      else
        var e := Delivery(out.seg.value, rto, slen, buf);
        if !Possible(l.w, msgs, e) then Line(l.w, None, peer)
        else Line(Next(l.w, msgs, e), Result(l.w, msgs, e).seg, peer)
  }

  ghost function Rounds(l: Line, msgs: seq<seq<byte>>, rto: byte, slen: uint16, buf: seq<byte>, n: nat): Line
    decreases n
  {
    if n == 0 then l else Rounds(Round(l, msgs, rto, slen, buf), msgs, rto, slen, buf, n - 1)
  }

  // ------------------------------------------------------------- the two ends

  /** What the thread puts on the line: its next message, or only the acknowledgment of the SYNACK. */
  ghost predicate Carries(c: Conn, seg: Segment, data: seq<byte>) {
    && !seg.syn && !seg.fin && !seg.rst && seg.ack && seg.data == data
    && seg.seqno == c.sndNxt && seg.ackno == c.rcvNxt
  }

  /** The peer is where the connection says, open or about to be. */
  ghost predicate Meets(c: Conn, p: Conn) {
    && ((p.Is(ESTABLISHED) && p.len == 0) || (p.Is(SYN_RCVD) && p.len == 1))
    && p.rcvNxt == c.sndNxt && c.rcvNxt.Value() == (p.sndNxt.Value() + p.len) % TWO_32
  }

  ghost predicate Underway(l: Line, msgs: seq<seq<byte>>) {
    var c, app := l.w.ledger.conn, l.w.app;
    && Consistent(l.w, msgs) && c.state == ESTABLISHED && c.initialmss == 1460
    && Meets(c, l.peer.conn)
    && (l.seg.Some? ==> Carries(c, l.seg.value, if app.k < |msgs| then msgs[app.k] else []))
    && (l.seg.None? ==> app.k == |msgs| && l.peer.conn.state == ESTABLISHED)
    && (app.k == |msgs| && l.seg.Some? ==> l.peer.conn.state == SYN_RCVD)
    && (app.k < |msgs| ==> msgs[app.k] != [])
  }

  /** The peer takes the message and acknowledges it. */
  lemma PeerTakes(c: Conn, t: Track, seg: Segment, e: Event)
    requires e.Arrives? && e == Delivery(seg, e.rto, e.slen, e.buf) && Carries(c, seg, seg.data) && Meets(c, t.conn)
    requires 0 < |seg.data| <= 1460
    ensures var out := Do(t.conn, e);
      && After(t, out).given == t.given + seg.data && out.x.conn.Is(ESTABLISHED) && out.x.conn.len == 0
      && out.x.conn.rcvNxt.Value() == (c.sndNxt.Value() + |seg.data|) % TWO_32
      && out.x.conn.sndNxt == c.rcvNxt
      && out.seg == Some(PureAck(out.x.conn))
  {
    hide Do, Seq4.Value;
    var p := t.conn;
    if p.state == SYN_RCVD {
      SynRcvdOpens(p, e);
      PassiveSilence(p, e);
    } else {
      DataIsTaken(p, e);
      SilenceAcknowledges(p, e);
    }
    SameNumber(Do(p, e).x.conn.sndNxt, c.rcvNxt, p.sndNxt, p.len);
  }

  /**
   * When only the acknowledgment was lost, the peer answers the repeated message
   * with it, and is not given it again.
   */
  lemma LostAckIsRepaired(c: Conn, p: Conn, seg: Segment, e: Event)
    requires e.Arrives? && e.seg == seg && Carries(c, seg, seg.data) && |seg.data| == c.len > 0
    requires p.state == ESTABLISHED && p.rcvNxt.Value() == (c.sndNxt.Value() + c.len) % TWO_32
    ensures var out := Do(p, e);
      out.x.conn == p && out.given == [] && out.call == None && out.seg.Some? && AcksAll(c, out.seg.value)
  {
    hide Do;
    ValueInRange(c.sndNxt);
    assert p.rcvNxt != c.sndNxt;
    OutOfOrderIsAnswered(p, e);
    NothingGiven(p, e);
  }

  lemma NothingGiven(p: Conn, e: Event)
    requires e.Arrives? && p.state == ESTABLISHED && !e.seg.rst && !Expected(p, e.seg) && e.seg.data != []
    ensures Do(p, e).given == []
  {
  }

  lemma SameNumber(a: Seq4, b: Seq4, base: Seq4, n: nat)
    requires b.Value() == (base.Value() + n) % TWO_32 && (a.Value() == (base.Value() + n) % TWO_32)
    ensures a == b
  {
    ValueIsInjective(a, b);
  }

  /** A passive open completes, and its application has nothing to say. */
  lemma PassiveSilence(c: Conn, e: Event)
    requires e.Arrives? && c.Is(SYN_RCVD) && AcksAll(c, e.seg) && e.calls == []
    requires !e.seg.syn && !e.seg.fin && !e.seg.rst && Expected(c, e.seg)
    ensures var out := Do(c, e);
      && out.x.conn.len == 0
      && out.seg == if e.seg.data == [] then None
                    else Some(PureAck(out.x.conn))
  {
    hide Add32;
    AcksAllIff(c, e.seg);
  }

  // ------------------------------------------------------------ the thread's end

  lemma StartFits1460(msgs: seq<seq<byte>>, k: nat)
    requires AllFit(msgs) && k <= |msgs|
    ensures StartFits(msgs, k, 1460)
  {
  }

  /**
   * The thread is at the first message from `k` on that is not empty, and that
   * goes out whole; behind the last there is none.
   */
  ghost predicate MovesTo(msgs: seq<seq<byte>>, k: nat, sndNxt: Seq4, newdata: bool, out: Outcome, app: App)
    requires k <= |msgs|
  {
    && app == StartFrom(msgs, k)
    && out.x.conn.state == ESTABLISHED && out.x.conn.sndNxt == sndNxt
    && (app.k < |msgs| ==> out.seg.Some? && Carries(out.x.conn, out.seg.value, msgs[app.k]))
    && (app.k == |msgs| ==>
          if newdata then out.seg.Some? && Carries(out.x.conn, out.seg.value, []) else out.seg == None)
  }

  /** The acknowledgment of the message in flight: the call ends and the next message leaves. */
  lemma AckMovesOn(w: World, msgs: seq<seq<byte>>, e: Event)
    requires Consistent(w, msgs) && w.ledger.conn.state == ESTABLISHED && w.ledger.conn.initialmss == 1460
    requires AllFit(msgs) && w.app.k < |msgs| && msgs[w.app.k] != []
    requires e.Arrives? && |e.buf| == 1460 && AcksAll(w.ledger.conn, e.seg) && e.seg.wnd == 1460
    requires !e.seg.rst && !e.seg.syn && !e.seg.fin && e.seg.data == []
    ensures Possible(w, msgs, e)
    ensures MovesTo(msgs, w.app.k + 1, Add32(w.ledger.conn.sndNxt, w.ledger.conn.len), false,
                    Result(w, msgs, e), Next(w, msgs, e).app)
    ensures Next(w, msgs, e).ledger.conn.rcvNxt == w.ledger.conn.rcvNxt
    ensures Next(w, msgs, e).ledger.conn.initialmss == 1460
  {
    hide CallAndSend, RunThread, Start, Add32, StartFits, StartFrom, AcksAll;
    var c, app := w.ledger.conn, w.app;
    AcksAllIff(c, e.seg);
    var x := TakeData(Taken(w, e), e.seg).(slen := 0);
    var now := Now(true, false, 1460);
    StartFits1460(msgs, app.k + 1);
    CallAndSendShows(x, [], [], true);
    ThreadAnswers(app, msgs, now);
    StartFromIs(msgs, app.k + 1);
    AnswerKeeps(x, RunThread(app, msgs, now).1, [], true);
    SendsNext(x, StartFrom(msgs, app.k + 1), msgs, true, [], true);
  }

  /** The SYNACK of an active open: the first message leaves. */
  lemma SynAckMovesOn(w: World, msgs: seq<seq<byte>>, e: Event)
    requires Consistent(w, msgs) && w.ledger.conn.state == SYN_SENT && AllFit(msgs)
    requires e.Arrives? && |e.buf| == 1460 && AcksAll(w.ledger.conn, e.seg) && e.seg.mss == Some(1460)
    requires e.seg.IsSynAck()
    ensures Possible(w, msgs, e)
    ensures MovesTo(msgs, 0, Add32(w.ledger.conn.sndNxt, 1), true, Result(w, msgs, e), Next(w, msgs, e).app)
    ensures Next(w, msgs, e).ledger.conn.rcvNxt.Value() == (e.seg.seqno.Value() + 1) % TWO_32
    ensures Next(w, msgs, e).ledger.conn.initialmss == 1460
  {
    hide CallAndSend, RunThread, Start, Add32, StartFits, StartFrom, AcksAll, Seq4.Value;
    var c := w.ledger.conn;
    AcksAllIff(c, e.seg);
    Add32IsModular(e.seg.seqno, 1);
    var x := ActiveConnected(Taken(w, e), e.seg);
    var now := Now(false, false, 1460);
    StartFits1460(msgs, 0);
    CallAndSendShows(x, [], [], true);
    ThreadAnswers(App(0, IDLE), msgs, now);
    StartFromIs(msgs, 0);
    AnswerKeeps(x, RunThread(App(0, IDLE), msgs, now).1, [], true);
    SendsNext(x, StartFrom(msgs, 0), msgs, false, [], true);
  }

  // ------------------------------------------------------------------- rounds

  lemma NumbersMeet(c: Conn, p: Conn, base: Seq4, n: nat)
    requires n <= 65535 && p.rcvNxt.Value() == (base.Value() + n) % TWO_32 && c.sndNxt == Add32(base, n)
    ensures p.rcvNxt == c.sndNxt
  {
    hide Add32;
    Add32IsModular(base, n);
    ValueIsInjective(p.rcvNxt, c.sndNxt);
  }

  lemma InFlightIs(l: Line, msgs: seq<seq<byte>>)
    requires Underway(l, msgs) && l.w.app.k < |msgs|
    ensures l.seg.Some? && Carries(l.w.ledger.conn, l.seg.value, msgs[l.w.app.k])
    ensures l.w.ledger.conn.len == |msgs[l.w.app.k]| > 0
  {
  }

  /** A round with a message in flight: the peer is given it, and the next one is in flight. */
  lemma MessageRound(l: Line, msgs: seq<seq<byte>>, rto: byte, slen: uint16, buf: seq<byte>)
    requires Underway(l, msgs) && AllFit(msgs) && |buf| == 1460 && l.w.app.k < |msgs|
    ensures var l' := Round(l, msgs, rto, slen, buf);
      && Underway(l', msgs) && l'.w.app == StartFrom(msgs, l.w.app.k + 1)
      && l'.peer.given == l.peer.given + msgs[l.w.app.k]
  {
    hide Do, Consistent, Possible, Next, Result, StartFrom, Add32, Seq4.Value, AcksAll, Start;
    var c, k := l.w.ledger.conn, l.w.app.k;
    InFlightIs(l, msgs);
    var e1 := Delivery(l.seg.value, rto, slen, buf);
    PeerTakes(c, l.peer, l.seg.value, e1);
    var out := Do(l.peer.conn, e1);
    var e2 := Delivery(out.seg.value, rto, slen, buf);
    AcksItAll(c, out.seg.value);
    AckMovesOn(l.w, msgs, e2);
    EveryEventSteps(l.w, msgs, e2);
    StepStaysConsistent(l.w, msgs, e2);
    NextKeepsConn(l.w, msgs, e2);
    NumbersMeet(Next(l.w, msgs, e2).ledger.conn, out.x.conn, c.sndNxt, c.len);
    NumberInRange(c.rcvNxt);
    StartFromIs(msgs, k + 1);
  }

  lemma AcksItAll(c: Conn, seg: Segment)
    requires seg.ack && c.len > 0 && seg.ackno.Value() == (c.sndNxt.Value() + c.len) % TWO_32
    ensures AcksAll(c, seg)
  {
  }

  lemma StepStaysConsistent(w: World, msgs: seq<seq<byte>>, e: Event)
    requires StepsRightly(w, msgs, e)
    ensures Possible(w, msgs, e) && Consistent(Next(w, msgs, e), msgs)
  {
  }

  lemma NextKeepsConn(w: World, msgs: seq<seq<byte>>, e: Event)
    requires Possible(w, msgs, e)
    ensures Next(w, msgs, e).ledger.conn == Result(w, msgs, e).x.conn
  {
  }

  /** The peer has only been waiting for the acknowledgment of its SYNACK. */
  lemma OpeningRound(l: Line, msgs: seq<seq<byte>>, rto: byte, slen: uint16, buf: seq<byte>)
    requires Underway(l, msgs) && |buf| == 1460 && l.w.app.k == |msgs| && l.seg.Some?
    ensures var l' := Round(l, msgs, rto, slen, buf);
      Underway(l', msgs) && l'.w == l.w && l'.seg == None && l'.peer.given == l.peer.given
  {
    hide Do, Consistent, Add32, Seq4.Value;
    var p, e := l.peer.conn, Delivery(l.seg.value, rto, slen, buf);
    SynRcvdOpens(p, e);
    PassiveSilence(p, e);
    NumberInRange(p.rcvNxt);
    ValueIsInjective(Do(p, e).x.conn.rcvNxt, p.rcvNxt);
    NumberInRange(Do(p, e).x.conn.sndNxt);
  }

  lemma {:induction false} NothingMoves(l: Line, msgs: seq<seq<byte>>, rto: byte, slen: uint16, buf: seq<byte>, n: nat)
    requires l.seg == None
    ensures Rounds(l, msgs, rto, slen, buf, n) == l
    decreases n
  {
    if n > 0 {
      NothingMoves(l, msgs, rto, slen, buf, n - 1);
    }
  }

  /** Empty messages add nothing to what remains. */
  lemma {:induction false} RemainsAfterEmpty(msgs: seq<seq<byte>>, k: nat)
    requires k <= |msgs|
    ensures Concat(msgs[StartFrom(msgs, k).k..]) == Concat(msgs[k..])
    decreases |msgs| - k
  {
    if k < |msgs| && msgs[k] == [] {
      RemainsAfterEmpty(msgs, k + 1);
      assert msgs[k..][1..] == msgs[k + 1..];
    }
  }

  /** What remains from message `k` on is that message and what remains when the thread has moved on. */
  lemma Remains(msgs: seq<seq<byte>>, k: nat, given: seq<byte>)
    requires k < |msgs|
    ensures given + Concat(msgs[k..]) == given + msgs[k] + Concat(msgs[StartFrom(msgs, k + 1).k..])
  {
    RemainsAfterEmpty(msgs, k + 1);
    assert msgs[k..][0] == msgs[k] && msgs[k..][1..] == msgs[k + 1..];
  }

  lemma FirstRound(l: Line, msgs: seq<seq<byte>>, rto: byte, slen: uint16, buf: seq<byte>, n: nat)
    requires n > 0
    ensures Rounds(l, msgs, rto, slen, buf, n) == Rounds(Round(l, msgs, rto, slen, buf), msgs, rto, slen, buf, n - 1)
  {
    hide Round;
  }

  /** From a message in flight, every round delivers one, until all have arrived and all calls have ended. */
  lemma {:induction false} RoundsDeliver(l: Line, msgs: seq<seq<byte>>, rto: byte, slen: uint16, buf: seq<byte>, n: nat)
    requires Underway(l, msgs) && AllFit(msgs) && |buf| == 1460 && l.w.app.k <= |msgs| < l.w.app.k + n
    ensures var l' := Rounds(l, msgs, rto, slen, buf, n);
      && Underway(l', msgs) && l'.w.app.k == |msgs| && l'.seg == None
      && l'.peer.given == l.peer.given + Concat(msgs[l.w.app.k..])
    decreases n
  {
    hide Underway, Round, Rounds, AllFit, StartFrom, Concat;
    var k := l.w.app.k;
    if k < |msgs| {
      MessageRound(l, msgs, rto, slen, buf);
      FirstRound(l, msgs, rto, slen, buf, n);
      RoundsDeliver(Round(l, msgs, rto, slen, buf), msgs, rto, slen, buf, n - 1);
      Remains(msgs, k, l.peer.given);
    } else {
      LastRound(l, msgs, rto, slen, buf, n);
    }
  }

  lemma LastRound(l: Line, msgs: seq<seq<byte>>, rto: byte, slen: uint16, buf: seq<byte>, n: nat)
    requires Underway(l, msgs) && |buf| == 1460 && l.w.app.k == |msgs| && n > 0
    ensures var l' := Rounds(l, msgs, rto, slen, buf, n);
      && Underway(l', msgs) && l'.w.app.k == |msgs| && l'.seg == None
      && l'.peer.given == l.peer.given + Concat(msgs[|msgs|..])
  {
    hide Underway, Round;
    assert msgs[|msgs|..] == [];
    assert l.peer.given + [] == l.peer.given;
    if l.seg.Some? {
      OpeningRound(l, msgs, rto, slen, buf);
      NothingMoves(Round(l, msgs, rto, slen, buf), msgs, rto, slen, buf, n - 1);
    } else {
      NothingMoves(l, msgs, rto, slen, buf, n);
    }
  }

  /** The SYN of an active open, as the peer received it, has opened this connection there. */
  ghost predicate OpenedBy(c: Conn, p: Conn) {
    p.Is(SYN_RCVD) && p.len == 1 && p.rcvNxt.Value() == (c.sndNxt.Value() + 1) % TWO_32
  }

  /**
   * From the SYNACK on, on a line that loses nothing: within a round for each
   * message and one more, the peer has been given all the messages in call
   * order, every call of `psock_send` has ended, and nothing is outstanding.
   */
  lemma AllMessagesArrive(w: World, msgs: seq<seq<byte>>, p: Conn, rto: byte, slen: uint16, buf: seq<byte>)
    requires Consistent(w, msgs) && w.ledger.conn.state == SYN_SENT && AllFit(msgs) && |buf| == 1460
    requires OpenedBy(w.ledger.conn, p)
    ensures var synack := Segment(false, true, false, false, true, p.sndNxt, p.rcvNxt, 1460, Some(1460), []);
      var e := Delivery(synack, rto, slen, buf);
      && Possible(w, msgs, e)
      && var l := Line(Next(w, msgs, e), Result(w, msgs, e).seg, Track(p, [], 0, 0));
         var l' := Rounds(l, msgs, rto, slen, buf, |msgs| + 1);
         && l'.peer.given == Concat(msgs) && l'.w.app.k == |msgs|
         && l'.peer.conn.Is(ESTABLISHED) && l'.w.ledger.conn.Is(ESTABLISHED) && l'.w.ledger.conn.len == 0
  {
    hide Rounds, Possible, Next, Result, Do, Add32, Seq4.Value, Consistent, StartFrom, AcksAll;
    var c := w.ledger.conn;
    var synack := Segment(false, true, false, false, true, p.sndNxt, p.rcvNxt, 1460, Some(1460), []);
    var e := Delivery(synack, rto, slen, buf);
    OneOutstanding(w, msgs);
    AcksItAll(c, synack);
    SynAckMovesOn(w, msgs, e);
    EveryEventSteps(w, msgs, e);
    StepStaysConsistent(w, msgs, e);
    NextKeepsConn(w, msgs, e);
    NumbersMeet(Next(w, msgs, e).ledger.conn, p, c.sndNxt, 1);
    StartFromIs(msgs, 0);
    var l := Line(Next(w, msgs, e), Result(w, msgs, e).seg, Track(p, [], 0, 0));
    assert Underway(l, msgs);
    RoundsDeliver(l, msgs, rto, slen, buf, |msgs| + 1);
    RemainsAfterEmpty(msgs, 0);
    assert msgs[0..] == msgs;
    AllAcknowledged(Rounds(l, msgs, rto, slen, buf, |msgs| + 1), msgs);
  }

  lemma OneOutstanding(w: World, msgs: seq<seq<byte>>)
    requires Consistent(w, msgs) && w.ledger.conn.state == SYN_SENT
    ensures w.ledger.conn.len == 1
  {
  }

  lemma AllAcknowledged(l: Line, msgs: seq<seq<byte>>)
    requires Underway(l, msgs) && l.w.app.k == |msgs| && l.seg == None
    ensures l.peer.conn.Is(ESTABLISHED) && l.w.ledger.conn.Is(ESTABLISHED) && l.w.ledger.conn.len == 0
  {
  }
}
