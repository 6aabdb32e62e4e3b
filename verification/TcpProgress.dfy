/**
 * What each step of the TCP engine is obliged to do, said with the fields of the
 * connection and the segment alone, and what follows over runs: data that
 * arrives in order is given to the application, all of it.
 */
module TcpProgress {
  import opened Bytes
  import opened Common
  import opened SequenceNumbers
  import opened Tcp
  import opened TcpInvariant
  import opened TcpDelivery
  import opened TcpTiling

  /** The segment starts where the receiver expects it. */
  predicate Expected(c: Conn, seg: Segment) {
    seg.seqno == c.rcvNxt
  }

  /** The segment is neither a reset nor out of order. */
  predicate Arrived(c: Conn, e: Event) {
    e.Arrives? && !e.seg.rst && (Expected(c, e.seg) || (e.seg.data == [] && !e.seg.syn && !e.seg.fin))
  }

  /** It acknowledges all that is outstanding, by the value of the number. */
  predicate AcksAll(c: Conn, seg: Segment) {
    seg.ack && c.len > 0 && seg.ackno.Value() == (c.sndNxt.Value() + c.len) % TWO_32
  }

  lemma AcksAllIff(c: Conn, seg: Segment)
    ensures AcksOutstanding(c, seg) <==> AcksAll(c, seg)
  {
    hide Add32;
    var next := Add32(c.sndNxt, c.len);
    Add32IsModular(c.sndNxt, c.len);
    if seg.ackno.Value() == next.Value() {
      ValueIsInjective(seg.ackno, next);
    }
  }

  /** The application neither closes, nor aborts, nor stops the connection. */
  predicate KeepsOpen(calls: seq<AppCall>) {
    forall i :: 0 <= i < |calls| ==> calls[i].Send? || calls[i].Restart?
  }

  lemma {:induction false} OpenCallback(x: Local, calls: seq<AppCall>)
    requires KeepsOpen(calls)
    ensures var f := Callback(x, calls).flags;
      f.close == x.flags.close && f.abort == x.flags.abort && f.ackdata == x.flags.ackdata
    ensures !x.conn.stopped ==> !StopBit(x.conn.stopped, calls)
    decreases |calls|
  {
    if calls != [] {
      OpenCallback(Call(x, calls[0]), calls[1..]);
    }
  }

  /** An acknowledgment of all that has been received; its window is closed while the application has stopped. */
  ghost predicate Acknowledges(c: Conn, seg: Segment) {
    seg.ack && seg.ackno == c.rcvNxt && seg.seqno == c.sndNxt && seg.wnd == if c.stopped then 0 else 1460
  }

  /** An acknowledgment and nothing else. */
  function PureAck(c: Conn): Segment {
    Segment(false, false, false, false, true, c.sndNxt, c.rcvNxt, 1460, None, [])
  }

  // ------------------------------------------------------------- the answer

  /** Whatever the application answers to new data, an acknowledgment of it leaves. */
  lemma AnswerAcknowledges(x: Local, calls: seq<AppCall>, given: seq<byte>, acked: bool)
    requires x.conn.state == ESTABLISHED && x.flags.newdata
    ensures var out := CallAndSend(x, calls, given, acked);
      && out.seg.Some? && Acknowledges(out.x.conn, out.seg.value)
      && out.x.conn.rcvNxt == x.conn.rcvNxt && out.call == Some(x.flags)
      && out.given == given && out.accepted == |given|
      && !out.finTaken && out.acked == acked
  {
    NewDataStays(x, calls);
  }

  lemma {:induction false} NewDataStays(x: Local, calls: seq<AppCall>)
    requires x.flags.newdata || x.flags.close || x.flags.abort
    ensures var f := Callback(x, calls).flags; f.newdata || f.close || f.abort
    decreases |calls|
  {
    if calls != [] {
      NewDataStays(Call(x, calls[0]), calls[1..]);
    }
  }

  lemma AnswerStaysOpen(x: Local, calls: seq<AppCall>, given: seq<byte>, acked: bool)
    requires x.conn.state == ESTABLISHED && KeepsOpen(calls) && !x.conn.stopped && !x.flags.close && !x.flags.abort
    ensures CallAndSend(x, calls, given, acked).x.conn.Is(ESTABLISHED)
  {
    OpenCallback(x, calls);
  }

  lemma AcceptCounts(c: Conn, n: nat)
    requires n <= 65535
    ensures Accept(c, n).rcvNxt.Value() == (c.rcvNxt.Value() + n) % TWO_32
    ensures Accept(c, n) == c.(rcvNxt := Accept(c, n).rcvNxt)
  {
    hide Add32, Seq4.Value;
    assert n % 65536 == n;
    Add32IsModular(c.rcvNxt, n);
  }

  // --------------------------------------------------------------- receiving

  /** What a step has accepted: all of the data, given to the application, with `n` numbers counted. */
  ghost predicate TakesAll(c: Conn, seg: Segment, out: Outcome, n: nat) {
    && out.given == seg.data && out.accepted == |seg.data|
    && out.x.conn.rcvNxt.Value() == (c.rcvNxt.Value() + n) % TWO_32
    && out.call.Some? && out.call.value.newdata == (seg.data != [])
  }

  lemma AckKeepsNumber(x: Local, acked: bool, rto: byte)
    ensures var c := AfterAck(x, acked, rto).conn;
      c.rcvNxt == x.conn.rcvNxt && c.state == x.conn.state && c.stopped == x.conn.stopped
  {
  }

  /** Data in order, in ESTABLISHED: counted, given to the application, and acknowledged. */
  lemma DataIsTaken(c: Conn, e: Event)
    requires e.Arrives? && c.state == ESTABLISHED && !c.stopped
    requires !e.seg.rst && !e.seg.fin && 0 < |e.seg.data| <= 65535 && Expected(c, e.seg)
    ensures var out := Do(c, e);
      && TakesAll(c, e.seg, out, |e.seg.data|) && out.call.value.ackdata == AcksAll(c, e.seg)
      && out.seg.Some? && Acknowledges(out.x.conn, out.seg.value)
      && (KeepsOpen(e.calls) ==> out.x.conn.Is(ESTABLISHED))
  {
    hide CallAndSend, Accept, AcksAll, AcksOutstanding, Seq4.Value;
    AcksAllIff(c, e.seg);
    var y := AfterAck(Local(c, NO_FLAGS, e.slen, e.buf), AcksOutstanding(c, e.seg), e.rto);
    AcceptCounts(y.conn, |e.seg.data|);
    AckKeepsNumber(Local(c, NO_FLAGS, e.slen, e.buf), AcksOutstanding(c, e.seg), e.rto);
    var x := TakeData(y, e.seg).(slen := 0);
    AnswerAcknowledges(x, e.calls, e.seg.data, AcksOutstanding(c, e.seg));
    if KeepsOpen(e.calls) {
      AnswerStaysOpen(x, e.calls, e.seg.data, AcksOutstanding(c, e.seg));
    }
  }

  /** An acknowledgment without data, or a segment that says nothing new. */
  lemma AckIsTold(c: Conn, e: Event)
    requires e.Arrives? && c.state == ESTABLISHED && !e.seg.rst && !e.seg.fin && e.seg.data == []
    requires e.seg.syn ==> Expected(c, e.seg)
    ensures var out := Do(c, e);
      && (if AcksAll(c, e.seg) then out.call == Some(NO_FLAGS.(ackdata := true))
          else out.call == None && out.seg == None)
      && out.given == [] && out.accepted == 0
      && out.x.conn.sndNxt.Value() == (c.sndNxt.Value() + if AcksAll(c, e.seg) then c.len else 0) % TWO_32
      && (!AcksAll(c, e.seg) ==> out.x.conn == c.(mss := out.x.conn.mss))
  {
    AcksAllIff(c, e.seg);
    Add32IsModular(c.sndNxt, c.len);
    NumberInRange(c.sndNxt);
    hide CallAndSend, Add32, AcksAll, AcksOutstanding, Seq4.Value, Accept;
    var acked := AcksOutstanding(c, e.seg);
    var x := TakeData(AfterAck(Local(c, NO_FLAGS, e.slen, e.buf), acked, e.rto), e.seg).(slen := 0);
    AnswerKeeps(x, e.calls, [], acked);
  }

  lemma AnswerKeeps(x: Local, calls: seq<AppCall>, given: seq<byte>, acked: bool)
    ensures var out := CallAndSend(x, calls, given, acked);
      && out.x.conn.sndNxt == x.conn.sndNxt && out.x.conn.rcvNxt == x.conn.rcvNxt
      && out.x.conn.mss == x.conn.mss && out.x.conn.initialmss == x.conn.initialmss
      && out.call == Some(x.flags) && out.given == given && out.accepted == |given|
      && !out.finTaken && out.acked == acked
  {
  }

  /**
   * An acknowledgment restarts the timer, with the estimate of the round trip if
   * there was no retransmission; what is sent next has all its retransmissions.
   */
  lemma AckRestartsTimer(c: Conn, e: Event)
    requires e.Arrives? && c.state == ESTABLISHED && !e.seg.rst && (!e.seg.fin || c.stopped) && AcksAll(c, e.seg)
    requires Expected(c, e.seg) || (e.seg.data == [] && !e.seg.syn && !e.seg.fin)
    ensures var c' := Do(c, e).x.conn;
      c'.timer == c'.rto == (if c.nrtx == 0 then e.rto else c.rto) && (KeepsOpen(e.calls) ==> c'.nrtx == 0)
  {
    hide CallAndSend, Add32;
    AcksAllIff(c, e.seg);
    var x := TakeData(AfterAck(Local(c, NO_FLAGS, e.slen, e.buf), true, e.rto), e.seg).(slen := 0);
    AnswerTimes(x, e.calls, if x.flags.newdata then e.seg.data else [], true);
  }

  lemma AnswerTimes(x: Local, calls: seq<AppCall>, given: seq<byte>, acked: bool)
    requires !x.flags.close && !x.flags.abort
    ensures var c' := CallAndSend(x, calls, given, acked).x.conn;
      c'.timer == x.conn.timer && c'.rto == x.conn.rto && (KeepsOpen(calls) ==> c'.nrtx == 0)
  {
    hide Callback;
    if KeepsOpen(calls) {
      OpenCallback(x, calls);
    }
  }

  /** The window of every segment in order sets the segment size, up to the size agreed at the start. */
  lemma WindowSetsSize(c: Conn, e: Event)
    requires e.Arrives? && c.state == ESTABLISHED && !e.seg.rst && (!e.seg.fin || c.stopped)
    requires Expected(c, e.seg) || (e.seg.data == [] && !e.seg.syn && !e.seg.fin)
    ensures Do(c, e).x.conn.initialmss == c.initialmss
    ensures Do(c, e).x.conn.mss == if 0 < e.seg.wnd < c.initialmss then e.seg.wnd else c.initialmss
  {
    hide CallAndSend, Add32, Accept;
    SizesOfAccept(c, |e.seg.data|);
    var y := AfterAck(Local(c, NO_FLAGS, e.slen, e.buf), AcksOutstanding(c, e.seg), e.rto);
    SizesOfAccept(y.conn, |e.seg.data|);
    var x := TakeData(y, e.seg).(slen := 0);
    AnswerKeeps(x, e.calls, if x.flags.newdata then e.seg.data else [], AcksOutstanding(c, e.seg));
  }

  lemma SizesOfAccept(c: Conn, n: nat)
    ensures Accept(c, n).initialmss == c.initialmss && Accept(c, n).mss == c.mss && Accept(c, n).stopped == c.stopped
  {
  }

  /** A FIN of our own: the next number after what is acknowledged, and the last. */
  ghost predicate IsFin(c: Conn, seg: Segment) {
    seg.fin && !seg.syn && !seg.rst && seg.data == [] && c.len == 1 && Acknowledges(c, seg)
  }

  /** The peer's FIN in order, with nothing left outstanding: counted behind its data, and answered with a FIN. */
  lemma FinIsTaken(c: Conn, e: Event)
    requires e.Arrives? && c.state == ESTABLISHED && !c.stopped
    requires !e.seg.rst && e.seg.fin && |e.seg.data| < 65535 && Expected(c, e.seg)
    requires c.len == 0 || AcksAll(c, e.seg)
    ensures var out := Do(c, e);
      && TakesAll(c, e.seg, out, |e.seg.data| + 1) && out.finTaken && out.call.value.close
      && out.x.conn.Is(LAST_ACK) && out.x.conn.nrtx == 0 && out.seg.Some? && IsFin(out.x.conn, out.seg.value)
  {
    hide Add32, Callback, StopBit;
    AcksAllIff(c, e.seg);
    var y := AfterAck(Local(c, NO_FLAGS, e.slen, e.buf), AcksOutstanding(c, e.seg), e.rto);
    AcceptCounts(y.conn, 1 + |e.seg.data|);
  }

  /** With something outstanding that it does not acknowledge, it is left for the peer to repeat. */
  lemma FinIsPutOff(c: Conn, e: Event)
    requires e.Arrives? && c.state == ESTABLISHED && !c.stopped && !e.seg.rst && e.seg.fin && Expected(c, e.seg)
    requires c.len > 0 && !AcksAll(c, e.seg)
    ensures var out := Do(c, e);
      out.x.conn == c && out.call == None && out.seg == None && out.accepted == 0 && !out.finTaken
  {
    AcksAllIff(c, e.seg);
  }

  /** The acknowledgment of our SYNACK opens the connection, and data that comes with it is given at once. */
  lemma SynRcvdOpens(c: Conn, e: Event)
    requires e.Arrives? && c.state == SYN_RCVD && !c.stopped && !e.seg.rst && AcksAll(c, e.seg) && |e.seg.data| <= 65535
    requires Expected(c, e.seg) || (e.seg.data == [] && !e.seg.syn && !e.seg.fin)
    ensures var out := Do(c, e);
      && TakesAll(c, e.seg, out, |e.seg.data|) && out.call.value.connected
      && out.x.conn.sndNxt.Value() == (c.sndNxt.Value() + c.len) % TWO_32
      && (KeepsOpen(e.calls) ==> out.x.conn.Is(ESTABLISHED))
      && out.x.conn.mss == c.mss && out.x.conn.initialmss == c.initialmss
      && (e.seg.data != [] ==> out.seg.Some? && Acknowledges(out.x.conn, out.seg.value))
  {
    hide Do, CallAndSend, Add32, AcksAll, Seq4.Value;
    var x := SynRcvdAnswers(c, e);
    AnswerKeeps(x, e.calls, e.seg.data, true);
    if e.seg.data != [] {
      AnswerAcknowledges(x, e.calls, e.seg.data, true);
    }
    if KeepsOpen(e.calls) {
      AnswerStaysOpen(x, e.calls, e.seg.data, true);
    }
  }

  lemma SynRcvdAnswers(c: Conn, e: Event) returns (x: Local)
    requires e.Arrives? && c.state == SYN_RCVD && !c.stopped && !e.seg.rst && AcksAll(c, e.seg) && |e.seg.data| <= 65535
    requires Expected(c, e.seg) || (e.seg.data == [] && !e.seg.syn && !e.seg.fin)
    ensures Do(c, e) == CallAndSend(x, e.calls, e.seg.data, true)
    ensures x.conn.Is(ESTABLISHED) && x.flags == NO_FLAGS.(connected := true, newdata := e.seg.data != [])
    ensures x.conn.rcvNxt.Value() == (c.rcvNxt.Value() + |e.seg.data|) % TWO_32
    ensures x.conn.sndNxt.Value() == (c.sndNxt.Value() + c.len) % TWO_32
    ensures x.conn.mss == c.mss && x.conn.initialmss == c.initialmss
  {
    NumberInRange(c.rcvNxt);
    Add32IsModular(c.sndNxt, c.len);
    AcksAllIff(c, e.seg);
    hide CallAndSend, Accept, Add32, AcksAll, AcksOutstanding, Seq4.Value;
    var y := AfterAck(Local(c, NO_FLAGS, e.slen, e.buf), true, e.rto);
    AcceptCounts(y.conn.To(ESTABLISHED).(len := 0), |e.seg.data|);
    x := PassiveConnected(y, e.seg);
  }

  /** Without that acknowledgment the connection goes on waiting for it. */
  lemma SynRcvdWaits(c: Conn, e: Event)
    requires Arrived(c, e) && c.state == SYN_RCVD && !AcksAll(c, e.seg)
    ensures var out := Do(c, e);
      out.x.conn == c && out.call == None && out.seg == None && out.accepted == 0 && !out.finTaken
  {
    AcksAllIff(c, e.seg);
  }

  /** While the application has stopped the connection, neither data nor FIN is taken. */
  lemma StoppedTakesNothing(c: Conn, e: Event)
    requires e.Arrives? && c.state == ESTABLISHED && c.stopped && !e.seg.rst
    ensures var out := Do(c, e);
      && out.given == [] && out.accepted == 0 && !out.finTaken && out.x.conn.rcvNxt == c.rcvNxt
      && (out.call.Some? ==> !out.call.value.newdata)
  {
    hide CallAndSend, Add32;
    var acked := AcksOutstanding(c, e.seg);
    var x := TakeData(AfterAck(Local(c, NO_FLAGS, e.slen, e.buf), acked, e.rto), e.seg).(slen := 0);
    AnswerKeeps(x, e.calls, [], acked);
  }

  /** The SYNACK of an active open: connected, one behind the peer's first number, with the announced segment size. */
  lemma SynAckOpens(c: Conn, e: Event)
    requires e.Arrives? && c.state == SYN_SENT && AcksAll(c, e.seg)
    requires e.seg.syn && e.seg.ack && !e.seg.fin && !e.seg.rst && !e.seg.psh
    ensures var out := Do(c, e);
      && out.call.Some? && out.call.value.connected && out.given == [] && out.accepted == 0
      && out.x.conn.rcvNxt.Value() == (e.seg.seqno.Value() + 1) % TWO_32
      && out.x.conn.sndNxt.Value() == (c.sndNxt.Value() + c.len) % TWO_32
      && (KeepsOpen(e.calls) ==> out.x.conn.Is(ESTABLISHED))
      && out.x.conn.mss == (if e.seg.mss.None? then c.mss else if e.seg.mss.value > 1460 then 1460 else e.seg.mss.value)
      && (e.seg.mss.Some? ==> out.x.conn.initialmss == out.x.conn.mss)
      && out.seg.Some? && Acknowledges(out.x.conn, out.seg.value)
  {
    hide CallAndSend, Add32;
    AcksAllIff(c, e.seg);
    Add32IsModular(c.sndNxt, c.len);
    var y := AfterAck(Local(c, NO_FLAGS, e.slen, e.buf), true, e.rto);
    AcceptCounts(WithMss(y.conn, e.seg.mss).To(ESTABLISHED).(rcvNxt := e.seg.seqno, len := 0), 1);
    var x := ActiveConnected(y, e.seg);
    AnswerKeeps(x, e.calls, [], true);
    AnswerAcknowledges(x, e.calls, [], true);
    if KeepsOpen(e.calls) {
      AnswerStaysOpen(x, e.calls, [], true);
    }
  }

  /** Any other answer that passes the sequence check is refused with a reset. */
  lemma RefusalResets(c: Conn, e: Event)
    requires e.Arrives? && c.state == SYN_SENT && !e.seg.rst
    requires var synack := e.seg.syn && e.seg.ack && !e.seg.fin && !e.seg.psh;
      && !(synack && AcksAll(c, e.seg))
      && (synack || Expected(c, e.seg) || (e.seg.data == [] && !e.seg.syn && !e.seg.fin))
    ensures var out := Do(c, e);
      && out.x.conn.Is(CLOSED) && out.call == Some(NO_FLAGS.(abort := true))
      && out.seg.Some? && out.seg.value.rst && out.seg.value.ack && out.seg.value.data == []
      && out.seg.value.seqno == e.seg.ackno && out.seg.value.ackno.Value() == (e.seg.seqno.Value() + 1) % TWO_32
  {
    hide Add32, Callback;
    AcksAllIff(c, e.seg);
    IncrementIsModular(e.seg.seqno);
  }

  /** A segment out of order changes nothing, and is answered with what is expected. */
  lemma OutOfOrderIsAnswered(c: Conn, e: Event)
    requires e.Arrives? && !e.seg.rst && !Expected(c, e.seg) && (e.seg.data != [] || e.seg.syn || e.seg.fin)
    requires !(c.state == SYN_SENT && e.seg.syn && e.seg.ack && !e.seg.fin && !e.seg.psh)
    ensures var out := Do(c, e);
      && out.x.conn == c && out.call == None && out.accepted == 0 && !out.finTaken && !out.acked
      && out.seg.Some? && Acknowledges(c, out.seg.value) && out.seg.value.Span() == 0 && !out.seg.value.rst
  {
  }

  /** A reset ends the connection, whatever its numbers. */
  lemma ResetIsTold(c: Conn, e: Event)
    requires e.Arrives? && e.seg.rst
    ensures var out := Do(c, e);
      && out.x.conn.state == CLOSED && out.call == Some(NO_FLAGS.(abort := true)) && out.seg == None && out.given == []
  {
    hide Callback;
  }

  // ----------------------------------------------------------------- closing

  /** The number behind `n` bytes of data and, if there is one, a FIN. */
  function Behind(next: Seq4, n: nat, fin: bool): Seq4 {
    var b := if n > 0 then Add32(next, n % 65536) else next;
    if fin then Add32(b, 1) else b
  }

  lemma BehindCounts(next: Seq4, n: nat, fin: bool)
    requires n < 65535
    ensures Behind(next, n, fin).Value() == (next.Value() + n + if fin then 1 else 0) % TWO_32
  {
    ValueInRange(next);
    hide Add32, Seq4.Value;
    assert n % 65536 == n;
    var b := if n > 0 then Add32(next, n) else next;
    Add32IsModular(next, n);
    assert b.Value() == (next.Value() + n) % TWO_32;
    Add32IsModular(b, 1);
    AddTwice(next.Value() + n, 1);
  }

  /** The peer's data and FIN are counted, none of it is given, and the application is told of the FIN. */
  ghost predicate CountsFin(c: Conn, seg: Segment, out: Outcome) {
    && out.x.conn.rcvNxt.Value() == (c.rcvNxt.Value() + |seg.data| + if seg.fin then 1 else 0) % TWO_32
    && out.given == [] && out.accepted == |seg.data| && out.finTaken == seg.fin
    && out.call == if seg.fin then Some(NO_FLAGS.(close := true)) else None
  }

  /** What leaves, if anything does, is a pure acknowledgment. */
  ghost predicate OnlyAcknowledges(out: Outcome) {
    out.seg.Some? ==>
      Acknowledges(out.x.conn, out.seg.value) && out.seg.value.Span() == 0 && !out.seg.value.rst
  }

  /** FIN_WAIT_1, with our FIN acknowledged, the peer's arrived, both or neither. */
  lemma FinWait1Moves(c: Conn, e: Event)
    requires Arrived(c, e) && c.state == FIN_WAIT_1 && |e.seg.data| < 65535
    ensures var out, acked := Do(c, e), AcksAll(c, e.seg);
      && out.x.conn.state == (if e.seg.fin then (if acked then TIME_WAIT else CLOSING)
                              else if acked then FIN_WAIT_2 else FIN_WAIT_1)
      && out.x.conn.len == (if acked then 0 else c.len)
      && (out.x.conn.state == TIME_WAIT ==> out.x.conn.timer == 0)
      && CountsFin(c, e.seg, out) && OnlyAcknowledges(out)
      && (out.seg.Some? <==> e.seg.fin || (e.seg.data != [] && !acked))
  {
    hide Add32, Callback, StopBit, Seq4.Value;
    AcksAllIff(c, e.seg);
    BehindCounts(c.rcvNxt, |e.seg.data|, e.seg.fin);
    hide AcksAll, AcksOutstanding;
    assert Do(c, e).x.conn.rcvNxt == Behind(c.rcvNxt, |e.seg.data|, e.seg.fin);
  }

  lemma FinWait2Moves(c: Conn, e: Event)
    requires Arrived(c, e) && c.state == FIN_WAIT_2 && c.len == 0 && |e.seg.data| < 65535
    ensures var out := Do(c, e);
      && out.x.conn.state == (if e.seg.fin then TIME_WAIT else FIN_WAIT_2)
      && (out.x.conn.state == TIME_WAIT ==> out.x.conn.timer == 0)
      && CountsFin(c, e.seg, out) && OnlyAcknowledges(out)
      && (out.seg.Some? <==> e.seg.fin || e.seg.data != [])
  {
    hide Add32, Callback, StopBit, Seq4.Value;
    BehindCounts(c.rcvNxt, |e.seg.data|, e.seg.fin);
    assert Do(c, e).x.conn.rcvNxt == Behind(c.rcvNxt, |e.seg.data|, e.seg.fin);
  }

  /** The last acknowledgments; anything else in order leaves these states as they are. */
  lemma LastAcksMove(c: Conn, e: Event)
    requires Arrived(c, e) && (c.state == CLOSING || c.state == LAST_ACK || c.state == TIME_WAIT)
    ensures c.state == CLOSING ==>
      var out := Do(c, e);
      && out.seg == None && out.call == None
      && if AcksAll(c, e.seg) then out.x.conn.Is(TIME_WAIT) && out.x.conn.timer == 0 else out.x.conn == c
    ensures c.state == LAST_ACK ==>
      var out := Do(c, e);
      && out.seg == None && (AcksAll(c, e.seg) ==> out.x.conn.state == CLOSED)
      && if AcksAll(c, e.seg) then out.call == Some(NO_FLAGS.(close := true)) else out.call == None && out.x.conn == c
    ensures c.state == TIME_WAIT ==>
      var out := Do(c, e);
      out.x.conn.state == TIME_WAIT && out.call == None && out.seg.Some? && OnlyAcknowledges(out)
  {
    hide Add32, Callback;
    AcksAllIff(c, e.seg);
  }

  // ------------------------------------------------------------------ timers

  predicate InOpening(s: TcpState) {
    s == SYN_SENT || s == SYN_RCVD
  }

  predicate InClosing(s: TcpState) {
    s == FIN_WAIT_1 || s == CLOSING || s == LAST_ACK
  }

  /** The waits between retransmissions. */
  const WAITS := [3, 6, 12, 24, 48, 48, 48, 48]

  /** The timer has run out with something outstanding and retransmissions left. */
  predicate Retries(c: Conn, e: Event) {
    e.TimerTick? && c.len > 0 && c.timer == 0 && c.nrtx < if InOpening(c.state) then 5 else 8
  }

  /**
   * Outside ESTABLISHED a retransmission is the SYN, the SYNACK or the FIN that
   * is outstanding, with its number, and the timer is set to the next wait.
   */
  lemma RetransmissionRepeats(c: Conn, e: Event)
    requires Retries(c, e) && LenFits(c) && (InOpening(c.state) || InClosing(c.state))
    ensures var out := Do(c, e);
      && out.call == None && out.x.conn == c.(timer := WAITS[c.nrtx], nrtx := c.nrtx + 1)
      && out.seg.Some?
      && var seg := out.seg.value;
         && seg.seqno == c.sndNxt && seg.Span() == c.len == 1 && seg.data == [] && !seg.rst && !seg.psh
         && seg.syn == InOpening(c.state) && seg.fin == InClosing(c.state)
         && (seg.ack <==> c.state != SYN_SENT) && seg.ackno == c.rcvNxt
         && seg.wnd == (if c.stopped then 0 else 1460) && seg.mss == if seg.syn then Some(1460) else None
  {
  }

  /**
   * In ESTABLISHED the application is asked, and what it sends goes out with the
   * number and the length of the outstanding data.
   */
  lemma DataIsRetransmitted(c: Conn, e: Event, data: seq<byte>)
    requires Retries(c, e) && c.state == ESTABLISHED && e.calls == [Send(data)] && c.len <= |data| <= |e.buf| <= 65535
    ensures var out := Do(c, e);
      && out.call == Some(NO_FLAGS.(rexmit := true)) && out.x.conn == c.(timer := WAITS[c.nrtx], nrtx := c.nrtx + 1)
      && out.seg.Some? && out.seg.value.data == data[..c.len]
      && !out.seg.value.syn && !out.seg.value.fin && !out.seg.value.rst && Acknowledges(c, out.seg.value)
  {
    hide Do, Callback, Tcp.AppRexmit;
    RetransmissionAsks(c, e);
    RexmitCallback(Local(c.(timer := WAITS[c.nrtx], nrtx := c.nrtx + 1), NO_FLAGS.(rexmit := true), 0, e.buf), data);
  }

  lemma RetransmissionAsks(c: Conn, e: Event)
    requires Retries(c, e) && c.state == ESTABLISHED
    ensures var x := Local(c.(timer := WAITS[c.nrtx], nrtx := c.nrtx + 1), NO_FLAGS.(rexmit := true), 0, e.buf);
      var (y, seg) := Tcp.AppRexmit(Callback(x, e.calls));
      Do(c, e) == Outcome(y, seg, Some(x.flags), [], 0, false, false)
  {
    hide Callback, Tcp.AppRexmit;
  }

  lemma RexmitCallback(x: Local, data: seq<byte>)
    requires 0 < x.conn.len <= |data| <= |x.buf| <= 65535
    ensures var (y, seg) := Tcp.AppRexmit(Callback(x, [Send(data)]));
      y.conn == x.conn && seg == Some(Reply(x.conn, false, false, false, true, true, data[..x.conn.len]))
  {
    var buf := Overwrite(x.buf, data);
    assert buf[..x.conn.len] == data[..x.conn.len];
    SendCallback(x, data);
    hide Callback, Overwrite;
  }

  lemma SendCallback(x: Local, data: seq<byte>)
    requires 0 < |data| <= 65535
    ensures Callback(x, [Send(data)]) == x.(slen := |data|, buf := Overwrite(x.buf, data))
  {
    var y := x.(slen := |data|, buf := Overwrite(x.buf, data));
    assert Call(x, Send(data)) == y by {
      assert data[..|data|] == data;
    }
    assert [Send(data)][1..] == [] && Callback(y, []) == y;
  }

  /** When they are used up the application is told, and the peer is sent a reset. */
  lemma GivingUpIsTold(c: Conn, e: Event)
    requires e.TimerTick? && c.len > 0 && c.timer == 0 && !c.stopped && c.state != CLOSED
    requires c.state != TIME_WAIT && c.state != FIN_WAIT_2 && c.nrtx == if InOpening(c.state) then 5 else 8
    ensures var out := Do(c, e);
      && out.x.conn.state == CLOSED && out.call == Some(NO_FLAGS.(timedout := true))
      && out.seg.Some? && out.seg.value.rst && out.seg.value.data == [] && Acknowledges(out.x.conn, out.seg.value)
  {
    hide Callback;
  }

  /** Between timeouts the timer counts down, and an open connection with nothing outstanding is polled. */
  lemma TickCountsOrPolls(c: Conn, e: Event)
    requires e.TimerTick? && !c.stopped
    requires c.state != CLOSED && c.state != TIME_WAIT && c.state != FIN_WAIT_2
    ensures c.len > 0 && c.timer > 0 ==>
      var out := Do(c, e); out.x.conn == c.(timer := c.timer - 1) && out.seg == None && out.call == None
    ensures c.len == 0 && c.state == ESTABLISHED ==> Do(c, e).call == Some(NO_FLAGS.(poll := true))
  {
    hide Callback;
  }

  lemma PollIsTold(c: Conn, e: Event)
    requires e.Polled?
    ensures Do(c, e).call == if c.state == ESTABLISHED && c.len == 0 then Some(NO_FLAGS.(poll := true)) else None
    ensures Do(c, e).call == None ==> Do(c, e).x.conn == c && Do(c, e).seg == None
  {
    hide Callback;
  }

  // ---------------------------------------------------------- what is answered

  /** The event lets the application of an open connection send: new data, an acknowledgment, or a poll. */
  predicate MaySend(c: Conn, e: Event) {
    && c.state == ESTABLISHED
    && match e
       case Arrives(seg, _, _, _, _) =>
         && Arrived(c, e) && (!seg.fin || c.stopped)
         && ((seg.data != [] && !c.stopped) || AcksAll(c, seg))
       case TimerTick(_, _) => c.len == 0
       case Polled(_, slen, _) => c.len == 0 && slen == 0
  }

  /** The application's answer, as a step of the engine. */
  lemma AnswerOf(c: Conn, e: Event) returns (x: Local, given: seq<byte>, acked: bool)
    requires MaySend(c, e)
    ensures Do(c, e) == CallAndSend(x, e.calls, given, acked)
    ensures x.conn.state == ESTABLISHED && x.conn.stopped == c.stopped && x.slen == 0 && x.buf == e.buf
    ensures !x.flags.close && !x.flags.abort && acked == x.flags.ackdata == (e.Arrives? && AcksAll(c, e.seg))
    ensures x.conn.len == if acked then 0 else c.len
    ensures x.conn.sndNxt == if acked then Add32(c.sndNxt, c.len) else c.sndNxt
    ensures x.flags.newdata == (e.Arrives? && e.seg.data != [] && !c.stopped)
  {
    hide CallAndSend, Add32;
    match e {
      case Arrives(seg, rto, calls, slen, buf) =>
        AcksAllIff(c, seg);
        acked := AcksOutstanding(c, seg);
        x := TakeData(AfterAck(Local(c, NO_FLAGS, slen, buf), acked, rto), seg).(slen := 0);
        given := if x.flags.newdata then seg.data else [];
      case TimerTick(calls, buf) => x, given, acked := Local(c, NO_FLAGS.(poll := true), 0, buf), [], false;
      case Polled(calls, slen, buf) => x, given, acked := Local(c, NO_FLAGS.(poll := true), slen, buf), [], false;
    }
  }

  /** With nothing left outstanding, what the application sends goes out at once, as much as fits the segment size. */
  lemma SendGoesOut(c: Conn, e: Event, data: seq<byte>)
    requires MaySend(c, e) && (c.len == 0 || (e.Arrives? && AcksAll(c, e.seg)))
    requires e.calls == [Send(data)] && 0 < |data| <= |e.buf| <= 65535
    ensures var out := Do(c, e);
      var n := if |data| <= out.x.conn.mss then |data| else out.x.conn.mss;
      n > 0 ==>
        && out.x.conn.len == n && out.x.conn.state == ESTABLISHED && out.x.conn.nrtx == 0
        && out.seg.Some? && out.seg.value.data == data[..n]
        && !out.seg.value.syn && !out.seg.value.fin && !out.seg.value.rst && Acknowledges(out.x.conn, out.seg.value)
  {
    hide Do, MaySend;
    var x, given, acked := AnswerOf(c, e);
    SentIsTaken(x, data, given, acked);
  }

  lemma SentIsTaken(x: Local, data: seq<byte>, given: seq<byte>, acked: bool)
    requires x.conn.state == ESTABLISHED && x.conn.len == 0 && !x.flags.close && !x.flags.abort
    requires 0 < |data| <= |x.buf| <= 65535
    ensures var out := CallAndSend(x, [Send(data)], given, acked);
      var n := if |data| <= out.x.conn.mss then |data| else out.x.conn.mss;
      n > 0 ==>
        && out.x.conn.len == n && out.x.conn.state == ESTABLISHED && out.x.conn.nrtx == 0
        && out.seg.Some? && out.seg.value.data == data[..n]
        && !out.seg.value.syn && !out.seg.value.fin && !out.seg.value.rst && Acknowledges(out.x.conn, out.seg.value)
  {
    SendCallback(x, data);
    hide Callback;
    assert forall n :: 0 <= n <= |data| ==> Overwrite(x.buf, data)[..n] == data[..n];
  }

  /**
   * The answer to new data by an application that is silent is a pure
   * acknowledgment, and without new data there is none.
   */
  lemma SilenceAcknowledges(c: Conn, e: Event)
    requires MaySend(c, e) && e.calls == []
    ensures var out := Do(c, e);
      && out.x.conn.state == ESTABLISHED && out.x.conn.stopped == c.stopped
      && out.x.conn.sndNxt.Value() == (c.sndNxt.Value() + if e.Arrives? && AcksAll(c, e.seg) then c.len else 0) % TWO_32
      && out.x.conn.len == (if e.Arrives? && AcksAll(c, e.seg) then 0 else c.len)
      && if e.Arrives? && e.seg.data != [] && !c.stopped then
           out.seg == Some(PureAck(out.x.conn))
         else out.seg == None
  {
    hide Do, MaySend, Add32, Seq4.Value;
    var x, given, acked := AnswerOf(c, e);
    SilentAnswer(x, given, acked);
    Add32IsModular(c.sndNxt, c.len);
    NumberInRange(c.sndNxt);
  }

  lemma NumberInRange(s: Seq4)
    ensures s.Value() % TWO_32 == s.Value()
  {
    ValueInRange(s);
  }

  lemma SilentAnswer(x: Local, given: seq<byte>, acked: bool)
    requires x.conn.state == ESTABLISHED && x.slen == 0 && !x.flags.close && !x.flags.abort
    requires x.flags.newdata ==> !x.conn.stopped
    ensures var out := CallAndSend(x, [], given, acked);
      && out.x.conn == x.conn.(nrtx := 0)
      && out.seg == if x.flags.newdata then
                      Some(PureAck(x.conn))
                    else None
  {
  }

  /** A uip_restart sends the window update that lets the peer go on; nothing is sent without a reason. */
  lemma RestartReopens(c: Conn, e: Event)
    requires MaySend(c, e) && e.calls == [Restart]
    ensures var out := Do(c, e);
      && out.x.conn.Is(ESTABLISHED)
      && out.seg == Some(PureAck(out.x.conn))
  {
    hide Do, MaySend, Add32, Seq4.Value;
    var x, given, acked := AnswerOf(c, e);
    assert [Restart][1..] == [] && Callback(x, [Restart]) == Call(x, Restart);
  }

  /** A close sends the FIN behind what has been acknowledged. */
  lemma CloseSendsFin(c: Conn, e: Event)
    requires MaySend(c, e) && AsksToClose(e.calls)
    ensures var out := Do(c, e);
      && out.x.conn.Is(FIN_WAIT_1) && out.x.conn.nrtx == 0
      && out.seg.Some? && IsFin(out.x.conn, out.seg.value)
  {
    hide Do, MaySend;
    var x, given, acked := AnswerOf(c, e);
    CloseFlag(x, e.calls);
  }

  /** The last uip_close or uip_abort is a uip_abort. */
  predicate AsksToAbort(calls: seq<AppCall>)
    decreases |calls|
  {
    calls != [] && (AsksToAbort(calls[1..]) || (calls[0].Abort? && Close !in calls[1..]))
  }

  lemma {:induction false} AbortFlag(x: Local, calls: seq<AppCall>)
    ensures Callback(x, calls).flags.abort <==> AsksToAbort(calls) || (x.flags.abort && Close !in calls)
    decreases |calls|
  {
    if calls != [] {
      AbortFlag(Call(x, calls[0]), calls[1..]);
    }
  }

  lemma AbortSendsReset(c: Conn, e: Event)
    requires MaySend(c, e) && AsksToAbort(e.calls)
    ensures var out := Do(c, e);
      && out.x.conn.Is(CLOSED)
      && out.seg.Some? && out.seg.value.rst && out.seg.value.data == [] && Acknowledges(out.x.conn, out.seg.value)
  {
    hide Do, MaySend;
    var x, given, acked := AnswerOf(c, e);
    AbortFlag(x, e.calls);
  }

  // --------------------------------------------------------------------- runs

  /**
   * How much of the stream has arrived piece by piece, from byte `n` on: a
   * segment counts when it starts at the byte that is due.
   */
  function Gathered(irs: nat, n: nat, events: seq<Event>): nat {
    if events == [] then n
    else Gather(irs, Gathered(irs, n, events[..|events| - 1]), events[|events| - 1])
  }

  function Gather(irs: nat, n: nat, e: Event): nat {
    if e.Arrives? && e.seg.data != [] && e.seg.seqno.Value() == (irs + 1 + n) % TWO_32 then n + |e.seg.data| else n
  }

  /** Nothing in the event ends or stops the connection; the last clause keeps the timer from giving it up. */
  ghost predicate Continues(c: Conn, e: Event) {
    && KeepsOpen(e.calls)
    && (e.Arrives? ==> !e.seg.rst && !e.seg.fin)
    && (e.TimerTick? && c.len > 0 && c.timer == 0 ==> c.nrtx < 8)
  }

  lemma ContinuesOpen(c: Conn, e: Event)
    requires c.Is(ESTABLISHED) && Continues(c, e)
    ensures Do(c, e).x.conn.Is(ESTABLISHED)
  {
    hide CallAndSend, Add32;
    if MaySend(c, e) {
      var x, given, acked := AnswerOf(c, e);
      AnswerStaysOpen(x, e.calls, given, acked);
    } else {
      match e {
        case Arrives(seg, _, _, _, _) => AcksAllIff(c, seg);
        case TimerTick(calls, buf) =>
          var again := c.(timer := Backoff(c.nrtx), nrtx := (c.nrtx + 1) % 256);
          OpenCallback(Local(again, NO_FLAGS.(rexmit := true), 0, buf), calls);
        case Polled(calls, slen, buf) =>
          AnswerStaysOpen(Local(c, NO_FLAGS.(poll := true), slen, buf), calls, [], false);
      }
    }
  }

  /** Ticks and polls bring no data. */
  lemma OnlyArrivalsBringData(c: Conn, e: Event)
    ensures !e.Arrives? ==> Do(c, e).given == [] && Do(c, e).accepted == 0 && !Do(c, e).finTaken
    ensures !e.Arrives? ==> Do(c, e).x.conn.rcvNxt == c.rcvNxt
  {
    hide Callback;
  }

  lemma StepGathers(t: Track, e: Event, irs: nat, stream: seq<byte>)
    requires irs < TWO_32 && Synced(t, irs, stream) && EventFromPeer(e, irs, stream)
    requires t.conn.Is(ESTABLISHED) && Continues(t.conn, e)
    ensures After(t, Do(t.conn, e)).conn.Is(ESTABLISHED)
    ensures After(t, Do(t.conn, e)).accepted == Gather(irs, t.accepted, e)
  {
    hide Do, Seq4.Value;
    ContinuesOpen(t.conn, e);
    OnlyArrivalsBringData(t.conn, e);
    if e.Arrives? {
      if Expected(t.conn, e.seg) && e.seg.data != [] {
        DataIsTaken(t.conn, e);
      } else if !Expected(t.conn, e.seg) && (e.seg.data != [] || e.seg.syn) {
        OutOfOrderIsAnswered(t.conn, e);
        if e.seg.seqno.Value() == t.conn.rcvNxt.Value() {
          ValueIsInjective(e.seg.seqno, t.conn.rcvNxt);
        }
      } else {
        AckIsTold(t.conn, e);
      }
    }
  }

  /** The connection is not ended or stopped by any of the events. */
  ghost predicate ContinuesThroughout(t: Track, events: seq<Event>) {
    forall i :: 0 <= i < |events| ==> Continues(Play(t, events[..i]).conn, events[i])
  }

  /**
   * Over every run of an open connection, with any loss, repetition and
   * reordering, and whatever the application sends meanwhile: it has been given
   * exactly the part of the stream whose pieces have arrived in their order.
   */
  lemma {:induction false} ArrivedIsGiven(t: Track, events: seq<Event>, irs: nat, stream: seq<byte>)
    requires irs < TWO_32 && |stream| < MAX_STREAM && Synced(t, irs, stream) && t.conn.Is(ESTABLISHED)
    requires forall i :: 0 <= i < |events| ==> EventFromPeer(events[i], irs, stream)
    requires ContinuesThroughout(t, events)
    ensures Play(t, events).conn.Is(ESTABLISHED) && Synced(Play(t, events), irs, stream)
    ensures Gathered(irs, t.accepted, events) <= |stream|
    ensures Play(t, events).given == stream[..Gathered(irs, t.accepted, events)]
    ensures Play(t, events).accepted == Gathered(irs, t.accepted, events)
  {
    hide Do, EventFromPeer, Continues, Gather;
    InOrderDelivery(t, events, irs, stream);
    if events != [] {
      var front, last := events[..|events| - 1], events[|events| - 1];
      assert forall i :: 0 <= i < |front| ==> front[..i] == events[..i];
      ArrivedIsGiven(t, front, irs, stream);
      assert Continues(Play(t, front).conn, last);
      StepGathers(Play(t, front), last, irs, stream);
    }
  }

  /** The peer's FIN in order, with nothing outstanding, finds all of the stream given. */
  lemma FinCompletes(t: Track, e: Event, irs: nat, stream: seq<byte>)
    requires irs < TWO_32 && |stream| < MAX_STREAM && Synced(t, irs, stream) && EventFromPeer(e, irs, stream)
    requires t.conn.Is(ESTABLISHED) && e.Arrives? && e.seg.fin && !e.seg.rst && Expected(t.conn, e.seg)
    requires t.conn.len == 0 || AcksAll(t.conn, e.seg)
    ensures var t' := After(t, Do(t.conn, e)); t'.given == stream && t'.fins == 1 && t'.conn.Is(LAST_ACK)
  {
    hide Do, Carries;
    StepDelivers(t, e, irs, stream);
    FinIsTaken(t.conn, e);
  }

  // ----------------------------------------------------------------- goodbye

  /** Two open connections with nothing outstanding, each where the other one expects it. */
  ghost predicate Agree(a: Conn, b: Conn) {
    && a.Is(ESTABLISHED) && b.Is(ESTABLISHED) && a.len == 0 && b.len == 0
    && a.sndNxt == b.rcvNxt && b.sndNxt == a.rcvNxt
  }

  lemma NumbersStay(c: Conn, e: Event)
    requires c.len == 0
    ensures Do(c, e).x.conn.sndNxt == c.sndNxt
  {
    hide Do;
    SndNxtMoves(c, e);
  }

  /** The first half of a close: one side sends its FIN, and the other answers with its own. */
  lemma FinsCross(a: Conn, b: Conn, close: Event, rto: byte, slen: uint16, buf: seq<byte>)
    requires Agree(a, b) && close.TimerTick? && close.calls == [Close]
    ensures var out1 := Do(a, close);
      && out1.seg.Some?
      && var (a1, out2) := (out1.x.conn, Do(b, Arrives(out1.seg.value, rto, [], slen, buf)));
         && out2.seg.Some? && a1.Is(FIN_WAIT_1) && a1.len == 1 && a1.sndNxt == a.sndNxt && a1.rcvNxt == a.rcvNxt
         && out2.x.conn.Is(LAST_ACK) && IsFin(out2.x.conn, out2.seg.value) && out2.x.conn.sndNxt == b.sndNxt
         && out2.x.conn.rcvNxt.Value() == (a.sndNxt.Value() + 1) % TWO_32
  {
    hide Do, Seq4.Value;
    var out1 := Do(a, close);
    assert [Close][1..] == [] && AsksToClose([Close]);
    CloseSendsFin(a, close);
    NumbersStay(a, close);
    OnlyArrivalsBringData(a, close);
    var e2 := Arrives(out1.seg.value, rto, [], slen, buf);
    FinIsTaken(b, e2);
    NumbersStay(b, e2);
  }

  /**
   * An orderly close on a line that loses nothing: FIN, FIN, acknowledgment. The
   * side that closed is in TIME_WAIT, from where its slot is freed after 120
   * ticks, and the other one is closed.
   */
  lemma CloseCompletes(a: Conn, b: Conn, close: Event, rto: byte, slen: uint16, buf: seq<byte>)
    requires Agree(a, b) && close.TimerTick? && close.calls == [Close]
    ensures var out1 := Do(a, close);
      && out1.seg.Some?
      && var out2 := Do(b, Arrives(out1.seg.value, rto, [], slen, buf));
      && out2.seg.Some?
      && var out3 := Do(out1.x.conn, Arrives(out2.seg.value, rto, [], slen, buf));
      && out3.seg.Some?
      && var out4 := Do(out2.x.conn, Arrives(out3.seg.value, rto, [], slen, buf));
      && out3.x.conn.state == TIME_WAIT && out4.x.conn.state == CLOSED && out4.seg == None
  {
    hide Do, Seq4.Value;
    FinsCross(a, b, close, rto, slen, buf);
    var out1 := Do(a, close);
    var out2 := Do(b, Arrives(out1.seg.value, rto, [], slen, buf));
    var e3 := Arrives(out2.seg.value, rto, [], slen, buf);
    FinWait1Moves(out1.x.conn, e3);
    var e4 := Arrives(Do(out1.x.conn, e3).seg.value, rto, [], slen, buf);
    LastAcksMove(out2.x.conn, e4);
  }
}
