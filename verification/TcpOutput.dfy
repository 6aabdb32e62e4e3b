/**
 * From the segments of the TCP engine to packets: whatever a step sends can be
 * put into the buffer, and what is put there passes the receiver's checks and
 * is read back as the same segment.
 */
module TcpOutput {
  import opened Bytes
  import opened Common
  import opened SequenceNumbers
  import opened Tcp
  import opened TcpInvariant
  import opened TcpDelivery
  import opened TcpTiling
  import TcpSystem
  import opened Checksum
  import opened PacketFormat
  import opened Packets

  /** A segment that label `tcp_send` can produce for the connection. */
  ghost predicate IsReply(c: Conn, seg: Segment) {
    && seg == Reply(c, seg.fin, seg.syn, seg.rst, seg.psh, seg.ack, seg.data)
    && (seg.syn ==> seg.data == [] && !seg.fin && !seg.rst && !seg.psh)
    && (seg.rst ==> seg.data == [])
  }

  /** The active open is answered by something else than its SYNACK: the code jumps to label `reset`. */
  predicate Refused(c: Conn, e: Event) {
    && e.Arrives? && !e.seg.rst && !OutOfOrder(c, e.seg)
    && c.state == SYN_SENT && !(AcksOutstanding(c, e.seg) && e.seg.IsSynAck())
  }

  /**
   * What a step sends is such a segment, with its data at the start of the
   * buffer, or, in an active open that is `refused`, the arrived segment turned
   * round. A `live` connection that sends anything but a reset stays live.
   */
  ghost predicate Sendable(e: Event, refused: bool, live: bool, out: Outcome) {
    out.seg.Some? ==>
      if refused then e.Arrives? && !e.seg.rst && out.seg.value == ResetReply(e.seg)
      else
        && IsReply(out.x.conn, out.seg.value) && out.seg.value.data <= out.x.buf
        && (live && !out.seg.value.rst ==> out.x.conn.state != CLOSED)
  }

  predicate Live(c: Conn) {
    c.state != CLOSED
  }

  lemma AnswerIsSendable(e: Event, x: Local, calls: seq<AppCall>, given: seq<byte>, acked: bool)
    ensures Sendable(e, false, Live(x.conn), CallAndSend(x, calls, given, acked))
  {
  }

  lemma ArrivalIsSendable(e: Event, y: Local, seg: Segment, calls: seq<AppCall>, acked: bool)
    requires e.Arrives? && e.seg == seg && !seg.rst
    ensures var refused := y.conn.state == SYN_SENT && !(y.flags.ackdata && seg.IsSynAck());
      Sendable(e, refused, Live(y.conn), InOrder(y, seg, calls, acked))
  {
    hide CallAndSend, Add32, Increment, Callback;
    match y.conn.state {
      case SYN_RCVD => AnswerIsSendable(e, PassiveConnected(y, seg), calls, seg.data, acked);
      case SYN_SENT => AnswerIsSendable(e, ActiveConnected(y, seg), calls, [], acked);
      case ESTABLISHED =>
        var z := TakeData(y, seg);
        AnswerIsSendable(e, z.(slen := 0), calls, if z.flags.newdata then seg.data else [], acked);
      case _ =>
    }
  }

  lemma PlainReplies(c: Conn)
    ensures IsReply(c, AckReply(c)) && IsReply(c, FinAckReply(c)) && IsReply(c, RstAckReply(c)) && RstAckReply(c).rst
    ensures IsReply(c, Reply(c, false, true, false, false, true, []))
    ensures IsReply(c, Reply(c, false, true, false, false, false, []))
    ensures AckReply(c).data == [] && FinAckReply(c).data == [] && RstAckReply(c).data == []
    ensures forall ack :: Reply(c, false, true, false, false, ack, []).data == []
  {
  }

  lemma TimerIsSendable(x: Local, e: Event)
    ensures Sendable(e, false, true, TimeOut(x, e.calls)) && Sendable(e, false, Live(x.conn), Retransmit(x, e.calls))
  {
    hide Callback, Backoff, Tcp.AppRexmit, IsReply, Reply;
    var y := x.(conn := x.conn.(timer := Backoff(x.conn.nrtx), nrtx := (x.conn.nrtx + 1) % 256));
    var last := x.(conn := x.conn.To(CLOSED).(timer := 255), flags := NO_FLAGS.(timedout := true));
    PlainReplies(Callback(last, e.calls).conn);
    PlainReplies(y.conn);
    RexmitIsSendable(Callback(y.(flags := NO_FLAGS.(rexmit := true)), e.calls));
  }

  lemma RexmitIsSendable(x: Local)
    ensures var (y, seg) := Tcp.AppRexmit(x);
      y == x && (seg.Some? ==> IsReply(x.conn, seg.value) && seg.value.data <= x.buf)
  {
  }

  lemma TickIsSendable(c: Conn, e: Event)
    requires e.TimerTick?
    ensures Sendable(e, false, Live(c), Tick(c, e.calls, e.buf))
  {
    hide CallAndSend, Retransmit, TimeOut;
    var x := Local(c, NO_FLAGS, 0, e.buf);
    AnswerIsSendable(e, x.(flags := NO_FLAGS.(poll := true)), e.calls, [], false);
    TimerIsSendable(x, e);
  }

  lemma EveryStepIsSendable(c: Conn, e: Event)
    ensures Sendable(e, Refused(c, e), Live(c), Do(c, e))
  {
    hide CallAndSend, Add32, InOrder, Tick;
    match e {
      case Arrives(seg, rto, calls, slen, buf) =>
        if !seg.rst && !OutOfOrder(c, seg) {
          var acked := AcksOutstanding(c, seg);
          ArrivalIsSendable(e, AfterAck(Local(c, NO_FLAGS, slen, buf), acked, rto), seg, calls, acked);
        }
      case TimerTick(_, _) => TickIsSendable(c, e);
      case Polled(calls, slen, buf) =>
        AnswerIsSendable(e, Local(c, NO_FLAGS.(poll := true), slen, buf), calls, [], false);
    }
  }

  /** And it fits the buffer, in every reachable state of the connection, whatever the application has done. */
  lemma EveryStepFits(c: Conn, e: Event)
    requires Bounded(c) && RoomForMss(e)
    ensures Bounded(Do(c, e).x.conn)
    ensures Do(c, e).seg.Some? ==> UipLen(Do(c, e).seg.value) <= UIP_BUFSIZE
  {
    hide Do;
    EveryStepIsSendable(c, e);
    EveryStepSendsOutstanding(c, e);
  }

  /**
   * The output labels, for a reply of the engine: the packet passes the tests
   * that the input code applies, its length field is `uip_len`, and the input
   * code reads the same segment out of it, between the right ends.
   */
  method Emit(b: PacketBuffer, c: Conn, seg: Segment)
    requires b.Valid() && IsReply(c, seg) && UipLen(seg) <= UIP_BUFSIZE
    requires b.P()[OPTDATA..OPTDATA + |seg.data|] == seg.data
    modifies b.uipBuf, b`uipLen, b`ipid
    ensures Holds(b.P(), b.hostaddr, c.ripaddr, c.lport, c.rport, seg)
    ensures b.uipLen == WordAt(b.P(), LEN) == UipLen(seg)
  {
    hide Holds, Word;
    if seg.syn {
      b.TcpSendSyn(c, seg.ack);
    } else {
      b.uipLen := UIP_TCPIP_HLEN + |seg.data|;
      b.TcpSendNoopts(c, seg.fin, seg.rst, seg.psh, seg.ack);
    }
  }

  lemma StepKeepsEnds(c: Conn, e: Event)
    ensures var c' := Do(c, e).x.conn; c'.ripaddr == c.ripaddr && c'.lport == c.lport && c'.rport == c.rport
    ensures |Do(c, e).x.buf| == |e.buf|
  {
    hide Receive, Tick, PollRequest;
    match e {
      case Arrives(seg, rto, calls, slen, buf) => TcpSystem.ReceiveKeepsTuple(c, seg, rto, calls, slen, buf);
      case TimerTick(calls, buf) => TcpSystem.TickKeepsTuple(c, calls, buf);
      case Polled(calls, slen, buf) => TcpSystem.PollKeepsTuple(c, calls, slen, buf);
    }
  }

  /** The packet in the buffer is the segment `seg` of the connection's peer. */
  ghost predicate CameFromPeer(p: seq<byte>, c: Conn, seg: Segment)
    requires |p| == UIP_BUFSIZE + 2
  {
    && p[PROTO] == UIP_PROTO_TCP && Parse(p) == seg
    && AddrAt(p, SRCIPADDR) == c.ripaddr && WordAt(p, SRCPORT) == c.rport && WordAt(p, DESTPORT) == c.lport
  }

  /**
   * From the event to the packet: whatever a step of the engine sends, in any
   * reachable state, leaves as a packet between the connection's ends that the
   * peer's input code accepts and reads back as that segment.
   */
  method EmitStep(b: PacketBuffer, c: Conn, e: Event, seg: Segment)
    requires b.Valid() && Bounded(c) && RoomForMss(e) && Do(c, e).seg == Some(seg)
    requires if Refused(c, e) then CameFromPeer(b.P(), c, e.seg) else b.P()[OPTDATA..UIP_BUFSIZE] == Do(c, e).x.buf
    modifies b.uipBuf, b`uipLen, b`ipid
    ensures Holds(b.P(), b.hostaddr, c.ripaddr, c.lport, c.rport, seg)
    ensures b.uipLen == WordAt(b.P(), LEN)
  {
    hide Holds, Do, Parse, Word, IsReply;
    EveryStepIsSendable(c, e);
    EveryStepFits(c, e);
    StepKeepsEnds(c, e);
    if Refused(c, e) {
      b.Reset();
    } else {
      assert b.P()[OPTDATA..UIP_BUFSIZE][..|seg.data|] == b.P()[OPTDATA..OPTDATA + |seg.data|];
      Emit(b, Do(c, e).x.conn, seg);
    }
  }
}
