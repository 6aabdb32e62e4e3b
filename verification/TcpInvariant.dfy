/** What every step of the TCP engine keeps, one connection at a time. */
module TcpInvariant {
  import opened Bytes
  import opened Common
  import opened SequenceNumbers
  import opened Tcp

  /** The outstanding length that goes with each state. */
  predicate LenFits(c: Conn) {
    match c.state
    case CLOSED => true
    case ESTABLISHED => c.len <= UIP_TCP_MSS
    case FIN_WAIT_2 => c.len == 0
    case TIME_WAIT => c.len == 0
    case _ => c.len == 1
  }

  /** The number of retransmissions after which the connection is given up. */
  function MaxRtx(s: TcpState): nat {
    if s == SYN_SENT || s == SYN_RCVD then UIP_MAXSYNRTX else UIP_MAXRTX
  }

  /** The part that holds whatever the application does. */
  ghost predicate Bounded(c: Conn) {
    LenFits(c) && c.mss <= c.initialmss <= UIP_TCP_MSS
  }

  ghost predicate ConnInv(c: Conn) {
    && Bounded(c)
    && (c.state != CLOSED ==> c.nrtx <= MaxRtx(c.state))
    && (c.stopped ==> c.state == ESTABLISHED)
  }

  /**
   * The application is called after the connection has left ESTABLISHED, so that
   * a uip_stop would stay in the state field.
   */
  predicate CallsAfterLeaving(c: Conn, seg: Segment) {
    || seg.rst
    || (!OutOfOrder(c, seg) && (
          || (c.state == LAST_ACK && AcksOutstanding(c, seg))
          || ((c.state == FIN_WAIT_1 || c.state == FIN_WAIT_2) && seg.fin)))
  }

  predicate TimesOut(c: Conn) {
    !c.Is(TIME_WAIT) && !c.Is(FIN_WAIT_2) && !c.Is(CLOSED) && c.len > 0 && c.timer == 0 && GivesUp(c)
  }

  /** The length the code stores in the IP header for a segment. */
  function UipLen(seg: Segment): nat {
    UIP_TCPIP_HLEN + (if seg.mss.Some? then TCP_OPT_MSS_LEN else 0) + |seg.data|
  }

  /** What is sent fits the packet buffer, and its data is all of the outstanding length. */
  ghost predicate SegmentFits(out: Outcome) {
    out.seg.Some? ==>
      && UipLen(out.seg.value) <= UIP_BUFSIZE
      && (out.seg.value.data != [] ==> |out.seg.value.data| == out.x.conn.len)
  }

  // -------------------------------------------------------- the pieces of a step

  lemma AppSendKeeps(x: Local)
    requires ConnInv(x.conn) && x.conn.state == ESTABLISHED
    ensures ConnInv(AppSend(x).0.conn)
  {
  }

  lemma CallAndSendKeeps(x: Local, calls: seq<AppCall>, given: seq<byte>, acked: bool)
    requires ConnInv(x.conn) && x.conn.state == ESTABLISHED
    ensures ConnInv(CallAndSend(x, calls, given, acked).x.conn)
    ensures |x.buf| == UIP_TCP_MSS ==> SegmentFits(CallAndSend(x, calls, given, acked))
  {
    AppSendKeeps(Callback(x, calls));
  }

  lemma EstablishedKeeps(x: Local, seg: Segment, calls: seq<AppCall>, acked: bool)
    requires ConnInv(x.conn) && x.conn.state == ESTABLISHED
    ensures ConnInv(InEstablished(x, seg, calls, acked).x.conn)
    ensures |x.buf| == UIP_TCP_MSS ==> SegmentFits(InEstablished(x, seg, calls, acked))
  {
    var y := TakeData(x, seg);
    CallAndSendKeeps(y.(slen := 0), calls, if y.flags.newdata then seg.data else [], acked);
  }

  /** The two states before ESTABLISHED: an acknowledged SYN completes the open, anything else leaves or closes it. */
  lemma OpeningKeeps(x: Local, seg: Segment, calls: seq<AppCall>, acked: bool)
    requires x.conn.mss <= x.conn.initialmss <= UIP_TCP_MSS && !x.conn.stopped && x.conn.nrtx <= UIP_MAXSYNRTX
    requires x.conn.len == if x.flags.ackdata then 0 else 1
    ensures x.conn.state == SYN_RCVD ==>
      var out := InSynRcvd(x, seg, calls, acked);
      ConnInv(out.x.conn) && (|x.buf| == UIP_TCP_MSS ==> SegmentFits(out))
    ensures x.conn.state == SYN_SENT ==>
      var out := InSynSent(x, seg, calls, acked);
      ConnInv(out.x.conn) && (|x.buf| == UIP_TCP_MSS ==> SegmentFits(out))
  {
    hide CallAndSend;
    CallAndSendKeeps(PassiveConnected(x, seg), calls, seg.data, acked);
    CallAndSendKeeps(ActiveConnected(x, seg), calls, [], acked);
  }

  lemma FinWaitKeeps(x: Local, seg: Segment, calls: seq<AppCall>, acked: bool)
    requires x.conn.mss <= x.conn.initialmss <= UIP_TCP_MSS && !x.conn.stopped && x.conn.nrtx <= UIP_MAXRTX
    requires x.conn.state == FIN_WAIT_1 || x.conn.state == FIN_WAIT_2
    requires x.conn.len == if x.conn.state == FIN_WAIT_2 || x.flags.ackdata then 0 else 1
    ensures ConnInv(InFinWait(x, seg, calls, acked).x.conn) <==> !(seg.fin && StopBit(false, calls))
    ensures SegmentFits(InFinWait(x, seg, calls, acked))
  {
    hide Add32, Callback, StopBit;
  }

  /** A segment keeps the invariant exactly when no uip_stop is left behind by a call that comes too late. */
  lemma ReceiveKeepsIff(c: Conn, seg: Segment, rto: byte, calls: seq<AppCall>, slen: uint16, buf: seq<byte>)
    requires ConnInv(c)
    ensures ConnInv(Receive(c, seg, rto, calls, slen, buf).x.conn)
       <==> !(CallsAfterLeaving(c, seg) && StopBit(false, calls))
    ensures |buf| == UIP_TCP_MSS ==> SegmentFits(Receive(c, seg, rto, calls, slen, buf))
  {
    hide CallAndSend, InSynRcvd, InSynSent, InEstablished, InFinWait, Add32;
    if !seg.rst && !OutOfOrder(c, seg) {
      var acked := AcksOutstanding(c, seg);
      var y := AfterAck(Local(c, NO_FLAGS, slen, buf), acked, rto);
      match c.state {
        case SYN_RCVD => OpeningKeeps(y, seg, calls, acked);
        case SYN_SENT => OpeningKeeps(y, seg, calls, acked);
        case ESTABLISHED => EstablishedKeeps(y, seg, calls, acked);
        case FIN_WAIT_1 => FinWaitKeeps(y, seg, calls, acked);
        case FIN_WAIT_2 => FinWaitKeeps(y, seg, calls, acked);
        case _ =>
      }
    }
  }

  /** A timer tick likewise. */
  lemma TickKeepsIff(c: Conn, calls: seq<AppCall>, buf: seq<byte>)
    requires ConnInv(c)
    ensures ConnInv(Tick(c, calls, buf).x.conn) <==> !(TimesOut(c) && StopBit(false, calls))
    ensures |buf| == UIP_TCP_MSS ==> SegmentFits(Tick(c, calls, buf))
  {
    if c.len == 0 && c.state == ESTABLISHED {
      CallAndSendKeeps(Local(c, NO_FLAGS.(poll := true), 0, buf), calls, [], false);
    }
  }

  lemma PollKeeps(c: Conn, calls: seq<AppCall>, slen: uint16, buf: seq<byte>)
    requires ConnInv(c)
    ensures ConnInv(PollRequest(c, calls, slen, buf).x.conn)
    ensures |buf| == UIP_TCP_MSS ==> SegmentFits(PollRequest(c, calls, slen, buf))
  {
    if c.state == ESTABLISHED && c.len == 0 {
      CallAndSendKeeps(Local(c, NO_FLAGS.(poll := true), slen, buf), calls, [], false);
    }
  }

  lemma OpenKeeps(c: Conn, iss: Seq4, seg: Segment, lport: uint16, rport: uint16, ripaddr: Addr)
    requires c.mss <= c.initialmss <= UIP_TCP_MSS
    ensures ConnInv(ActiveOpen(c, iss, lport, rport, ripaddr))
    ensures ConnInv(PassiveOpen(c, iss, seg, lport, rport, ripaddr))
  {
  }
}
