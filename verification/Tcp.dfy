/**
 * The TCP engine of uIP (`uip_process` in src/uip/uip.c), one connection at a
 * time: what one segment, one timer tick or one poll does to a connection, to
 * the application and to the line.
 *
 * An invocation calls the application at most once. What the application does
 * in that call is a sequence of API calls, which every statement about runs
 * quantifies over.
 */
module Tcp {
  import opened Bytes
  import opened Common
  import opened SequenceNumbers

  const UIP_TCPIP_HLEN := 40
  const UIP_TCP_MSS := UIP_BUFSIZE - UIP_TCPIP_HLEN
  const UIP_RECEIVE_WINDOW := UIP_TCP_MSS
  const TCP_OPT_MSS_LEN := 4
  const UIP_RTO := 3
  const UIP_MAXRTX := 8
  const UIP_MAXSYNRTX := 5
  const UIP_TIME_WAIT_TIMEOUT := 120

  type Addr = (uint16, uint16)

  datatype TcpState =
    | CLOSED | SYN_RCVD | SYN_SENT | ESTABLISHED | FIN_WAIT_1 | FIN_WAIT_2 | CLOSING | TIME_WAIT | LAST_ACK

  /**
   * `struct uip_conn`. The field `tcpstateflags` is `state` with the bit
   * UIP_STOPPED; the round-trip estimator behind `rto` is not modelled.
   */
  datatype Conn = Conn(
    ripaddr: Addr, lport: uint16, rport: uint16,
    rcvNxt: Seq4, sndNxt: Seq4,
    len: uint16, mss: uint16, initialmss: uint16,
    rto: byte, timer: byte, nrtx: byte,
    state: TcpState, stopped: bool)
  {
    /** The comparison `tcpstateflags == s`, which does not mask the stop bit. */
    predicate Is(s: TcpState) {
      state == s && !stopped
    }

    /** The assignment `tcpstateflags = s`. */
    function To(s: TcpState): Conn {
      this.(state := s, stopped := false)
    }
  }

  /** A segment without urgent data; `data` is what lies at uip_appdata, `uip_len` bytes long. */
  datatype Segment = Segment(
    fin: bool, syn: bool, rst: bool, psh: bool, ack: bool,
    seqno: Seq4, ackno: Seq4, wnd: uint16, mss: Option<uint16>, data: seq<byte>)
  {
    predicate IsSyn() {
      syn && !fin && !rst && !psh && !ack
    }

    predicate IsSynAck() {
      syn && ack && !fin && !rst && !psh
    }

    /** The sequence numbers it consumes (section 3.3 of RFC 793). */
    function Span(): nat {
      |data| + (if syn then 1 else 0) + (if fin then 1 else 0)
    }
  }

  // ----------------------------------------------------------- the application

  /** `uip_flags`. */
  datatype Flags = Flags(
    ackdata: bool, newdata: bool, rexmit: bool, poll: bool, close: bool, abort: bool, connected: bool, timedout: bool)

  const NO_FLAGS := Flags(false, false, false, false, false, false, false, false)

  /** What the application may call: uip_send, uip_close, uip_abort, uip_stop, uip_restart. */
  datatype AppCall = Send(data: seq<byte>) | Close | Abort | Stop | Restart

  /** What an invocation works on: the connection, `uip_flags`, `uip_slen`, and the buffer from uip_sappdata on. */
  datatype Local = Local(conn: Conn, flags: Flags, slen: uint16, buf: seq<byte>)

  /** `memcpy` of `data` to the start of the buffer. */
  function Overwrite(buf: seq<byte>, data: seq<byte>): (r: seq<byte>)
    ensures |r| == |buf|
  {
    if |data| <= |buf| then data + buf[|data|..] else data[..|buf|]
  }

  function Call(x: Local, a: AppCall): Local {
    match a
    case Send(data) =>
      if data == [] then x
      else
        var slen := |data| % 0x1_0000;
        x.(slen := slen, buf := Overwrite(x.buf, data[..slen]))
    case Close => x.(flags := NO_FLAGS.(close := true))
    case Abort => x.(flags := NO_FLAGS.(abort := true))
    case Stop => x.(conn := x.conn.(stopped := true))
    case Restart => x.(flags := x.flags.(newdata := true), conn := x.conn.(stopped := false))
  }

  /** The stop bit after the calls: the last uip_stop or uip_restart decides. */
  function StopBit(stopped: bool, calls: seq<AppCall>): bool
    decreases |calls|
  {
    if calls == [] then stopped
    else StopBit(if calls[0].Stop? then true else if calls[0].Restart? then false else stopped, calls[1..])
  }

  /** UIP_APPCALL(): of the connection, only the stop bit is the application's. */
  function Callback(x: Local, calls: seq<AppCall>): (y: Local)
    ensures y.conn == x.conn.(stopped := StopBit(x.conn.stopped, calls)) && |y.buf| == |x.buf|
    decreases |calls|
  {
    if calls == [] then x else Callback(Call(x, calls[0]), calls[1..])
  }

  // ------------------------------------------------------------------- output

  /** The result of an invocation: the new values, the segment sent, and what the application was told. */
  datatype Outcome = Outcome(
    x: Local,
    seg: Option<Segment>,
    call: Option<Flags>,   // the flags the application was called with
    given: seq<byte>,      // the new data it was given
    accepted: nat,         // payload bytes added to rcv_nxt
    finTaken: bool,        // the FIN was added to rcv_nxt
    acked: bool)           // the outstanding data was acknowledged

  /** `tcp_send`: sequence numbers and window from the connection. */
  function Reply(c: Conn, fin: bool, syn: bool, rst: bool, psh: bool, ack: bool, data: seq<byte>): Segment {
    Segment(fin, syn, rst, psh, ack, c.sndNxt, c.rcvNxt, if c.stopped then 0 else UIP_RECEIVE_WINDOW,
            if syn then Some(UIP_TCP_MSS) else None, data)
  }

  function AckReply(c: Conn): Segment {
    Reply(c, false, false, false, false, true, [])
  }

  function FinAckReply(c: Conn): Segment {
    Reply(c, true, false, false, false, true, [])
  }

  function RstAckReply(c: Conn): Segment {
    Reply(c, false, false, true, false, true, [])
  }

  /** Label `reset`: the segment is turned round; its window field stays as it was. */
  function ResetReply(seg: Segment): Segment {
    Segment(false, false, true, false, true, seg.ackno, Increment(seg.seqno), seg.wnd, None, [])
  }

  /** The `n` bytes sent from the buffer. */
  function Payload(buf: seq<byte>, n: nat): seq<byte> {
    if n <= |buf| then buf[..n] else buf
  }

  /** Label `apprexmit`. */
  function AppRexmit(x: Local): (Local, Option<Segment>) {
    if x.slen > 0 && x.conn.len > 0 then
      (x, Some(Reply(x.conn, false, false, false, true, true, Payload(x.buf, x.conn.len))))
    else if x.flags.newdata then (x, Some(AckReply(x.conn)))
    else (x, None)
  }

  /** How much is outstanding, and sent, when the application has put `slen > 0` bytes in the buffer. */
  function TakeSend(x: Local): Local {
    var c := if x.flags.ackdata then x.conn.(len := 0) else x.conn;
    if c.len == 0 then
      var n := if x.slen > c.mss then c.mss else x.slen;
      x.(conn := c.(len := n), slen := n)
    else
      x.(conn := c, slen := c.len)
  }

  /** Label `appsend`. */
  function AppSend(x: Local): (Local, Option<Segment>) {
    if x.flags.abort then
      var c := x.conn.To(CLOSED);
      (x.(conn := c, slen := 0), Some(RstAckReply(c)))
    else if x.flags.close then
      var c := x.conn.To(FIN_WAIT_1).(len := 1, nrtx := 0);
      (x.(conn := c, slen := 0), Some(FinAckReply(c)))
    else
      var y := if x.slen > 0 then TakeSend(x) else x;
      AppRexmit(y.(conn := y.conn.(nrtx := 0)))
  }

  // -------------------------------------------------------------------- input

  /** The check of the sequence number: a segment that consumes numbers must start at rcv_nxt. */
  predicate OutOfOrder(c: Conn, seg: Segment) {
    && !(c.state == SYN_SENT && seg.IsSynAck())
    && (seg.data != [] || seg.syn || seg.fin)
    && seg.seqno != c.rcvNxt
  }

  /** The segment acknowledges exactly what is outstanding. */
  predicate AcksOutstanding(c: Conn, seg: Segment) {
    seg.ack && c.len > 0 && seg.ackno == Add32(c.sndNxt, c.len)
  }

  /** The acknowledgment taken into account; `rto` is what the estimator makes of an undisturbed round trip. */
  function TakeAck(c: Conn, rto: byte): Conn {
    var r := if c.nrtx == 0 then rto else c.rto;
    c.(sndNxt := Add32(c.sndNxt, c.len), rto := r, timer := r, len := 0)
  }

  function AfterAck(x: Local, acked: bool, rto: byte): Local {
    if acked then x.(conn := TakeAck(x.conn, rto), flags := NO_FLAGS.(ackdata := true)) else x
  }

  /** `uip_add_rcv_nxt`. */
  function Accept(c: Conn, n: nat): Conn {
    c.(rcvNxt := Add32(c.rcvNxt, n % 65536))
  }

  /** The MSS option, clipped to what the buffer holds; without one the fields keep their values. */
  function WithMss(c: Conn, mss: Option<uint16>): Conn {
    match mss
    case None => c
    case Some(m) =>
      var n := if m > UIP_TCP_MSS then UIP_TCP_MSS else m;
      c.(initialmss := n, mss := n)
  }

  /** The current segment size: the peer's window, unless that is zero or larger than the initial size. */
  function WithWindow(c: Conn, wnd: uint16): Conn {
    c.(mss := if wnd > c.initialmss || wnd == 0 then c.initialmss else wnd)
  }

  /** Nothing is sent and the application is not called. */
  function Drop(x: Local, acked: bool): Outcome {
    Outcome(x, None, None, [], 0, false, acked)
  }

  /** The application is called and then its data is sent. */
  function CallAndSend(x: Local, calls: seq<AppCall>, given: seq<byte>, acked: bool): Outcome {
    var (y, seg) := AppSend(Callback(x, calls));
    Outcome(y, seg, Some(x.flags), given, |given|, false, acked)
  }

  /** A passive open completes: what the application is about to see. */
  function PassiveConnected(x: Local, seg: Segment): Local {
    var c := x.conn.To(ESTABLISHED).(len := 0);
    var isNew := seg.data != [];
    Local(if isNew then Accept(c, |seg.data|) else c, NO_FLAGS.(connected := true, newdata := isNew), 0, x.buf)
  }

  function InSynRcvd(x: Local, seg: Segment, calls: seq<AppCall>, acked: bool): Outcome {
    if x.flags.ackdata then CallAndSend(PassiveConnected(x, seg), calls, seg.data, acked) else Drop(x, acked)
  }

  /** An active open completes; data on the SYNACK is ignored. */
  function ActiveConnected(x: Local, seg: Segment): Local {
    var c := WithMss(x.conn, seg.mss).To(ESTABLISHED).(rcvNxt := seg.seqno, len := 0);
    Local(Accept(c, 1), NO_FLAGS.(connected := true, newdata := true), 0, x.buf)
  }

  function InSynSent(x: Local, seg: Segment, calls: seq<AppCall>, acked: bool): Outcome {
    if x.flags.ackdata && seg.IsSynAck() then CallAndSend(ActiveConnected(x, seg), calls, [], acked)
    else
      var flags := NO_FLAGS.(abort := true);
      var y := Callback(x.(flags := flags), calls);
      Outcome(y.(conn := y.conn.To(CLOSED)), Some(ResetReply(seg)), Some(flags), [], 0, false, acked)
  }

  /** Data in ESTABLISHED: taken unless the application has stopped the flow, and the window noted. */
  function TakeData(x: Local, seg: Segment): Local {
    var isNew := seg.data != [] && !x.conn.stopped;
    var c := if isNew then Accept(x.conn, |seg.data|) else x.conn;
    x.(conn := WithWindow(c, seg.wnd), flags := x.flags.(newdata := isNew))
  }

  function InEstablished(x: Local, seg: Segment, calls: seq<AppCall>, acked: bool): Outcome {
    if seg.fin && !x.conn.stopped then
      if x.conn.len > 0 then Drop(x, acked)
      else
        var flags := x.flags.(close := true, newdata := seg.data != []);
        var y := Callback(x.(conn := Accept(x.conn, 1 + |seg.data|), flags := flags), calls);
        var c := y.conn.To(LAST_ACK).(len := 1, nrtx := 0);
        Outcome(y.(conn := c), Some(FinAckReply(c)), Some(flags), seg.data, |seg.data|, true, acked)
    else
      var y := TakeData(x, seg);
      if y.flags.newdata || y.flags.ackdata then
        CallAndSend(y.(slen := 0), calls, if y.flags.newdata then seg.data else [], acked)
      else Drop(y, acked)
  }

  function InLastAck(x: Local, calls: seq<AppCall>, acked: bool): Outcome {
    if x.flags.ackdata then
      var flags := NO_FLAGS.(close := true);
      var y := Callback(x.(conn := x.conn.To(CLOSED), flags := flags), calls);
      Outcome(y, None, Some(flags), [], 0, false, acked)
    else Drop(x, acked)
  }

  /** FIN_WAIT_1 and FIN_WAIT_2 accept data, but no longer hand it to the application. */
  function InFinWait(x: Local, seg: Segment, calls: seq<AppCall>, acked: bool): Outcome {
    var c := if seg.data != [] then Accept(x.conn, |seg.data|) else x.conn;
    if seg.fin then
      var c' :=
        if c.state == FIN_WAIT_1 && !x.flags.ackdata then c.To(CLOSING)
        else if c.state == FIN_WAIT_1 then c.To(TIME_WAIT).(timer := 0, len := 0)
        else c.To(TIME_WAIT).(timer := 0);
      var flags := NO_FLAGS.(close := true);
      var y := Callback(x.(conn := Accept(c', 1), flags := flags), calls);
      Outcome(y, Some(AckReply(y.conn)), Some(flags), [], |seg.data|, true, acked)
    else if c.state == FIN_WAIT_1 && x.flags.ackdata then
      Outcome(x.(conn := c.To(FIN_WAIT_2).(len := 0)), None, None, [], |seg.data|, false, acked)
    else
      Outcome(x.(conn := c), if seg.data != [] then Some(AckReply(c)) else None, None, [], |seg.data|, false, acked)
  }

  function InClosing(x: Local, acked: bool): Outcome {
    if x.flags.ackdata then Drop(x.(conn := x.conn.To(TIME_WAIT).(timer := 0)), acked) else Drop(x, acked)
  }

  /** What the state of the connection makes of a segment that is neither a reset nor out of order. */
  function InOrder(y: Local, seg: Segment, calls: seq<AppCall>, acked: bool): Outcome {
    match y.conn.state
    case SYN_RCVD => InSynRcvd(y, seg, calls, acked)
    case SYN_SENT => InSynSent(y, seg, calls, acked)
    case ESTABLISHED => InEstablished(y, seg, calls, acked)
    case LAST_ACK => InLastAck(y, calls, acked)
    case FIN_WAIT_1 => InFinWait(y, seg, calls, acked)
    case FIN_WAIT_2 => InFinWait(y, seg, calls, acked)
    case TIME_WAIT => Outcome(y, Some(AckReply(y.conn)), None, [], 0, false, acked)
    case CLOSING => InClosing(y, acked)
    case CLOSED => Drop(y, acked)
  }

  /** Label `found`: a segment for connection `c`. */
  function Receive(c: Conn, seg: Segment, rto: byte, calls: seq<AppCall>, slen: uint16, buf: seq<byte>): Outcome {
    var x := Local(c, NO_FLAGS, slen, buf);
    if seg.rst then
      var flags := NO_FLAGS.(abort := true);
      Outcome(Callback(Local(c.To(CLOSED), flags, slen, buf), calls), None, Some(flags), [], 0, false, false)
    else if OutOfOrder(c, seg) then
      Outcome(x, Some(AckReply(c)), None, [], 0, false, false)
    else
      var acked := AcksOutstanding(c, seg);
      InOrder(AfterAck(x, acked, rto), seg, calls, acked)
  }

  // ------------------------------------------------------------ timer and poll

  /** The backoff: 3, 6, 12, 24, 48, 48, ... ticks. */
  function Backoff(nrtx: nat): byte {
    if nrtx == 0 then UIP_RTO
    else if nrtx == 1 then 2 * UIP_RTO
    else if nrtx == 2 then 4 * UIP_RTO
    else if nrtx == 3 then 8 * UIP_RTO
    else 16 * UIP_RTO
  }

  /** The retransmissions are used up. */
  predicate GivesUp(c: Conn) {
    c.nrtx == UIP_MAXRTX || ((c.Is(SYN_SENT) || c.Is(SYN_RCVD)) && c.nrtx == UIP_MAXSYNRTX)
  }

  function TimeOut(x: Local, calls: seq<AppCall>): Outcome {
    var flags := NO_FLAGS.(timedout := true);
    var y := Callback(x.(conn := x.conn.To(CLOSED).(timer := 255), flags := flags), calls);
    Outcome(y, Some(RstAckReply(y.conn)), Some(flags), [], 0, false, false)
  }

  function Retransmit(x: Local, calls: seq<AppCall>): Outcome {
    var y := x.(conn := x.conn.(timer := Backoff(x.conn.nrtx), nrtx := (x.conn.nrtx + 1) % 256));
    match x.conn.state
    case SYN_RCVD => Outcome(y, Some(Reply(y.conn, false, true, false, false, true, [])), None, [], 0, false, false)
    case SYN_SENT => Outcome(y, Some(Reply(y.conn, false, true, false, false, false, [])), None, [], 0, false, false)
    case ESTABLISHED =>
      var flags := NO_FLAGS.(rexmit := true);
      var (z, seg) := AppRexmit(Callback(y.(flags := flags), calls));
      Outcome(z, seg, Some(flags), [], 0, false, false)
    case FIN_WAIT_1 => Outcome(y, Some(FinAckReply(y.conn)), None, [], 0, false, false)
    case CLOSING => Outcome(y, Some(FinAckReply(y.conn)), None, [], 0, false, false)
    case LAST_ACK => Outcome(y, Some(FinAckReply(y.conn)), None, [], 0, false, false)
    case _ => Drop(y, false)
  }

  /** The periodic timer of one connection (`uip_periodic`). */
  function Tick(c: Conn, calls: seq<AppCall>, buf: seq<byte>): Outcome {
    var x := Local(c, NO_FLAGS, 0, buf);
    if c.Is(TIME_WAIT) || c.Is(FIN_WAIT_2) then
      var c' := c.(timer := (c.timer + 1) % 256);
      Drop(x.(conn := if c'.timer == UIP_TIME_WAIT_TIMEOUT then c'.To(CLOSED) else c'), false)
    else if c.Is(CLOSED) then Drop(x, false)
    else if c.len > 0 then
      if c.timer == 0 then
        if GivesUp(c) then TimeOut(x, calls) else Retransmit(x, calls)
      else Drop(x.(conn := c.(timer := c.timer - 1)), false)
    else if c.state == ESTABLISHED then
      CallAndSend(x.(flags := NO_FLAGS.(poll := true)), calls, [], false)
    else Drop(x, false)
  }

  /** A poll request (`uip_poll_conn`); it does not clear `uip_slen` first. */
  function PollRequest(c: Conn, calls: seq<AppCall>, slen: uint16, buf: seq<byte>): Outcome {
    var x := Local(c, NO_FLAGS, slen, buf);
    if c.state == ESTABLISHED && c.len == 0 then CallAndSend(x.(flags := NO_FLAGS.(poll := true)), calls, [], false)
    else Drop(x, false)
  }

  // --------------------------------------------------------------------- open

  /** `uip_connect`, on the slot it has chosen. */
  function ActiveOpen(c: Conn, iss: Seq4, lport: uint16, rport: uint16, ripaddr: Addr): Conn {
    Conn(ripaddr, lport, rport, c.rcvNxt, iss, 1, UIP_TCP_MSS, UIP_TCP_MSS, UIP_RTO, 1, 0, SYN_SENT, false)
  }

  /** Label `found_listen`, on the slot it has chosen; without an MSS option the slot's old sizes stay. */
  function PassiveOpen(c: Conn, iss: Seq4, seg: Segment, lport: uint16, rport: uint16, ripaddr: Addr): Conn {
    var slot := Conn(ripaddr, lport, rport, Add32(seg.seqno, 1), iss, 1, c.mss, c.initialmss,
                     UIP_RTO, UIP_RTO, 0, SYN_RCVD, false);
    WithMss(slot, seg.mss)
  }
}
