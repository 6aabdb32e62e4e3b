/**
 * In-order, exactly-once delivery: whatever the network loses, repeats or
 * reorders, the application receives a prefix of the peer's stream.
 */
module TcpDelivery {
  import opened Bytes
  import opened Common
  import opened SequenceNumbers
  import opened Tcp

  // -------------------------------------------------------------------- runs

  /** What can happen to a connection. `slen` and `buf` are the globals as earlier invocations left them. */
  datatype Event =
    | Arrives(seg: Segment, rto: byte, calls: seq<AppCall>, slen: uint16, buf: seq<byte>)
    | TimerTick(calls: seq<AppCall>, buf: seq<byte>)
    | Polled(calls: seq<AppCall>, slen: uint16, buf: seq<byte>)

  function Do(c: Conn, e: Event): Outcome {
    match e
    case Arrives(seg, rto, calls, slen, buf) => Receive(c, seg, rto, calls, slen, buf)
    case TimerTick(calls, buf) => Tick(c, calls, buf)
    case Polled(calls, slen, buf) => PollRequest(c, calls, slen, buf)
  }

  /** A connection with its history: the data given to the application, and what was added to rcv_nxt. */
  datatype Track = Track(conn: Conn, given: seq<byte>, accepted: nat, fins: nat)

  function After(t: Track, out: Outcome): Track {
    Track(out.x.conn, t.given + out.given, t.accepted + out.accepted, t.fins + (if out.finTaken then 1 else 0))
  }

  function Play(t: Track, events: seq<Event>): Track {
    if events == [] then t
    else
      var before := Play(t, events[..|events| - 1]);
      After(before, Do(before.conn, events[|events| - 1]))
  }

  // -------------------------------------------------------------------- peer

  const MAX_STREAM := 0x8000_0000
  const MAX_PAYLOAD := 65535 - UIP_TCPIP_HLEN

  /** The segment carries the peer's stream from offset `off` on; `irs` is the peer's initial sequence number. */
  ghost predicate Carries(seg: Segment, irs: nat, stream: seq<byte>, off: nat) {
    && off + |seg.data| <= |stream|
    && seg.seqno.Value() == (irs + 1 + off) % TWO_32
    && seg.data == stream[off..off + |seg.data|]
    && (seg.fin ==> off + |seg.data| == |stream|)
  }

  /**
   * A segment that a peer with this stream may have sent at any time. Resets,
   * pure ACKs, and what comes with a SYN are unconstrained.
   */
  ghost predicate FromPeer(seg: Segment, irs: nat, stream: seq<byte>) {
    && |seg.data| <= MAX_PAYLOAD
    && (seg.syn ==> seg.seqno.Value() == irs)
    && (!seg.syn && (seg.data != [] || seg.fin) ==> exists off :: Carries(seg, irs, stream, off))
  }

  ghost predicate EventFromPeer(e: Event, irs: nat, stream: seq<byte>) {
    e.Arrives? ==> FromPeer(e.seg, irs, stream)
  }

  // --------------------------------------------------------------- invariant

  predicate Open(s: TcpState) {
    s == SYN_RCVD || s == ESTABLISHED
  }

  /** rcv_nxt counts what has been accepted, and what was given is the beginning of the stream. */
  ghost predicate Synced(t: Track, irs: nat, stream: seq<byte>) {
    && t.given <= stream
    && (t.conn.state == SYN_SENT ==> t.given == [] && t.accepted == 0 && t.fins == 0)
    && (t.conn.state != SYN_SENT && t.conn.state != CLOSED ==>
          && t.conn.rcvNxt.Value() == (irs + 1 + t.accepted + t.fins) % TWO_32
          && |t.given| <= t.accepted <= |stream|
          && (t.fins == 0 || (t.fins == 1 && t.accepted == |stream| && !Open(t.conn.state)
               && t.conn.state != FIN_WAIT_1 && t.conn.state != FIN_WAIT_2))
          && (Open(t.conn.state) ==> |t.given| == t.accepted))
  }

  /** In a synchronised state a segment that passes the sequence check is the next piece of the stream. */
  lemma InOrderIsNext(c: Conn, seg: Segment, irs: nat, stream: seq<byte>, next: nat)
    requires irs < TWO_32 && |stream| < MAX_STREAM && FromPeer(seg, irs, stream)
    requires c.state != SYN_SENT && next <= |stream| + 1 && c.rcvNxt.Value() == (irs + 1 + next) % TWO_32
    requires !OutOfOrder(c, seg)
    ensures !seg.syn
    ensures seg.data != [] || seg.fin ==> Carries(seg, irs, stream, next)
  {
    OffsetIsUnique(irs, 0, 1 + next);
    if !seg.syn && (seg.data != [] || seg.fin) {
      var off :| Carries(seg, irs, stream, off);
      OffsetIsUnique(irs + 1, off, next);
    }
  }

  lemma CarriesFits(seg: Segment, irs: nat, stream: seq<byte>, off: nat)
    requires off <= |stream|
    requires seg.data != [] || seg.fin ==> Carries(seg, irs, stream, off)
    ensures off + |seg.data| <= |stream| && (seg.fin ==> off + |seg.data| == |stream|)
  {
  }

  lemma AcceptAdvances(c: Conn, base: nat, n: nat)
    requires n <= 65535 && c.rcvNxt.Value() == base % TWO_32
    ensures Accept(c, n).rcvNxt.Value() == (base + n) % TWO_32
  {
    hide Add32, Seq4.Value;
    var next := Add32(c.rcvNxt, n);
    assert n % 65536 == n;
    assert Accept(c, n).rcvNxt == next;
    Add32IsModular(c.rcvNxt, n);
    AddTwice(base, n);
  }

  // -------------------------------------------------------------------- steps

  /** Sending leaves the receive side alone; it can only close the connection or move it to FIN_WAIT_1. */
  lemma SendKeepsReceiver(x: Local, calls: seq<AppCall>, given: seq<byte>, acked: bool)
    requires x.conn.state == ESTABLISHED
    ensures var out := CallAndSend(x, calls, given, acked);
      && out.x.conn.rcvNxt == x.conn.rcvNxt && out.given == given && out.accepted == |given| && !out.finTaken
      && (out.x.conn.state == ESTABLISHED || out.x.conn.state == FIN_WAIT_1 || out.x.conn.state == CLOSED)
  {
  }

  /** The invariant for a step that hands over all it accepts and takes no FIN. */
  lemma GivesAll(t: Track, out: Outcome, irs: nat, stream: seq<byte>)
    requires t.given <= stream && |t.given| == t.accepted && t.fins == 0
    requires t.accepted + |out.given| <= |stream| && out.given == stream[t.accepted..t.accepted + |out.given|]
    requires out.accepted == |out.given| && !out.finTaken
    requires out.x.conn.rcvNxt.Value() == (irs + 1 + t.accepted + out.accepted) % TWO_32
    requires out.x.conn.state == ESTABLISHED || out.x.conn.state == FIN_WAIT_1 || out.x.conn.state == CLOSED
    ensures Synced(After(t, out), irs, stream)
  {
  }

  lemma SynRcvdDelivers(t: Track, x: Local, seg: Segment, calls: seq<AppCall>, acked: bool, irs: nat, stream: seq<byte>)
    requires Synced(t, irs, stream) && t.conn.state == x.conn.state == SYN_RCVD && x.conn.rcvNxt == t.conn.rcvNxt
    requires |seg.data| <= MAX_PAYLOAD && (seg.data != [] ==> Carries(seg, irs, stream, t.accepted))
    ensures Synced(After(t, InSynRcvd(x, seg, calls, acked)), irs, stream)
  {
    if x.flags.ackdata {
      var y := PassiveConnected(x, seg);
      SendKeepsReceiver(y, calls, seg.data, acked);
      AcceptAdvances(x.conn, irs + 1 + t.accepted, |seg.data|);
      GivesAll(t, CallAndSend(y, calls, seg.data, acked), irs, stream);
    }
  }

  lemma SynSentDelivers(t: Track, x: Local, seg: Segment, calls: seq<AppCall>, acked: bool, irs: nat, stream: seq<byte>)
    requires Synced(t, irs, stream) && t.conn.state == x.conn.state == SYN_SENT && irs < TWO_32
    requires seg.syn ==> seg.seqno.Value() == irs
    ensures Synced(After(t, InSynSent(x, seg, calls, acked)), irs, stream)
  {
    if x.flags.ackdata && seg.IsSynAck() {
      var y := ActiveConnected(x, seg);
      SendKeepsReceiver(y, calls, [], acked);
      AcceptAdvances(x.conn.(rcvNxt := seg.seqno), irs, 1);
      GivesAll(t, CallAndSend(y, calls, [], acked), irs, stream);
    }
  }

  /** The peer's FIN, and the last data before it. */
  lemma FinDelivers(t: Track, x: Local, seg: Segment, calls: seq<AppCall>, acked: bool, irs: nat, stream: seq<byte>)
    requires Synced(t, irs, stream) && t.conn.state == x.conn.state == ESTABLISHED && x.conn.rcvNxt == t.conn.rcvNxt
    requires |seg.data| <= MAX_PAYLOAD && seg.fin && !x.conn.stopped && Carries(seg, irs, stream, t.accepted)
    ensures Synced(After(t, InEstablished(x, seg, calls, acked)), irs, stream)
  {
    hide Add32;
    assert t.given + [] == t.given && t.given + seg.data <= stream;
    AcceptAdvances(x.conn, irs + 1 + t.accepted, 1 + |seg.data|);
  }

  lemma EstablishedDelivers(t: Track, x: Local, seg: Segment, calls: seq<AppCall>, acked: bool, irs: nat,
                            stream: seq<byte>)
    requires Synced(t, irs, stream) && t.conn.state == x.conn.state == ESTABLISHED && x.conn.rcvNxt == t.conn.rcvNxt
    requires |seg.data| <= MAX_PAYLOAD && (seg.data != [] || seg.fin ==> Carries(seg, irs, stream, t.accepted))
    ensures Synced(After(t, InEstablished(x, seg, calls, acked)), irs, stream)
  {
    hide Add32, CallAndSend;
    if seg.fin && !x.conn.stopped {
      FinDelivers(t, x, seg, calls, acked, irs, stream);
    } else {
      var y := TakeData(x, seg);
      var given := if y.flags.newdata then seg.data else [];
      AcceptAdvances(x.conn, irs + 1 + t.accepted, |seg.data|);
      SendKeepsReceiver(y.(slen := 0), calls, given, acked);
      if y.flags.newdata || y.flags.ackdata {
        GivesAll(t, CallAndSend(y.(slen := 0), calls, given, acked), irs, stream);
      }
    }
  }

  lemma FinWaitDelivers(t: Track, x: Local, seg: Segment, calls: seq<AppCall>, acked: bool, irs: nat, stream: seq<byte>)
    requires Synced(t, irs, stream) && x.conn.rcvNxt == t.conn.rcvNxt && x.conn.state == t.conn.state
    requires t.conn.state == FIN_WAIT_1 || t.conn.state == FIN_WAIT_2
    requires |seg.data| <= MAX_PAYLOAD && (seg.data != [] || seg.fin ==> Carries(seg, irs, stream, t.accepted))
    ensures Synced(After(t, InFinWait(x, seg, calls, acked)), irs, stream)
  {
    hide Add32, Carries;
    var base := irs + 1 + t.accepted;
    CarriesFits(seg, irs, stream, t.accepted);
    AcceptAdvances(x.conn, base, |seg.data|);
    var c := if seg.data != [] then Accept(x.conn, |seg.data|) else x.conn;
    AcceptAdvances(c, base + |seg.data|, 1);
    assert t.given + [] == t.given;
  }

  /** A timer tick or a poll request leaves the receive side alone. */
  lemma SendingDelivers(t: Track, e: Event, irs: nat, stream: seq<byte>)
    requires Synced(t, irs, stream) && !e.Arrives?
    ensures Synced(After(t, Do(t.conn, e)), irs, stream)
  {
    hide CallAndSend, Callback, Backoff;
    var c := t.conn;
    assert t.given + [] == t.given;
    match e {
      case TimerTick(calls, buf) =>
        if c.state == ESTABLISHED {
          SendKeepsReceiver(Local(c, NO_FLAGS.(poll := true), 0, buf), calls, [], false);
        }
      case Polled(calls, slen, buf) =>
        if c.state == ESTABLISHED {
          SendKeepsReceiver(Local(c, NO_FLAGS.(poll := true), slen, buf), calls, [], false);
        }
    }
  }

  /** One step of a run. */
  lemma StepDelivers(t: Track, e: Event, irs: nat, stream: seq<byte>)
    requires irs < TWO_32 && |stream| < MAX_STREAM
    requires Synced(t, irs, stream) && EventFromPeer(e, irs, stream)
    ensures Synced(After(t, Do(t.conn, e)), irs, stream)
  {
    hide CallAndSend, Add32, Increment, Callback, Tick, PollRequest;
    var c := t.conn;
    assert t.given + [] == t.given;
    match e {
      case Arrives(seg, rto, calls, slen, buf) =>
        if !seg.rst && !OutOfOrder(c, seg) {
          hide InOrder;
          var acked := AcksOutstanding(c, seg);
          var y := AfterAck(Local(c, NO_FLAGS, slen, buf), acked, rto);
          ArrivalDelivers(t, y, seg, calls, acked, irs, stream);
        }
      case _ => SendingDelivers(t, e, irs, stream);
    }
  }

  lemma ArrivalDelivers(t: Track, y: Local, seg: Segment, calls: seq<AppCall>, acked: bool, irs: nat, stream: seq<byte>)
    requires irs < TWO_32 && |stream| < MAX_STREAM && Synced(t, irs, stream) && FromPeer(seg, irs, stream)
    requires !OutOfOrder(t.conn, seg) && y.conn.state == t.conn.state && y.conn.rcvNxt == t.conn.rcvNxt
    ensures Synced(After(t, InOrder(y, seg, calls, acked)), irs, stream)
  {
    hide CallAndSend, Add32, InSynRcvd, InSynSent, InEstablished, InFinWait, Carries;
    if t.conn.state != SYN_SENT && t.conn.state != CLOSED {
      InOrderIsNext(t.conn, seg, irs, stream, t.accepted + t.fins);
    }
    assert t.given + [] == t.given;
    match t.conn.state {
      case SYN_RCVD => SynRcvdDelivers(t, y, seg, calls, acked, irs, stream);
      case SYN_SENT => SynSentDelivers(t, y, seg, calls, acked, irs, stream);
      case ESTABLISHED => EstablishedDelivers(t, y, seg, calls, acked, irs, stream);
      case FIN_WAIT_1 => FinWaitDelivers(t, y, seg, calls, acked, irs, stream);
      case FIN_WAIT_2 => FinWaitDelivers(t, y, seg, calls, acked, irs, stream);
      case _ =>
    }
  }

  // ------------------------------------------------------------ the main result

  /**
   * Over every run with a peer whose stream is shorter than 2^31 bytes, the
   * bytes given to the application are a prefix of the stream, and rcv_nxt is
   * the initial sequence number plus one, plus the bytes accepted, plus one for
   * the FIN, modulo 2^32; until the connection leaves ESTABLISHED, exactly the
   * accepted bytes have been given.
   */
  lemma {:induction false} InOrderDelivery(t: Track, events: seq<Event>, irs: nat, stream: seq<byte>)
    requires irs < TWO_32 && |stream| < MAX_STREAM && Synced(t, irs, stream)
    requires forall i :: 0 <= i < |events| ==> EventFromPeer(events[i], irs, stream)
    ensures Synced(Play(t, events), irs, stream)
  {
    if events != [] {
      var front, last := events[..|events| - 1], events[|events| - 1];
      InOrderDelivery(t, front, irs, stream);
      StepDelivers(Play(t, front), last, irs, stream);
    }
  }

  /** A connection starts synchronised, whichever side opened it. */
  lemma OpenIsSynced(c: Conn, iss: Seq4, syn: Segment, lport: uint16, rport: uint16, ripaddr: Addr, stream: seq<byte>)
    ensures Synced(Track(ActiveOpen(c, iss, lport, rport, ripaddr), [], 0, 0), syn.seqno.Value(), stream)
    ensures Synced(Track(PassiveOpen(c, iss, syn, lport, rport, ripaddr), [], 0, 0), syn.seqno.Value(), stream)
  {
    Add32IsModular(syn.seqno, 1);
  }
}
