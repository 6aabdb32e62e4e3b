/**
 * The whole TCP engine: the table of connections, the listening ports, the
 * demultiplexing of segments, and the two ways of opening a connection.
 */
module TcpSystem {
  import opened Bytes
  import opened Common
  import opened SequenceNumbers
  import opened Tcp
  import opened TcpInvariant

  const UIP_CONNS := 10
  const UIP_LISTENPORTS := 10
  const FIRST_PORT := 4096
  const END_PORT := 32000

  /** The global variables that outlive an invocation. */
  datatype Sys = Sys(
    conns: seq<Conn>, listenports: seq<uint16>, iss: Seq4, lastport: uint16, slen: uint16, buf: seq<byte>)

  // ---------------------------------------------------------- demultiplexing

  /** The test of the demultiplexer; a slot with a leftover stop bit does not count as closed. */
  predicate Matches(c: Conn, src: Addr, srcport: uint16, destport: uint16) {
    !c.Is(CLOSED) && destport == c.lport && srcport == c.rport && src == c.ripaddr
  }

  /** The first matching connection from slot `k` on, or -1. */
  function FindConn(conns: seq<Conn>, k: nat, src: Addr, srcport: uint16, destport: uint16): (i: int)
    requires k <= |conns|
    ensures i == -1 || (k <= i < |conns| && Matches(conns[i], src, srcport, destport))
    ensures i == -1 ==> forall j :: k <= j < |conns| ==> !Matches(conns[j], src, srcport, destport)
    ensures i >= 0 ==> forall j :: k <= j < i ==> !Matches(conns[j], src, srcport, destport)
    decreases |conns| - k
  {
    if k == |conns| then -1
    else if Matches(conns[k], src, srcport, destport) then k
    else FindConn(conns, k + 1, src, srcport, destport)
  }

  /** The search for a slot: the first closed one, else the one longest in TIME_WAIT, else -1. */
  function FindUnused(conns: seq<Conn>, k: nat, best: int): int
    requires k <= |conns| && (best == -1 || 0 <= best < |conns|)
    decreases |conns| - k
  {
    if k == |conns| then best
    else if conns[k].Is(CLOSED) then k
    else if conns[k].Is(TIME_WAIT) && (best == -1 || conns[k].timer > conns[best].timer) then
      FindUnused(conns, k + 1, k)
    else FindUnused(conns, k + 1, best)
  }

  ghost predicate Oldest(conns: seq<Conn>, k: nat, i: int) {
    && 0 <= i < k <= |conns| && conns[i].Is(TIME_WAIT)
    && (forall j :: 0 <= j < k ==> !conns[j].Is(CLOSED))
    && (forall j :: 0 <= j < k && conns[j].Is(TIME_WAIT) ==> conns[j].timer <= conns[i].timer)
    && (forall j :: 0 <= j < i && conns[j].Is(TIME_WAIT) ==> conns[j].timer < conns[i].timer)
  }

  /** What the search finds. A connection in any other state is never given away. */
  lemma {:induction false} FindUnusedFinds(conns: seq<Conn>, k: nat, best: int)
    requires k <= |conns|
    requires forall j :: 0 <= j < k ==> !conns[j].Is(CLOSED)
    requires if best == -1 then forall j :: 0 <= j < k ==> !conns[j].Is(TIME_WAIT) else Oldest(conns, k, best)
    ensures var i := FindUnused(conns, k, best);
      if i == -1 then forall j :: 0 <= j < |conns| ==> !conns[j].Is(CLOSED) && !conns[j].Is(TIME_WAIT)
      else
        && 0 <= i < |conns|
        && ((conns[i].Is(CLOSED) && forall j :: 0 <= j < i ==> !conns[j].Is(CLOSED)) || Oldest(conns, |conns|, i))
    decreases |conns| - k
  {
    if k < |conns| && !conns[k].Is(CLOSED) {
      if conns[k].Is(TIME_WAIT) && (best == -1 || conns[k].timer > conns[best].timer) {
        FindUnusedFinds(conns, k + 1, k);
      } else {
        FindUnusedFinds(conns, k + 1, best);
      }
    }
  }

  // ------------------------------------------------------------- port search

  predicate PortInUse(conns: seq<Conn>, port: uint16) {
    exists i :: 0 <= i < |conns| && !conns[i].Is(CLOSED) && conns[i].lport == port
  }

  /** `++lastport`, back to 4096 at 32000. */
  function NextPort(port: uint16): uint16 {
    if port + 1 >= END_PORT then FIRST_PORT else port + 1
  }

  /** The port after `n` increments. */
  function PortAfter(port: uint16, n: nat): uint16 {
    if n == 0 then port else NextPort(PortAfter(port, n - 1))
  }

  lemma {:induction false} PortAfterIs(port: uint16, n: nat)
    requires port < END_PORT && n < END_PORT - FIRST_PORT
    ensures PortAfter(port, n) == if port + n < END_PORT then port + n else port + n - END_PORT + FIRST_PORT
  {
    if n > 0 {
      PortAfterIs(port, n - 1);
    }
  }

  lemma PortsAreDistinct(port: uint16, m: nat, n: nat)
    requires port < END_PORT && m < n < END_PORT - FIRST_PORT
    ensures PortAfter(port, m) != PortAfter(port, n)
  {
    PortAfterIs(port, m);
    PortAfterIs(port, n);
  }

  /** The ports of the table, and the first `n` ports the search tries. */
  ghost function UsedPorts(conns: seq<Conn>): set<uint16> {
    set i | 0 <= i < |conns| :: conns[i].lport
  }

  ghost function Tried(port: uint16, n: nat): set<uint16> {
    if n == 0 then {} else Tried(port, n - 1) + {PortAfter(port, n)}
  }

  lemma {:induction false} TriedHas(port: uint16, n: nat, p: uint16)
    requires p in Tried(port, n)
    ensures exists m :: 1 <= m <= n && p == PortAfter(port, m)
  {
    if p != PortAfter(port, n) {
      TriedHas(port, n - 1, p);
    }
  }

  lemma {:induction false} TriedSize(port: uint16, n: nat)
    requires port < END_PORT && n < END_PORT - FIRST_PORT
    ensures |Tried(port, n)| == n
  {
    if n > 0 {
      TriedSize(port, n - 1);
      if PortAfter(port, n) in Tried(port, n - 1) {
        TriedHas(port, n - 1, PortAfter(port, n));
        var m :| 1 <= m <= n - 1 && PortAfter(port, n) == PortAfter(port, m);
        PortsAreDistinct(port, m, n);
      }
    }
  }

  lemma {:induction false} UsedPortsSize(conns: seq<Conn>)
    ensures |UsedPorts(conns)| <= |conns|
  {
    if conns != [] {
      var front, last := conns[..|conns| - 1], conns[|conns| - 1];
      UsedPortsSize(front);
      assert UsedPorts(conns) == UsedPorts(front) + {last.lport} by {
        forall p | p in UsedPorts(conns)
          ensures p in UsedPorts(front) + {last.lport}
        {
          var i :| 0 <= i < |conns| && p == conns[i].lport;
          assert i < |front| ==> front[i] == conns[i];
        }
        forall p | p in UsedPorts(front)
          ensures p in UsedPorts(conns)
        {
          var i :| 0 <= i < |front| && p == front[i].lport;
          assert conns[i] == front[i];
        }
        assert conns[|conns| - 1].lport in UsedPorts(conns);
      }
    }
  }

  lemma SubsetSize<T>(a: set<T>, b: set<T>)
    requires a <= b
    ensures |a| <= |b|
    decreases a
  {
    if a != {} {
      var x :| x in a;
      SubsetSize(a - {x}, b - {x});
    }
  }

  /** By the pigeonhole principle one of the first |conns| + 1 ports is free. */
  lemma SomePortIsFree(conns: seq<Conn>, port: uint16)
    requires port < END_PORT && |conns| + 1 < END_PORT - FIRST_PORT
    ensures exists n :: 1 <= n <= |conns| + 1 && !PortInUse(conns, PortAfter(port, n))
  {
    var n := |conns| + 1;
    if forall m :: 1 <= m <= n ==> PortInUse(conns, PortAfter(port, m)) {
      forall p | p in Tried(port, n)
        ensures p in UsedPorts(conns)
      {
        TriedHas(port, n, p);
      }
      TriedSize(port, n);
      UsedPortsSize(conns);
      SubsetSize(Tried(port, n), UsedPorts(conns));
      assert false;
    }
  }

  /** The first free port behind `port`. */
  ghost predicate FirstFreePort(conns: seq<Conn>, port: uint16, n: nat) {
    && 1 <= n <= |conns| + 1
    && !PortInUse(conns, PortAfter(port, n))
    && forall m :: 1 <= m < n ==> PortInUse(conns, PortAfter(port, m))
  }

  // -------------------------------------------------------------------- steps

  datatype Event =
    | Input(src: Addr, srcport: uint16, destport: uint16, seg: Segment, rto: byte, calls: seq<AppCall>)
    | Periodic(i: nat, calls: seq<AppCall>)
    | Poll(i: nat, calls: seq<AppCall>)
    | Connect(ripaddr: Addr, rport: uint16, tries: nat)

  ghost predicate Enabled(s: Sys, e: Event) {
    match e
    case Input(_, _, _, _, _, _) => true
    case Periodic(i, _) => i < |s.conns|
    case Poll(i, _) => i < |s.conns|
    case Connect(_, _, tries) => FirstFreePort(s.conns, s.lastport, tries)
  }

  /** A segment on its way out, with its addresses. */
  datatype Packet = Packet(dst: Addr, srcport: uint16, destport: uint16, seg: Segment)

  function ToPeer(c: Conn, seg: Option<Segment>): Option<Packet> {
    match seg
    case None => None
    case Some(sg) => Some(Packet(c.ripaddr, c.lport, c.rport, sg))
  }

  /** The outcome of an invocation for slot `i`, stored back. */
  function Store(s: Sys, i: nat, out: Outcome): Sys
    requires i < |s.conns|
  {
    s.(conns := s.conns[i := out.x.conn], slen := out.x.slen, buf := out.x.buf)
  }

  /** A segment for which there is no connection. */
  function NoConnection(s: Sys, src: Addr, srcport: uint16, destport: uint16, seg: Segment): (Sys, Option<Packet>) {
    var reset := if seg.rst then None else Some(Packet(src, destport, srcport, ResetReply(seg)));
    if !seg.IsSyn() || destport !in s.listenports then (s, reset)
    else
      var i := FindUnused(s.conns, 0, -1);
      if 0 <= i < |s.conns| then
        var c := PassiveOpen(s.conns[i], s.iss, seg, destport, srcport, src);
        (s.(conns := s.conns[i := c]), ToPeer(c, Some(Reply(c, false, true, false, false, true, []))))
      else (s, None)
  }

  function Step(s: Sys, e: Event): (Sys, Option<Packet>)
    requires Enabled(s, e)
  {
    match e
    case Input(src, srcport, destport, seg, rto, calls) =>
      var i := FindConn(s.conns, 0, src, srcport, destport);
      if i < 0 then NoConnection(s, src, srcport, destport, seg)
      else
        var out := Receive(s.conns[i], seg, rto, calls, s.slen, s.buf);
        (Store(s, i, out), ToPeer(s.conns[i], out.seg))
    case Periodic(i, calls) =>
      var out := Tick(s.conns[i], calls, s.buf);
      (Store(s, i, out).(iss := Increment(s.iss)), ToPeer(s.conns[i], out.seg))
    case Poll(i, calls) =>
      var out := PollRequest(s.conns[i], calls, s.slen, s.buf);
      (Store(s, i, out), ToPeer(s.conns[i], out.seg))
    case Connect(ripaddr, rport, tries) =>
      var port := PortAfter(s.lastport, tries);
      var i := FindUnused(s.conns, 0, -1);
      if 0 <= i < |s.conns| then
        (s.(conns := s.conns[i := ActiveOpen(s.conns[i], s.iss, port, rport, ripaddr)], lastport := port), None)
      else (s.(lastport := port), None)
  }

  // --------------------------------------------------------------- invariants

  /** No two connections in use have the same local port, remote port and remote address. */
  ghost predicate Unambiguous(conns: seq<Conn>) {
    forall i, j :: 0 <= i < j < |conns| && !conns[i].Is(CLOSED) && !conns[j].Is(CLOSED) ==>
      (conns[i].lport, conns[i].rport, conns[i].ripaddr) != (conns[j].lport, conns[j].rport, conns[j].ripaddr)
  }

  /** What holds of the table whatever the application does. */
  ghost predicate TableInv(s: Sys) {
    && |s.conns| == UIP_CONNS && |s.listenports| == UIP_LISTENPORTS
    && Unambiguous(s.conns)
    && s.lastport < END_PORT
    && |s.buf| == UIP_TCP_MSS
  }

  /** Every connection is in a consistent state. */
  ghost predicate AllConsistent(conns: seq<Conn>) {
    forall i :: 0 <= i < |conns| ==> ConnInv(conns[i])
  }

  /** No uip_stop is left behind by a callback that comes after the connection has left ESTABLISHED. */
  ghost predicate StopsInTime(s: Sys, e: Event)
    requires Enabled(s, e)
  {
    match e
    case Input(src, srcport, destport, seg, _, calls) =>
      var i := FindConn(s.conns, 0, src, srcport, destport);
      i >= 0 && CallsAfterLeaving(s.conns[i], seg) ==> !StopBit(false, calls)
    case Periodic(i, calls) => TimesOut(s.conns[i]) ==> !StopBit(false, calls)
    case _ => true
  }

  /**
   * A step leaves the addresses of a connection and the size of the buffer
   * alone, and does not revive a closed slot.
   */
  ghost predicate KeepsTuple(c: Conn, buf: seq<byte>, x: Local) {
    && x.conn.lport == c.lport && x.conn.rport == c.rport && x.conn.ripaddr == c.ripaddr
    && |x.buf| == |buf|
  }

  lemma CallAndSendKeepsTuple(x: Local, calls: seq<AppCall>, given: seq<byte>, acked: bool)
    ensures KeepsTuple(x.conn, x.buf, CallAndSend(x, calls, given, acked).x)
  {
  }

  lemma EstablishedKeepsTuple(y: Local, seg: Segment, calls: seq<AppCall>, acked: bool)
    ensures KeepsTuple(y.conn, y.buf, InEstablished(y, seg, calls, acked).x)
  {
    hide CallAndSend, Add32;
    var z := TakeData(y, seg);
    CallAndSendKeepsTuple(z.(slen := 0), calls, if z.flags.newdata then seg.data else [], acked);
  }

  lemma FinWaitKeepsTuple(y: Local, seg: Segment, calls: seq<AppCall>, acked: bool)
    ensures KeepsTuple(y.conn, y.buf, InFinWait(y, seg, calls, acked).x)
  {
    hide Add32;
  }

  lemma InOrderKeepsTuple(y: Local, seg: Segment, calls: seq<AppCall>, acked: bool)
    ensures KeepsTuple(y.conn, y.buf, InOrder(y, seg, calls, acked).x)
  {
    hide CallAndSend, InEstablished, InFinWait, Add32, Increment;
    match y.conn.state {
      case SYN_RCVD => CallAndSendKeepsTuple(PassiveConnected(y, seg), calls, seg.data, acked);
      case SYN_SENT => CallAndSendKeepsTuple(ActiveConnected(y, seg), calls, [], acked);
      case ESTABLISHED => EstablishedKeepsTuple(y, seg, calls, acked);
      case FIN_WAIT_1 => FinWaitKeepsTuple(y, seg, calls, acked);
      case FIN_WAIT_2 => FinWaitKeepsTuple(y, seg, calls, acked);
      case _ =>
    }
  }

  lemma ReceiveKeepsTuple(c: Conn, seg: Segment, rto: byte, calls: seq<AppCall>, slen: uint16, buf: seq<byte>)
    ensures KeepsTuple(c, buf, Receive(c, seg, rto, calls, slen, buf).x)
  {
    hide Add32, InOrder;
    var acked := AcksOutstanding(c, seg);
    InOrderKeepsTuple(AfterAck(Local(c, NO_FLAGS, slen, buf), acked, rto), seg, calls, acked);
  }

  lemma TickKeepsTuple(c: Conn, calls: seq<AppCall>, buf: seq<byte>)
    ensures KeepsTuple(c, buf, Tick(c, calls, buf).x) && (c.Is(CLOSED) ==> Tick(c, calls, buf).x.conn == c)
  {
    hide CallAndSend;
    CallAndSendKeepsTuple(Local(c, NO_FLAGS.(poll := true), 0, buf), calls, [], false);
  }

  lemma PollKeepsTuple(c: Conn, calls: seq<AppCall>, slen: uint16, buf: seq<byte>)
    ensures KeepsTuple(c, buf, PollRequest(c, calls, slen, buf).x)
    ensures (c.Is(CLOSED) ==> PollRequest(c, calls, slen, buf).x.conn == c)
  {
    hide CallAndSend;
    CallAndSendKeepsTuple(Local(c, NO_FLAGS.(poll := true), slen, buf), calls, [], false);
  }

  /** Replacing one slot by a connection that nobody else clashes with. */
  lemma UpdateKeepsUnambiguous(conns: seq<Conn>, i: nat, c: Conn)
    requires i < |conns| && Unambiguous(conns)
    requires forall j :: 0 <= j < |conns| && j != i && !conns[j].Is(CLOSED) ==>
      (conns[j].lport, conns[j].rport, conns[j].ripaddr) != (c.lport, c.rport, c.ripaddr)
    ensures Unambiguous(conns[i := c])
  {
  }

  lemma SameTupleKeepsUnambiguous(conns: seq<Conn>, i: nat, c: Conn)
    requires i < |conns| && Unambiguous(conns)
    requires c.lport == conns[i].lport && c.rport == conns[i].rport && c.ripaddr == conns[i].ripaddr
    requires !conns[i].Is(CLOSED) || c.Is(CLOSED)
    ensures Unambiguous(conns[i := c])
  {
  }

  lemma InputKeepsTable(s: Sys, e: Event)
    requires TableInv(s) && e.Input?
    ensures TableInv(Step(s, e).0)
  {
    hide Receive, PassiveOpen, FindUnused;
    var i := FindConn(s.conns, 0, e.src, e.srcport, e.destport);
    if i >= 0 {
      ReceiveKeepsTuple(s.conns[i], e.seg, e.rto, e.calls, s.slen, s.buf);
      SameTupleKeepsUnambiguous(s.conns, i, Receive(s.conns[i], e.seg, e.rto, e.calls, s.slen, s.buf).x.conn);
    } else {
      var j := FindUnused(s.conns, 0, -1);
      if 0 <= j < |s.conns| {
        PassiveOpenTuple(s.conns[j], s.iss, e.seg, e.destport, e.srcport, e.src);
        UpdateKeepsUnambiguous(s.conns, j, PassiveOpen(s.conns[j], s.iss, e.seg, e.destport, e.srcport, e.src));
      }
    }
  }

  lemma PassiveOpenTuple(c: Conn, iss: Seq4, seg: Segment, lport: uint16, rport: uint16, ripaddr: Addr)
    ensures var c' := PassiveOpen(c, iss, seg, lport, rport, ripaddr);
      (c'.lport, c'.rport, c'.ripaddr) == (lport, rport, ripaddr)
  {
  }

  lemma ConnectKeepsTable(s: Sys, e: Event)
    requires TableInv(s) && e.Connect? && Enabled(s, e)
    ensures TableInv(Step(s, e).0)
  {
    hide FindUnused;
    var port, j := PortAfter(s.lastport, e.tries), FindUnused(s.conns, 0, -1);
    PortAfterIs(s.lastport, e.tries);
    if 0 <= j < |s.conns| {
      UpdateKeepsUnambiguous(s.conns, j, ActiveOpen(s.conns[j], s.iss, port, e.rport, e.ripaddr));
    }
  }

  lemma TimerKeepsTable(s: Sys, e: Event)
    requires TableInv(s) && Enabled(s, e) && (e.Periodic? || e.Poll?)
    ensures TableInv(Step(s, e).0)
  {
    hide Tick, PollRequest;
    var c := s.conns[e.i];
    if e.Periodic? {
      TickKeepsTuple(c, e.calls, s.buf);
      SameTupleKeepsUnambiguous(s.conns, e.i, Tick(c, e.calls, s.buf).x.conn);
    } else {
      PollKeepsTuple(c, e.calls, s.slen, s.buf);
      SameTupleKeepsUnambiguous(s.conns, e.i, PollRequest(c, e.calls, s.slen, s.buf).x.conn);
    }
  }

  /** Every step, also one that leaves a stop bit behind. */
  lemma StepKeepsTable(s: Sys, e: Event)
    requires TableInv(s) && Enabled(s, e)
    ensures TableInv(Step(s, e).0)
  {
    match e {
      case Input(_, _, _, _, _, _) => InputKeepsTable(s, e);
      case Connect(_, _, _) => ConnectKeepsTable(s, e);
      case _ => TimerKeepsTable(s, e);
    }
  }

  lemma ReplacedConsistentIff(conns: seq<Conn>, i: nat, c: Conn)
    requires i < |conns| && AllConsistent(conns)
    ensures AllConsistent(conns[i := c]) <==> ConnInv(c)
  {
    assert conns[i := c][i] == c;
  }

  lemma InBounds(conns: seq<Conn>, i: nat)
    requires i < |conns| && AllConsistent(conns)
    ensures ConnInv(conns[i]) && conns[i].mss <= conns[i].initialmss <= UIP_TCP_MSS
  {
  }

  lemma OpenKeepsConsistent(s: Sys, e: Event)
    requires AllConsistent(s.conns) && Enabled(s, e)
    requires e.Connect? || (e.Input? && FindConn(s.conns, 0, e.src, e.srcport, e.destport) < 0)
    ensures AllConsistent(Step(s, e).0.conns)
  {
    hide ConnInv, AllConsistent, FindUnused, FindConn, ActiveOpen, PassiveOpen;
    var j := FindUnused(s.conns, 0, -1);
    if 0 <= j < |s.conns| {
      InBounds(s.conns, j);
      if e.Connect? {
        var c := ActiveOpen(s.conns[j], s.iss, PortAfter(s.lastport, e.tries), e.rport, e.ripaddr);
        ActiveOpenKeeps(s.conns[j], s.iss, PortAfter(s.lastport, e.tries), e.rport, e.ripaddr);
        ReplacedConsistentIff(s.conns, j, c);
      } else {
        OpenKeeps(s.conns[j], s.iss, e.seg, e.destport, e.srcport, e.src);
        ReplacedConsistentIff(s.conns, j, PassiveOpen(s.conns[j], s.iss, e.seg, e.destport, e.srcport, e.src));
      }
    }
  }

  lemma ActiveOpenKeeps(c: Conn, iss: Seq4, lport: uint16, rport: uint16, ripaddr: Addr)
    ensures ConnInv(ActiveOpen(c, iss, lport, rport, ripaddr))
  {
  }

  /** A step keeps the states of the connections consistent exactly when it leaves no uip_stop behind. */
  lemma StepKeepsConsistentIff(s: Sys, e: Event)
    requires AllConsistent(s.conns) && |s.buf| == UIP_TCP_MSS && Enabled(s, e)
    ensures AllConsistent(Step(s, e).0.conns) <==> StopsInTime(s, e)
  {
    hide Receive, Tick, PollRequest, ConnInv, AllConsistent, TimesOut, CallsAfterLeaving, FindConn, StopBit, FindUnused;
    match e {
      case Input(src, srcport, destport, seg, rto, calls) =>
        var i := FindConn(s.conns, 0, src, srcport, destport);
        if i >= 0 {
          InBounds(s.conns, i);
          ReceiveKeepsIff(s.conns[i], seg, rto, calls, s.slen, s.buf);
          ReplacedConsistentIff(s.conns, i, Receive(s.conns[i], seg, rto, calls, s.slen, s.buf).x.conn);
        } else {
          OpenKeepsConsistent(s, e);
        }
      case Periodic(i, calls) =>
        InBounds(s.conns, i);
        TickKeepsIff(s.conns[i], calls, s.buf);
        ReplacedConsistentIff(s.conns, i, Tick(s.conns[i], calls, s.buf).x.conn);
      case Poll(i, calls) =>
        InBounds(s.conns, i);
        PollKeeps(s.conns[i], calls, s.slen, s.buf);
        ReplacedConsistentIff(s.conns, i, PollRequest(s.conns[i], calls, s.slen, s.buf).x.conn);
      case Connect(_, _, _) => OpenKeepsConsistent(s, e);
    }
  }

  /** `uip_init`, on a table of zeros as it is when the program starts; `iss` and `lastport` are random. */
  function Init(iss: Seq4, lastport: uint16, buf: seq<byte>): Sys {
    var zero := Seq4(0, 0, 0, 0);
    var unused := Conn((0, 0), 0, 0, zero, zero, 0, 0, 0, 0, 0, 0, CLOSED, false);
    Sys(seq(UIP_CONNS, i => unused), seq(UIP_LISTENPORTS, i => 0), iss, lastport, 0, buf)
  }

  lemma InitEstablishesInv(iss: Seq4, lastport: uint16, buf: seq<byte>)
    requires 1024 < lastport < END_PORT && |buf| == UIP_TCP_MSS
    ensures TableInv(Init(iss, lastport, buf)) && AllConsistent(Init(iss, lastport, buf).conns)
  {
  }

  // --------------------------------------------------------------------- runs

  /** `s'` is reached from `s` by the events, each of them possible in turn. */
  ghost predicate Reaches(s: Sys, events: seq<Event>, s': Sys)
    decreases |events|
  {
    if events == [] then s' == s
    else Enabled(s, events[0]) && Reaches(Step(s, events[0]).0, events[1..], s')
  }

  /** Over every run, no two connections in use share their addresses, wherever the application stops a connection. */
  lemma {:induction false} UnambiguousOverRuns(s: Sys, events: seq<Event>, s': Sys)
    requires TableInv(s) && Reaches(s, events, s')
    ensures TableInv(s')
    decreases |events|
  {
    hide Step, TableInv;
    if events != [] {
      StepKeepsTable(s, events[0]);
      UnambiguousOverRuns(Step(s, events[0]).0, events[1..], s');
    }
  }

  /** Every state of the run has its connections in a consistent state. */
  ghost predicate ConsistentThroughout(s: Sys, events: seq<Event>, s': Sys)
    requires Reaches(s, events, s')
    decreases |events|
  {
    AllConsistent(s.conns) && (events != [] ==> ConsistentThroughout(Step(s, events[0]).0, events[1..], s'))
  }

  /** No step of the run leaves a uip_stop behind. */
  ghost predicate StopsInTimeThroughout(s: Sys, events: seq<Event>, s': Sys)
    requires Reaches(s, events, s')
    decreases |events|
  {
    events != [] ==> StopsInTime(s, events[0]) && StopsInTimeThroughout(Step(s, events[0]).0, events[1..], s')
  }

  /** The connections stay in consistent states over a run exactly when no step of it leaves a uip_stop behind. */
  lemma {:induction false} ConsistentOverRunsIff(s: Sys, events: seq<Event>, s': Sys)
    requires TableInv(s) && AllConsistent(s.conns) && Reaches(s, events, s')
    ensures ConsistentThroughout(s, events, s') <==> StopsInTimeThroughout(s, events, s')
    decreases |events|
  {
    hide Step, TableInv, AllConsistent, StopsInTime;
    if events != [] {
      var next := Step(s, events[0]).0;
      BufferSize(s);
      StepKeepsConsistentIff(s, events[0]);
      StepKeepsTable(s, events[0]);
      if AllConsistent(next.conns) {
        ConsistentOverRunsIff(next, events[1..], s');
      }
    }
  }

  lemma BufferSize(s: Sys)
    requires TableInv(s)
    ensures |s.buf| == UIP_TCP_MSS
  {
  }

  /** A segment reaches the one connection it belongs to, and changes no other; what is answered goes to its peer. */
  lemma InputIsIsolated(s: Sys, e: Event, i: nat)
    requires Unambiguous(s.conns) && e.Input? && i < |s.conns| && !s.conns[i].Is(CLOSED)
    requires s.conns[i].lport == e.destport && s.conns[i].rport == e.srcport && s.conns[i].ripaddr == e.src
    ensures FindConn(s.conns, 0, e.src, e.srcport, e.destport) == i
    ensures var (s', packet) := Step(s, e);
      var out := Receive(s.conns[i], e.seg, e.rto, e.calls, s.slen, s.buf);
      && s'.conns == s.conns[i := out.x.conn] && s'.slen == out.x.slen && s'.buf == out.x.buf
      && packet == if out.seg.None? then None else Some(Packet(e.src, e.destport, e.srcport, out.seg.value))
  {
    hide Receive;
    var k := FindConn(s.conns, 0, e.src, e.srcport, e.destport);
    assert Matches(s.conns[i], e.src, e.srcport, e.destport);
    assert k >= 0 && Matches(s.conns[k], e.src, e.srcport, e.destport);
  }

  /** Connections that are open and not waiting to expire are never taken over by an open. */
  lemma OpensTakeOnlyUnused(s: Sys, e: Event, i: nat)
    requires Enabled(s, e) && i < |s.conns| && !s.conns[i].Is(CLOSED) && !s.conns[i].Is(TIME_WAIT)
    requires e.Connect? || (e.Input? && FindConn(s.conns, 0, e.src, e.srcport, e.destport) == -1)
    ensures Step(s, e).0.conns[i] == s.conns[i]
  {
    FindUnusedFinds(s.conns, 0, -1);
  }

  /** No connection in use has these ends. */
  ghost predicate Nobody(conns: seq<Conn>, src: Addr, srcport: uint16, destport: uint16) {
    forall i :: 0 <= i < |conns| && !conns[i].Is(CLOSED) ==>
      !(conns[i].lport == destport && conns[i].rport == srcport && conns[i].ripaddr == src)
  }

  ghost predicate Unused(c: Conn) {
    c.Is(CLOSED) || c.Is(TIME_WAIT)
  }

  /** The slot that an open takes is unused, and there is one as long as any is. */
  lemma SlotIsUnused(conns: seq<Conn>)
    ensures var i := FindUnused(conns, 0, -1);
      if exists k :: 0 <= k < |conns| && Unused(conns[k]) then 0 <= i < |conns| && Unused(conns[i]) else i == -1
  {
    FindUnusedFinds(conns, 0, -1);
  }

  /**
   * A SYN to a listening port opens a connection between its ends, in an unused
   * slot, and is answered with a SYNACK.
   */
  lemma ListenAccepts(s: Sys, e: Event) returns (i: int)
    requires e.Input? && Nobody(s.conns, e.src, e.srcport, e.destport) && e.destport in s.listenports
    requires e.seg.syn && !e.seg.ack && !e.seg.fin && !e.seg.rst && !e.seg.psh
    requires exists k :: 0 <= k < |s.conns| && Unused(s.conns[k])
    ensures 0 <= i < |s.conns| && Unused(s.conns[i])
    ensures var (s', packet) := Step(s, e);
      var c := s'.conns[i];
      && s' == s.(conns := s.conns[i := c]) && c.Is(SYN_RCVD)
      && c.lport == e.destport && c.rport == e.srcport && c.ripaddr == e.src
      && c.rcvNxt.Value() == (e.seg.seqno.Value() + 1) % TWO_32 && c.sndNxt == s.iss && c.len == 1
      && c.timer == 3 && c.nrtx == 0
      && c.mss == (if e.seg.mss.None? then s.conns[i].mss else if e.seg.mss.value > 1460 then 1460 else e.seg.mss.value)
      && c.initialmss == (if e.seg.mss.None? then s.conns[i].initialmss else c.mss)
      && packet.Some? && packet.value.dst == e.src
      && packet.value.srcport == e.destport && packet.value.destport == e.srcport
      && packet.value.seg == Segment(false, true, false, false, true, s.iss, c.rcvNxt, 1460, Some(1460), [])
  {
    hide FindUnused, Add32, Seq4.Value;
    SlotIsUnused(s.conns);
    Add32IsModular(e.seg.seqno, 1);
    i := FindUnused(s.conns, 0, -1);
  }

  /** Anything else without a connection is answered with a reset, unless it is one; without a slot a SYN is dropped. */
  lemma StrangersAreReset(s: Sys, e: Event)
    requires e.Input? && Nobody(s.conns, e.src, e.srcport, e.destport)
    requires var isSyn := e.seg.syn && !e.seg.ack && !e.seg.fin && !e.seg.rst && !e.seg.psh;
      var full := forall k :: 0 <= k < |s.conns| ==> !Unused(s.conns[k]);
      !(isSyn && e.destport in s.listenports) || full
    ensures var (s', packet) := Step(s, e);
      var dropped := e.seg.rst
        || (e.seg.syn && !e.seg.ack && !e.seg.fin && !e.seg.psh && e.destport in s.listenports);
      && s' == s
      && (dropped ==> packet == None)
      && (!dropped ==>
            && packet.Some? && packet.value.dst == e.src
            && packet.value.srcport == e.destport && packet.value.destport == e.srcport
            && packet.value.seg.rst && packet.value.seg.ack && packet.value.seg.data == []
            && packet.value.seg.seqno == e.seg.ackno
            && packet.value.seg.ackno.Value() == (e.seg.seqno.Value() + 1) % TWO_32)
  {
    hide FindUnused, Increment, Seq4.Value;
    SlotIsUnused(s.conns);
    IncrementIsModular(e.seg.seqno);
  }

  /**
   * An active open takes an unused slot for a connection to the address and port
   * asked for, from the next free port.
   */
  lemma ConnectOpens(s: Sys, e: Event) returns (i: int)
    requires e.Connect? && Enabled(s, e) && exists k :: 0 <= k < |s.conns| && Unused(s.conns[k])
    ensures 0 <= i < |s.conns| && Unused(s.conns[i])
    ensures var s' := Step(s, e).0;
      var c := s'.conns[i];
      && s' == s.(conns := s.conns[i := c], lastport := s'.lastport) && s'.lastport == PortAfter(s.lastport, e.tries)
      && c.Is(SYN_SENT) && c.lport == s'.lastport && c.rport == e.rport && c.ripaddr == e.ripaddr
      && c.sndNxt == s.iss && c.len == 1 && c.mss == c.initialmss == 1460 && c.timer == 1 && c.nrtx == 0
  {
    hide FindUnused, PortAfter;
    SlotIsUnused(s.conns);
    i := FindUnused(s.conns, 0, -1);
  }

  /** The second tick of an active open sends its SYN; each tick moves the initial sequence number on. */
  lemma SynIsSent(s: Sys, i: nat, calls: seq<AppCall>, calls': seq<AppCall>)
    requires i < |s.conns| && s.conns[i].Is(SYN_SENT)
    requires s.conns[i].len == 1 && s.conns[i].timer == 1 && s.conns[i].nrtx == 0
    ensures var c := s.conns[i];
      var (s1, packet1) := Step(s, Periodic(i, calls));
      var (s2, packet2) := Step(s1, Periodic(i, calls'));
      && s1.iss.Value() == (s.iss.Value() + 1) % TWO_32 && s2.iss.Value() == (s1.iss.Value() + 1) % TWO_32
      && packet1 == None && s2.conns == s.conns[i := c.(timer := 3, nrtx := 1)]
      && packet2.Some? && packet2.value.dst == c.ripaddr
      && packet2.value.srcport == c.lport && packet2.value.destport == c.rport
      && packet2.value.seg == Segment(false, true, false, false, false, c.sndNxt, c.rcvNxt, 1460, Some(1460), [])
  {
    hide Increment, Seq4.Value;
    IncrementIsModular(s.iss);
    IncrementIsModular(Increment(s.iss));
  }

  /**
   * `uip_connect(ripaddr, rport)` and two ticks: a SYN with the initial sequence
   * number leaves for that address and that port, from a port nobody else uses.
   */
  lemma ConnectReaches(s: Sys, e: Event, calls: seq<AppCall>, calls': seq<AppCall>) returns (i: int)
    requires e.Connect? && Enabled(s, e) && exists k :: 0 <= k < |s.conns| && Unused(s.conns[k])
    ensures 0 <= i < |s.conns| && Unused(s.conns[i])
    ensures var s0 := Step(s, e).0;
      var (s1, packet1) := Step(s0, Periodic(i, calls));
      var (s2, packet2) := Step(s1, Periodic(i, calls'));
      && s2.conns[i].Is(SYN_SENT) && packet1 == None && packet2.Some?
      && packet2.value.dst == e.ripaddr && packet2.value.destport == e.rport
      && packet2.value.srcport == s2.conns[i].lport == s0.lastport && !PortInUse(s.conns, packet2.value.srcport)
      && packet2.value.seg.IsSyn() && packet2.value.seg.seqno == s.iss && packet2.value.seg.data == []
  {
    hide Step, PortAfter;
    i := ConnectOpens(s, e);
    var s0 := Step(s, e).0;
    SynIsSent(s0, i, calls, calls');
  }

  /** A callback in which the application sends `data`, with nothing outstanding. */
  lemma SendLeavesLength(x: Local, data: seq<byte>)
    requires x.conn.state == ESTABLISHED && x.conn.len == 0 && x.flags == NO_FLAGS.(poll := true)
    requires 0 < |data| <= UIP_TCP_MSS && |x.buf| == UIP_TCP_MSS
    ensures var y := CallAndSend(x, [Send(data)], [], false).x;
      y.slen == (if |data| > x.conn.mss then x.conn.mss else |data|) && y.buf == Overwrite(x.buf, data)
  {
    assert [Send(data)][1..] == [] && data[..|data|] == data;
    assert Callback(x, [Send(data)]) == x.(slen := |data|, buf := Overwrite(x.buf, data));
  }

  /** A callback in which the application is silent sends what an earlier length says. */
  lemma SilenceSendsLength(x: Local)
    requires x.conn.state == ESTABLISHED && x.conn.len == 0 && x.flags == NO_FLAGS.(poll := true)
    requires 0 < x.conn.mss && x.slen <= |x.buf| == UIP_TCP_MSS
    ensures var out := CallAndSend(x, [], [], false);
      if x.slen == 0 then out.seg == None
      else out.seg.Some? && out.seg.value.data == x.buf[..if x.slen > x.conn.mss then x.conn.mss else x.slen]
  {
  }

  /**
   * `uip_slen` is shared by all connections, and a poll request does not clear
   * it: after one connection has sent data in its timer tick, a poll of another
   * one, whose application is silent, sends those bytes to its peer as well.
   */
  lemma StaleLengthCrosses(s: Sys, i: nat, j: nat, data: seq<byte>)
    requires i < |s.conns| && j < |s.conns| && i != j && |s.buf| == UIP_TCP_MSS && 0 < |data| <= UIP_TCP_MSS
    requires s.conns[i].state == ESTABLISHED && s.conns[i].len == 0 && 0 < s.conns[i].mss
    requires s.conns[j].state == ESTABLISHED && s.conns[j].len == 0 && 0 < s.conns[j].mss
    ensures var packet := Step(Step(s, Periodic(i, [Send(data)])).0, Poll(j, [])).1;
      && packet.Some? && packet.value.dst == s.conns[j].ripaddr
      && packet.value.seg.data != [] && packet.value.seg.data <= data
  {
    hide CallAndSend, Callback, Increment;
    var ci, cj := s.conns[i], s.conns[j];
    SendLeavesLength(Local(ci, NO_FLAGS.(poll := true), 0, s.buf), data);
    var y := CallAndSend(Local(ci, NO_FLAGS.(poll := true), 0, s.buf), [Send(data)], [], false).x;
    SilenceSendsLength(Local(cj, NO_FLAGS.(poll := true), y.slen, y.buf));
    assert forall n :: 0 <= n <= |data| ==> Overwrite(s.buf, data)[..n] == data[..n];
  }
}
