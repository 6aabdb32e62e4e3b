/**
 * The timers of the TCP engine: a connection whose peer has fallen silent is
 * given up after a number of ticks that can be computed beforehand.
 */
module TcpTimers {
  import opened Bytes
  import opened Common
  import opened SequenceNumbers
  import opened Tcp
  import opened TcpInvariant
  import opened TcpDelivery

  /** `n` timer ticks, with whatever the application does in each of them. */
  function Ticks(c: Conn, callss: seq<seq<AppCall>>, buf: seq<byte>): Conn {
    if callss == [] then c else Tick(Ticks(c, callss[..|callss| - 1], buf), callss[|callss| - 1], buf).x.conn
  }

  // ---------------------------------------------------------- retransmissions

  /** The ticks until a connection with outstanding data is closed. */
  function TimeLeft(timer: nat, nrtx: nat, limit: nat): (r: nat)
    ensures r > timer
    ensures r == timer + 1 <==> nrtx >= limit
    decreases limit - nrtx
  {
    timer + 1 + (if nrtx < limit then TimeLeft(Backoff(nrtx), nrtx + 1, limit) else 0)
  }

  function Lifetime(c: Conn): nat {
    TimeLeft(c.timer, c.nrtx, MaxRtx(c.state))
  }

  /** Outstanding data, so that the timer runs. */
  ghost predicate Retrying(c: Conn) {
    ConnInv(c) && c.len > 0 && c.state != CLOSED
  }

  /** A retransmission, as far as the connection is concerned. */
  lemma RetransmitConn(x: Local, calls: seq<AppCall>)
    ensures var c := Retransmit(x, calls).x.conn;
      c == x.conn.(timer := Backoff(x.conn.nrtx), nrtx := (x.conn.nrtx + 1) % 256,
                   stopped := if x.conn.state == ESTABLISHED then StopBit(x.conn.stopped, calls) else x.conn.stopped)
  {
    hide Backoff, Callback, Tcp.AppRexmit;
    var y := x.(conn := x.conn.(timer := Backoff(x.conn.nrtx), nrtx := (x.conn.nrtx + 1) % 256));
    RexmitKeeps(Callback(y.(flags := NO_FLAGS.(rexmit := true)), calls));
  }

  lemma RexmitKeeps(x: Local)
    ensures Tcp.AppRexmit(x).0 == x
  {
  }

  /** The timer has run out, with retransmissions left. */
  lemma SilentRetransmission(c: Conn, calls: seq<AppCall>, buf: seq<byte>)
    requires Retrying(c) && c.timer == 0 && !GivesUp(c)
    ensures var c' := Retransmit(Local(c, NO_FLAGS, 0, buf), calls).x.conn;
      Retrying(c') && c'.state == c.state && Lifetime(c') == Lifetime(c) - 1
  {
    hide Retransmit, Backoff, StopBit;
    RetransmitConn(Local(c, NO_FLAGS, 0, buf), calls);
  }

  lemma SilentTick(c: Conn, calls: seq<AppCall>, buf: seq<byte>)
    requires Retrying(c)
    ensures var c' := Tick(c, calls, buf).x.conn;
      if Lifetime(c) == 1 then c'.state == CLOSED && c'.stopped == StopBit(false, calls)
      else Retrying(c') && c'.state == c.state && Lifetime(c') == Lifetime(c) - 1
  {
    hide Retransmit, Callback, Backoff, CallAndSend, StopBit;
    if c.timer == 0 && !GivesUp(c) {
      SilentRetransmission(c, calls, buf);
      hide Lifetime;
    }
  }

  /**
   * A silent peer: as long as nothing arrives, the connection stays in its
   * state for exactly its lifetime, whatever the application does meanwhile.
   * With the last tick it is closed, and its slot is free again exactly when the
   * application does not call uip_stop when it is told.
   */
  lemma {:induction false} SilentPeerCloses(c: Conn, callss: seq<seq<AppCall>>, buf: seq<byte>)
    requires Retrying(c) && |callss| <= Lifetime(c)
    ensures var c' := Ticks(c, callss, buf);
      if |callss| == Lifetime(c) then
        c'.state == CLOSED && (c'.Is(CLOSED) <==> !StopBit(false, callss[|callss| - 1]))
      else Retrying(c') && c'.state == c.state && Lifetime(c') == Lifetime(c) - |callss|
  {
    if callss != [] {
      var front := callss[..|callss| - 1];
      SilentPeerCloses(c, front, buf);
      SilentTick(Ticks(c, front, buf), callss[|callss| - 1], buf);
    }
  }

  /** Eight retransmissions, with a backoff that stops growing at 48 ticks, take 245 ticks after the first timeout. */
  lemma LifetimeBound(c: Conn)
    requires Retrying(c)
    ensures Lifetime(c) <= c.timer + 246 <= 501
    ensures c.nrtx == 0 && MaxRtx(c.state) == UIP_MAXRTX ==> Lifetime(c) == c.timer + 246
    ensures c.nrtx == 0 && MaxRtx(c.state) == UIP_MAXSYNRTX ==> Lifetime(c) == c.timer + 99
  {
    var m := MaxRtx(c.state);
    assert TimeLeft(48, 8, 8) == 49;
    assert TimeLeft(48, 7, 8) == 98;
    assert TimeLeft(48, 6, 8) == 147;
    assert TimeLeft(48, 5, 8) == 196;
    assert TimeLeft(24, 4, 8) == 221;
    assert TimeLeft(12, 3, 8) == 234;
    assert TimeLeft(6, 2, 8) == 241;
    assert TimeLeft(3, 1, 8) == 245;
    assert TimeLeft(48, 5, 5) == 49;
    assert TimeLeft(24, 4, 5) == 74;
    assert TimeLeft(12, 3, 5) == 87;
    assert TimeLeft(6, 2, 5) == 94;
    assert TimeLeft(3, 1, 5) == 98;
    assert c.nrtx in {0, 1, 2, 3, 4, 5, 6, 7, 8};
  }

  // ------------------------------------------------------------ waiting states

  ghost predicate Waiting(c: Conn) {
    (c.Is(TIME_WAIT) || c.Is(FIN_WAIT_2)) && c.len == 0
  }

  /** The ticks until an 8-bit timer counts up to UIP_TIME_WAIT_TIMEOUT. */
  function WaitLeft(c: Conn): nat {
    if c.timer < UIP_TIME_WAIT_TIMEOUT then UIP_TIME_WAIT_TIMEOUT - c.timer else 256 + UIP_TIME_WAIT_TIMEOUT - c.timer
  }

  function CountTicks(events: seq<Event>): nat {
    if events == [] then 0
    else CountTicks(events[..|events| - 1]) + (if events[|events| - 1].TimerTick? then 1 else 0)
  }

  /** No reset arrives, and no FIN that would move FIN_WAIT_2 to TIME_WAIT. */
  predicate Quiet(c: Conn, e: Event) {
    e.Arrives? ==> !e.seg.rst && (c.state == FIN_WAIT_2 ==> !e.seg.fin)
  }

  lemma WaitingStep(c: Conn, e: Event)
    requires Waiting(c) && Quiet(c, e)
    ensures var c' := Do(c, e).x.conn;
      if !e.TimerTick? then Waiting(c') && c'.state == c.state && WaitLeft(c') == WaitLeft(c)
      else if WaitLeft(c) == 1 then c'.Is(CLOSED)
      else Waiting(c') && c'.state == c.state && WaitLeft(c') == WaitLeft(c) - 1
  {
    hide Add32;
  }

  /** The connection that a run leaves. */
  function Final(c: Conn, events: seq<Event>): Conn {
    Play(Track(c, [], 0, 0), events).conn
  }

  /**
   * TIME_WAIT and FIN_WAIT_2 end after a fixed number of ticks, whatever else
   * arrives in between.
   */
  lemma {:induction false} WaitingEnds(c: Conn, events: seq<Event>)
    requires Waiting(c) && forall i :: 0 <= i < |events| ==> Quiet(c, events[i])
    ensures CountTicks(events) < WaitLeft(c) ==>
      var c' := Final(c, events);
      Waiting(c') && c'.state == c.state && WaitLeft(c') == WaitLeft(c) - CountTicks(events)
    ensures CountTicks(events) == WaitLeft(c) && events[|events| - 1].TimerTick? ==> Final(c, events).Is(CLOSED)
  {
    hide Do;
    if events != [] {
      var front, last := events[..|events| - 1], events[|events| - 1];
      WaitingEnds(c, front);
      if CountTicks(front) < WaitLeft(c) {
        WaitingStep(Final(c, front), last);
      }
    }
  }

  /** The length of the wait: 120 ticks in a fresh TIME_WAIT, at most 256 in FIN_WAIT_2. */
  lemma WaitBounds(c: Conn)
    requires Waiting(c)
    ensures 1 <= WaitLeft(c) <= 256
    ensures c.timer == 0 ==> WaitLeft(c) == 120
  {
  }

  /** A FIN in FIN_WAIT_2 starts a fresh TIME_WAIT, unless the application stops the connection when it is told. */
  lemma FinStartsTimeWait(c: Conn, e: Event)
    requires c.Is(FIN_WAIT_2) && c.len == 0
    requires e.Arrives? && e.seg.fin && !e.seg.rst && !OutOfOrder(c, e.seg)
    ensures var c' := Do(c, e).x.conn;
      if StopBit(false, e.calls) then c'.stopped && c'.state == TIME_WAIT
      else c'.Is(TIME_WAIT) && Waiting(c') && WaitLeft(c') == 120
  {
  }

  // -------------------------------------------------------------- a lost slot

  /**
   * A late uip_stop has left the stop bit in a slot: no test of the engine takes
   * it for closed or for one in TIME_WAIT, so that no open can have it.
   */
  ghost predicate Lost(c: Conn) {
    c.stopped && (c.state == CLOSED || c.state == TIME_WAIT || c.state == CLOSING) && c.nrtx <= UIP_MAXRTX
  }

  /** That is all that a late uip_stop can do to a connection. */
  lemma LateStopLosesSlot(c: Conn, e: Event)
    requires ConnInv(c) && c.state != CLOSED
    ensures ConnInv(Do(c, e).x.conn) || Lost(Do(c, e).x.conn)
  {
    hide Tcp.InEstablished, CallAndSend, Add32, Backoff, Callback;
    match e {
      case Arrives(seg, rto, calls, slen, buf) => ReceiveKeepsIff(c, seg, rto, calls, slen, buf);
      case TimerTick(calls, buf) => TickKeepsIff(c, calls, buf);
      case Polled(calls, slen, buf) => PollKeeps(c, calls, slen, buf);
    }
  }

  /** The FIN of a connection in CLOSING is acknowledged. */
  predicate FinAcked(c: Conn, e: Event) {
    c.state == CLOSING && e.Arrives? && !e.seg.rst && !OutOfOrder(c, e.seg) && AcksOutstanding(c, e.seg)
  }

  predicate IsRst(e: Event) {
    e.Arrives? && e.seg.rst
  }

  /** The tick that gives a lost slot up, which only what is outstanding brings about. */
  predicate LastTick(c: Conn, e: Event) {
    e.TimerTick? && c.len > 0 && c.timer == 0 && c.nrtx == UIP_MAXRTX
  }

  /**
   * One event frees a lost slot if and only if it is a reset, or the tick that
   * gives it up, and the application does not stop it again. In CLOSING the
   * acknowledgment of the FIN still leads to a proper TIME_WAIT. Nothing else
   * takes the slot out of these states.
   */
  lemma LostSlotStep(c: Conn, e: Event)
    requires Lost(c)
    ensures var c' := Do(c, e).x.conn;
      && (c'.Is(CLOSED) <==> (IsRst(e) || LastTick(c, e)) && !StopBit(false, e.calls))
      && (FinAcked(c, e) ==> c'.Is(TIME_WAIT))
      && (!c'.Is(CLOSED) && !FinAcked(c, e) ==> Lost(c') && (c.len == 0 ==> c'.len == 0))
  {
    hide Add32, Callback, Backoff;
  }

  /** A reset that arrives in the course of the run frees the slot. */
  ghost predicate ResetFrees(events: seq<Event>) {
    exists i :: 0 <= i < |events| && IsRst(events[i]) && !StopBit(false, events[i].calls)
  }

  lemma ResetFreesSnoc(events: seq<Event>)
    requires events != []
    ensures var front, last := events[..|events| - 1], events[|events| - 1];
      ResetFrees(events) <==> ResetFrees(front) || (IsRst(last) && !StopBit(false, last.calls))
  {
    var front := events[..|events| - 1];
    assert forall i :: 0 <= i < |front| ==> front[i] == events[i];
    if ResetFrees(front) {
      var i :| 0 <= i < |front| && IsRst(front[i]) && !StopBit(false, front[i].calls);
      assert IsRst(events[i]);
    }
  }

  /**
   * A lost slot with nothing outstanding: no run of ticks, polls and segments
   * frees it at any point, unless a reset arrives that the application does not
   * answer with another uip_stop.
   */
  lemma {:induction false} LostSlotIsFreedIff(c: Conn, events: seq<Event>)
    requires Lost(c) && c.len == 0
    ensures (exists n :: 0 <= n <= |events| && Final(c, events[..n]).Is(CLOSED)) <==> ResetFrees(events)
    ensures !ResetFrees(events) ==> Lost(Final(c, events)) && Final(c, events).len == 0
  {
    hide Do;
    if events == [] {
      assert events[..0] == [];
    } else {
      var front, last := events[..|events| - 1], events[|events| - 1];
      LostSlotIsFreedIff(c, front);
      ResetFreesSnoc(events);
      assert forall n :: 0 <= n <= |front| ==> events[..n] == front[..n];
      assert events[..|events|] == events;
      if !ResetFrees(front) {
        LostSlotStep(Final(c, front), last);
      }
    }
  }

  /** The ticks until a lost slot with something outstanding is given up. */
  function LostLife(c: Conn): nat {
    TimeLeft(c.timer, c.nrtx, UIP_MAXRTX)
  }

  /** Of a slot with `n` ticks to live, the `k`-th tick gives it up; when it is stopped again it lives for 256 more. */
  predicate Due(n: nat, k: nat) {
    n <= k && (k - n) % 256 == 0
  }

  /** The ticks left after `k` of them. */
  function LifeAfter(n: nat, k: nat): nat {
    if k < n then n - k else 256 - (k - n) % 256
  }

  lemma LifeStep(n: nat, k: nat)
    requires n > 0
    ensures Due(n, k + 1) <==> LifeAfter(n, k) == 1
    ensures LifeAfter(n, k + 1) == if LifeAfter(n, k) == 1 then 256 else LifeAfter(n, k) - 1
  {
  }

  lemma LostSlotTick(c: Conn, calls: seq<AppCall>, buf: seq<byte>)
    requires Lost(c) && c.len > 0
    ensures var c' := Tick(c, calls, buf).x.conn;
      && (c'.Is(CLOSED) <==> LostLife(c) == 1 && !StopBit(false, calls))
      && (!c'.Is(CLOSED) ==>
            && Lost(c') && c'.len > 0
            && LostLife(c') == if LostLife(c) == 1 then 256 else LostLife(c) - 1)
  {
    hide Callback, CallAndSend, Retransmit, Backoff, StopBit;
    if c.timer == 0 && c.nrtx < UIP_MAXRTX {
      RetransmitConn(Local(c, NO_FLAGS, 0, buf), calls);
      assert LostLife(c) == 1 + TimeLeft(Backoff(c.nrtx), c.nrtx + 1, UIP_MAXRTX);
      hide LostLife;
    } else if c.timer == 0 {
      LastLife(255);
    }
  }

  lemma LastLife(timer: nat)
    ensures TimeLeft(timer, UIP_MAXRTX, UIP_MAXRTX) == timer + 1
  {
  }

  /** One of these ticks gives the slot up, and the application lets it go. */
  ghost predicate TickFrees(n: nat, callss: seq<seq<AppCall>>) {
    exists i :: 0 <= i < |callss| && Due(n, i + 1) && !StopBit(false, callss[i])
  }

  lemma TickFreesSnoc(n: nat, callss: seq<seq<AppCall>>)
    requires callss != []
    ensures var front, last := callss[..|callss| - 1], callss[|callss| - 1];
      TickFrees(n, callss) <==> TickFrees(n, front) || (Due(n, |callss|) && !StopBit(false, last))
  {
    hide Due, StopBit;
    var front := callss[..|callss| - 1];
    assert forall i :: 0 <= i < |front| ==> front[i] == callss[i];
    if TickFrees(n, front) {
      var i :| 0 <= i < |front| && Due(n, i + 1) && !StopBit(false, front[i]);
      assert Due(n, i + 1) && !StopBit(false, callss[i]);
    }
  }

  lemma ClosedTick(c: Conn, calls: seq<AppCall>, buf: seq<byte>)
    requires c.Is(CLOSED)
    ensures Tick(c, calls, buf).x.conn.Is(CLOSED)
  {
  }

  lemma LifeAtStart(c: Conn)
    ensures LifeAfter(LostLife(c), 0) == LostLife(c) > 0
  {
  }

  /**
   * A lost slot with something outstanding: the ticks free it when its
   * retransmissions are used up, or 256 ticks later, and so on, the first time
   * that the application does not answer with another uip_stop.
   */
  lemma {:induction false} TicksFreeLostSlotIff(c: Conn, callss: seq<seq<AppCall>>, buf: seq<byte>)
    requires Lost(c) && c.len > 0
    ensures var c' := Ticks(c, callss, buf);
      && (c'.Is(CLOSED) <==> TickFrees(LostLife(c), callss))
      && (!c'.Is(CLOSED) ==>
            && Lost(c') && c'.len > 0
            && LostLife(c') == LifeAfter(LostLife(c), |callss|))
  {
    hide Tick, LostLife, Due, LifeAfter;
    LifeAtStart(c);
    if callss != [] {
      var front, last := callss[..|callss| - 1], callss[|callss| - 1];
      TicksFreeLostSlotIff(c, front, buf);
      var before := Ticks(c, front, buf);
      LifeStep(LostLife(c), |front|);
      TickFreesSnoc(LostLife(c), callss);
      if before.Is(CLOSED) {
        ClosedTick(before, last, buf);
      } else {
        LostSlotTick(before, last, buf);
      }
    }
  }
}
