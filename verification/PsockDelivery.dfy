/**
 * Reliable sending from end to end: a protothread that sends one message after
 * the other with `psock_send`, on a connection of the TCP engine, over a
 * network that loses, repeats and reorders.
 */
module PsockDelivery {
  import opened Bytes
  import opened Common
  import opened SequenceNumbers
  import opened Tcp
  import opened TcpDelivery
  import opened TcpTiling
  import opened PsockSend

  // --------------------------------------------------------------- the stream

  /** Where message `k` starts. */
  function Start(msgs: seq<seq<byte>>, k: nat): nat
    requires k <= |msgs|
  {
    |Concat(msgs[..k])|
  }

  lemma StartNext(msgs: seq<seq<byte>>, k: nat)
    requires k < |msgs|
    ensures Start(msgs, k + 1) == Start(msgs, k) + |msgs[k]|
  {
    ConcatSnoc(msgs[..k], msgs[k]);
    assert msgs[..k + 1] == msgs[..k] + [msgs[k]];
  }

  lemma StartsAtZero(msgs: seq<seq<byte>>)
    ensures Start(msgs, 0) == 0
  {
  }

  /** Message `k` is that piece of the stream. */
  lemma {:induction false} MessageInStream(msgs: seq<seq<byte>>, k: nat)
    requires k < |msgs|
    ensures Start(msgs, k) + |msgs[k]| <= |Concat(msgs)|
    ensures Concat(msgs)[Start(msgs, k)..Start(msgs, k) + |msgs[k]|] == msgs[k]
  {
    var front, last := msgs[..|msgs| - 1], msgs[|msgs| - 1];
    assert front[..k] == msgs[..k] && msgs == front + [last];
    ConcatSnoc(front, last);
    if k < |front| {
      MessageInStream(front, k);
      assert front[k] == msgs[k];
    }
  }

  // --------------------------------------------------------------- the thread

  /** The sending protothread: the message it is at, and the state of `psock_send` on it. */
  datatype App = App(k: nat, s: Sender)

  ghost predicate Ready(app: App, msgs: seq<seq<byte>>) {
    && app.k <= |msgs|
    && (app.s == IDLE || (app.k < |msgs| && msgs[app.k] != [] && app.s == InFlight(msgs[app.k])))
  }

  /** The thread once message `k` is its next one: empty messages end at once. */
  function StartFrom(msgs: seq<seq<byte>>, k: nat): (app: App)
    requires k <= |msgs|
    ensures k <= app.k <= |msgs|
    decreases |msgs| - k
  {
    if k == |msgs| then App(k, IDLE)
    else if msgs[k] == [] then StartFrom(msgs, k + 1)
    else App(k, InFlight(msgs[k]))
  }

  /** The message that a thread starts to send when message `k` is its next one fits the segment size. */
  predicate StartFits(msgs: seq<seq<byte>>, k: nat, mss: nat)
    requires k <= |msgs|
  {
    var first := StartFrom(msgs, k);
    first.k < |msgs| ==> |msgs[first.k]| <= mss
  }

  /**
   * The segment size of this callback has room for a message that starts, is to
   * be retransmitted, or is acknowledged in it. In any other callback the thread
   * just waits.
   */
  ghost predicate Fits(app: App, msgs: seq<seq<byte>>, now: Now)
    requires Ready(app, msgs)
  {
    if app.s == IDLE then StartFits(msgs, app.k, now.mss)
    else
      && (now.acked || now.rexmit ==> |msgs[app.k]| <= now.mss)
      && (now.acked ==> StartFits(msgs, app.k + 1, now.mss))
  }

  /** One invocation of the thread: `psock_send` on one message after the other, until it waits. */
  function RunThread(app: App, msgs: seq<seq<byte>>, now: Now): (App, seq<AppCall>)
    requires Ready(app, msgs) && Fits(app, msgs, now)
    decreases |msgs| - app.k
  {
    if app.k == |msgs| then (app, [])
    else
      var (s, calls, ended) := Resume(app.s, msgs[app.k], now);
      if !ended then (App(app.k, s), calls)
      else
        var (later, more) := RunThread(App(app.k + 1, IDLE), msgs, now);
        (later, calls + more)
  }

  /** What is handed to uip_send when a thread arrives at `app`. */
  function FirstSend(app: App, msgs: seq<seq<byte>>): seq<AppCall>
    requires app.k <= |msgs|
  {
    if app.k == |msgs| then [] else [Send(msgs[app.k])]
  }

  lemma {:induction false} StartFromIs(msgs: seq<seq<byte>>, k: nat)
    requires k <= |msgs|
    ensures var app := StartFrom(msgs, k);
      && Ready(app, msgs) && k <= app.k && Start(msgs, app.k) == Start(msgs, k)
      && (app.k < |msgs| ==> app.s == InFlight(msgs[app.k]) && msgs[app.k] != []) && (app.k == |msgs| ==> app.s == IDLE)
    decreases |msgs| - k
  {
    if k < |msgs| && msgs[k] == [] {
      StartNext(msgs, k);
      StartFromIs(msgs, k + 1);
    }
  }

  lemma {:induction false} FreshThread(msgs: seq<seq<byte>>, k: nat, now: Now)
    requires k <= |msgs| && StartFits(msgs, k, now.mss)
    ensures var first := StartFrom(msgs, k);
      RunThread(App(k, IDLE), msgs, now) == (first, FirstSend(first, msgs))
    decreases |msgs| - k
  {
    StartFromIs(msgs, k);
    if k < |msgs| {
      if msgs[k] == [] {
        FreshThread(msgs, k + 1, now);
        StartFromIs(msgs, k + 1);
        var (_, more) := RunThread(App(k + 1, IDLE), msgs, now);
        assert [] + more == more;
      } else {
        Starts(msgs[k], now);
        FirstPartIsWhole(msgs[k], now.mss);
      }
    }
  }

  /** Without an acknowledgment, the message in flight is repeated exactly when the stack asks for a retransmission. */
  lemma ThreadWaits(msgs: seq<seq<byte>>, k: nat, now: Now)
    requires k < |msgs| && msgs[k] != [] && !now.acked && (now.rexmit ==> |msgs[k]| <= now.mss)
    ensures RunThread(App(k, InFlight(msgs[k])), msgs, now)
         == (App(k, InFlight(msgs[k])), if now.rexmit then [Send(msgs[k])] else [])
  {
    StaysInFlight(msgs[k], now);
    FirstPartIsWhole(msgs[k], now.mss);
  }

  /** On the acknowledgment, the call ends and the next message is sent in the same invocation. */
  lemma ThreadAdvances(msgs: seq<seq<byte>>, k: nat, now: Now)
    requires k < |msgs| && msgs[k] != [] && now.acked && |msgs[k]| <= now.mss && StartFits(msgs, k + 1, now.mss)
    ensures var next := StartFrom(msgs, k + 1);
      RunThread(App(k, InFlight(msgs[k])), msgs, now) == (next, [Send([])] + FirstSend(next, msgs))
  {
    AckEndsCall(msgs[k], now);
    AckLeavesIdle(msgs[k], now);
    StartFromIs(msgs, k + 1);
    FreshThread(msgs, k + 1, now);
  }

  // --------------------------------------------------------- thread and engine

  /** The connection with its history, and the thread. */
  datatype World = World(ledger: Ledger, app: App)

  /** The event, with these calls as the application's answer. */
  function Answered(e: Event, calls: seq<AppCall>): Event {
    match e
    case Arrives(seg, rto, _, slen, buf) => Arrives(seg, rto, calls, slen, buf)
    case TimerTick(_, buf) => TimerTick(calls, buf)
    case Polled(_, slen, buf) => Polled(calls, slen, buf)
  }

  /** What the callback shows when `e` happens; it does not depend on what the application then calls. */
  function Shows(w: World, e: Event): Outcome {
    Do(w.ledger.conn, Answered(e, []))
  }

  /** What the thread reads of the callback. */
  function Reads(out: Outcome): Now
    requires out.call.Some?
  {
    Now(out.call.value.ackdata, out.call.value.rexmit, out.x.conn.mss)
  }

  /** The callback, if there is one, has room for what the thread does in it. */
  ghost predicate Possible(w: World, msgs: seq<seq<byte>>, e: Event) {
    Ready(w.app, msgs) && (Shows(w, e).call.Some? ==> Fits(w.app, msgs, Reads(Shows(w, e))))
  }

  /** The thread's answer: it runs in every callback, and only there. */
  function Answer(w: World, msgs: seq<seq<byte>>, e: Event): (App, seq<AppCall>)
    requires Possible(w, msgs, e)
  {
    var shown := Shows(w, e);
    if shown.call.None? then (w.app, [])
    else RunThread(w.app, msgs, Reads(shown))
  }

  function Result(w: World, msgs: seq<seq<byte>>, e: Event): Outcome
    requires Possible(w, msgs, e)
  {
    Do(w.ledger.conn, Answered(e, Answer(w, msgs, e).1))
  }

  function Next(w: World, msgs: seq<seq<byte>>, e: Event): World
    requires Possible(w, msgs, e)
  {
    World(Record(w.ledger, Result(w, msgs, e)), Answer(w, msgs, e).0)
  }

  // --------------------------------------------------------------- invariant

  /** The buffer has its size, and a poll request finds no stale length in `uip_slen`. */
  ghost predicate Prepared(e: Event) {
    |e.buf| == UIP_TCP_MSS && (e.Polled? ==> e.slen == 0)
  }

  ghost predicate Sizes(c: Conn) {
    c.mss <= c.initialmss <= UIP_TCP_MSS && !c.stopped
  }

  /**
   * While the connection is open, the calls that have ended are exactly the
   * messages acknowledged, and the next one is in flight.
   */
  ghost predicate InStep(c: Conn, una: nat, app: App, msgs: seq<seq<byte>>)
    requires Ready(app, msgs)
  {
    && una == 1 + Start(msgs, app.k)
    && (if app.k < |msgs| then app.s == InFlight(msgs[app.k]) && c.len == |msgs[app.k]| <= UIP_TCP_MSS
        else c.len == 0)
  }

  ghost predicate Consistent(w: World, msgs: seq<seq<byte>>) {
    var c, una, app := w.ledger.conn, w.ledger.una, w.app;
    && Ready(app, msgs) && Sizes(c)
    && match c.state
       case SYN_SENT => una == 0 && c.len == 1 && app == App(0, IDLE)
       case SYN_RCVD => una == 0 && c.len == 1 && app == App(0, IDLE)
       case ESTABLISHED => InStep(c, una, app, msgs)
       case LAST_ACK => una == 1 + Start(msgs, app.k) && c.len == 1
       case CLOSED => Start(msgs, app.k) == 0 || 1 + Start(msgs, app.k) <= una
       case _ => false
  }

  /**
   * What a step may put on the line: the message in flight, whole; a SYN first;
   * a FIN behind the acknowledged messages.
   */
  ghost predicate SendsRightly(w: World, seg: Option<Segment>, msgs: seq<seq<byte>>)
    requires Ready(w.app, msgs)
  {
    seg.Some? && !seg.value.rst && seg.value.Span() > 0 ==>
      && seg.value.seqno == w.ledger.conn.sndNxt
      && (seg.value.syn ==> seg.value.data == [] && !seg.value.fin && w.ledger.una == 0)
      && (!seg.value.syn ==> w.ledger.una == 1 + Start(msgs, w.app.k))
      && (seg.value.syn ==> w.ledger.conn.state == SYN_SENT || w.ledger.conn.state == SYN_RCVD)
      && (seg.value.fin ==> seg.value.data == [] && w.ledger.conn.state == LAST_ACK)
      && (seg.value.data != [] ==>
            && w.app.k < |msgs| && seg.value.data == msgs[w.app.k] && |seg.value.data| <= UIP_TCP_MSS
            && w.ledger.conn.state == ESTABLISHED)
  }

  predicate IsReset(seg: Segment) {
    seg.rst && !seg.syn && !seg.fin && seg.data == []
  }

  /**
   * The thread never goes back. An open connection leaves for CLOSED, or for
   * LAST_ACK with nothing in flight; LAST_ACK leaves for CLOSED.
   */
  ghost predicate MovesOn(w: World, w': World, msgs: seq<seq<byte>>) {
    var s, s' := w.ledger.conn.state, w'.ledger.conn.state;
    && (s' != CLOSED ==> w.app.k <= w'.app.k)
    && (s == LAST_ACK && s' != CLOSED ==> s' == LAST_ACK && w'.app.k == w.app.k)
    && (s == ESTABLISHED ==> s' == ESTABLISHED || s' == LAST_ACK || s' == CLOSED)
    && (s == ESTABLISHED && s' == LAST_ACK && w.app.k < |msgs| ==> w.app.k < w'.app.k)
  }

  ghost predicate StepsRightly(w: World, msgs: seq<seq<byte>>, e: Event) {
    && Possible(w, msgs, e)
    && Consistent(Next(w, msgs, e), msgs)
    && SendsRightly(Next(w, msgs, e), Result(w, msgs, e).seg, msgs)
    && (Result(w, msgs, e).seg.Some? && Result(w, msgs, e).seg.value.rst ==> IsReset(Result(w, msgs, e).seg.value))
    && (w.ledger.conn.state == ESTABLISHED ==>
          w.app.k <= Next(w, msgs, e).app.k && (Next(w, msgs, e).app.k > w.app.k <==> Result(w, msgs, e).acked))
    && MovesOn(w, Next(w, msgs, e), msgs)
    && (w.ledger.conn.state != ESTABLISHED ==> Start(msgs, Next(w, msgs, e).app.k) == Start(msgs, w.app.k))
  }

  // ------------------------------------------------------------ the callback

  lemma CallbackSends(x: Local, msg: seq<byte>, more: seq<AppCall>)
    requires 0 < |msg| <= UIP_TCP_MSS
    ensures Callback(x, [Send(msg)]) == x.(slen := |msg|, buf := Overwrite(x.buf, msg))
    ensures Callback(x, [Send([])] + more) == Callback(x, more)
  {
    assert ([Send([])] + more)[1..] == more;
    assert [Send(msg)][1..] == [] && msg[..|msg|] == msg;
  }

  /** Nothing outstanding: the first message of `app` goes out whole, or there is none left. */
  lemma SendsNext(x: Local, app: App, msgs: seq<seq<byte>>, skip: bool, given: seq<byte>, acked: bool)
    requires x.conn.state == ESTABLISHED && x.slen == 0 && !x.flags.abort && !x.flags.close && |x.buf| == UIP_TCP_MSS
    requires Sizes(x.conn) && x.conn.len == 0 && app.k <= |msgs|
    requires app.k < |msgs| ==> 0 < |msgs[app.k]| <= x.conn.mss
    ensures var calls := if skip then [Send([])] + FirstSend(app, msgs) else FirstSend(app, msgs);
      var out := CallAndSend(x, calls, given, acked);
      if app.k < |msgs| then
        var c := x.conn.(len := |msgs[app.k]|, nrtx := 0);
        out.x.conn == c && out.seg == Some(Reply(c, false, false, false, true, true, msgs[app.k]))
      else
        var c := x.conn.(nrtx := 0);
        out.x.conn == c && out.seg == if x.flags.newdata then Some(AckReply(c)) else None
  {
    if app.k < |msgs| {
      CallbackSends(x, msgs[app.k], FirstSend(app, msgs));
      assert Overwrite(x.buf, msgs[app.k])[..|msgs[app.k]|] == msgs[app.k];
    } else {
      CallbackSends(x, [0], []);
    }
  }

  /** The thread has nothing to say. */
  lemma SendsNothing(x: Local, given: seq<byte>, acked: bool)
    requires x.conn.state == ESTABLISHED && x.slen == 0 && !x.flags.abort && !x.flags.close
    ensures var out := CallAndSend(x, [], given, acked);
      out.x.conn == x.conn.(nrtx := 0) && out.seg == if x.flags.newdata then Some(AckReply(out.x.conn)) else None
  {
  }

  lemma {:induction false} SendsDoNotStop(stopped: bool, calls: seq<AppCall>)
    requires forall i :: 0 <= i < |calls| ==> calls[i].Send?
    ensures StopBit(stopped, calls) == stopped
  {
    if calls != [] {
      SendsDoNotStop(stopped, calls[1..]);
    }
  }

  /** What one callback does to the thread. */
  lemma ThreadAnswers(app: App, msgs: seq<seq<byte>>, now: Now)
    requires Ready(app, msgs) && Fits(app, msgs, now)
    requires now.acked ==> app.k < |msgs| && app.s != IDLE
    ensures var (app', calls) := RunThread(app, msgs, now);
      && Ready(app', msgs)
      && (app.s == IDLE ==> app' == StartFrom(msgs, app.k) && calls == FirstSend(app', msgs))
      && (app.s != IDLE && !now.acked ==> app' == app && calls == if now.rexmit then [Send(msgs[app.k])] else [])
      && (now.acked ==> app' == StartFrom(msgs, app.k + 1) && calls == [Send([])] + FirstSend(app', msgs))
      && Start(msgs, app'.k) == Start(msgs, app.k) + (if now.acked then |msgs[app.k]| else 0)
      && (forall i :: 0 <= i < |calls| ==> calls[i].Send?)
      && app.k <= app'.k && (now.acked ==> app.k < app'.k) && (app.k == |msgs| ==> app'.k == app.k)
  {
    hide RunThread, StartFits;
    if app.s == IDLE {
      FreshThread(msgs, app.k, now);
      StartFromIs(msgs, app.k);
    } else if now.acked {
      ThreadAdvances(msgs, app.k, now);
      StartFromIs(msgs, app.k + 1);
      StartNext(msgs, app.k);
    } else {
      ThreadWaits(msgs, app.k, now);
    }
  }

  lemma CallAndSendShows(x: Local, calls: seq<AppCall>, given: seq<byte>, acked: bool)
    ensures CallAndSend(x, calls, given, acked).call == Some(x.flags)
    ensures CallAndSend(x, calls, given, acked).x.conn.mss == x.conn.mss
    ensures CallAndSend(x, calls, given, acked).acked == acked
  {
  }

  /** A connection that has just been opened: the first message goes out. */
  lemma ConnectedSends(x: Local, msgs: seq<seq<byte>>, given: seq<byte>, una: nat)
    requires x.conn.state == ESTABLISHED && x.slen == 0 && !x.flags.abort && !x.flags.close && |x.buf| == UIP_TCP_MSS
    requires Sizes(x.conn) && x.conn.len == 0 && una == 1 && !x.flags.ackdata
    requires StartFits(msgs, 0, x.conn.mss)
    ensures var now := Now(x.flags.ackdata, x.flags.rexmit, x.conn.mss);
      var (app, calls) := RunThread(App(0, IDLE), msgs, now);
      var out := CallAndSend(x, calls, given, true);
      && Ready(app, msgs) && Sizes(out.x.conn) && out.x.conn.state == ESTABLISHED && InStep(out.x.conn, una, app, msgs)
      && SendsRightly(World(Ledger(out.x.conn, una, []), app), out.seg, msgs)
      && (out.seg.Some? ==> !out.seg.value.rst)
  {
    var now := Now(x.flags.ackdata, x.flags.rexmit, x.conn.mss);
    ThreadAnswers(App(0, IDLE), msgs, now);
    StartFromIs(msgs, 0);
    SendsNext(x, StartFrom(msgs, 0), msgs, false, given, true);
  }

  /** An open connection is called with an acknowledgment or new data. */
  lemma OpenSends(x: Local, app: App, msgs: seq<seq<byte>>, given: seq<byte>, una: nat)
    requires x.conn.state == ESTABLISHED && x.slen == 0 && !x.flags.abort && !x.flags.close && |x.buf| == UIP_TCP_MSS
    requires Sizes(x.conn) && Ready(app, msgs) && !x.flags.rexmit
    requires Fits(app, msgs, Now(x.flags.ackdata, false, x.conn.mss))
    requires if x.flags.ackdata then app.k < |msgs| && una == 1 + Start(msgs, app.k) + |msgs[app.k]| && x.conn.len == 0
      && app.s == InFlight(msgs[app.k])
      else InStep(x.conn, una, app, msgs)
    ensures var now := Now(x.flags.ackdata, x.flags.rexmit, x.conn.mss);
      var (app', calls) := RunThread(app, msgs, now);
      var out := CallAndSend(x, calls, given, x.flags.ackdata);
      && Ready(app', msgs) && Sizes(out.x.conn)
      && out.x.conn.state == ESTABLISHED && InStep(out.x.conn, una, app', msgs)
      && SendsRightly(World(Ledger(out.x.conn, una, []), app'), out.seg, msgs)
      && (out.seg.Some? ==> !out.seg.value.rst)
      && app.k <= app'.k && (app.k < app'.k <==> x.flags.ackdata)
  {
    hide CallAndSend, RunThread, Start;
    var now := Now(x.flags.ackdata, x.flags.rexmit, x.conn.mss);
    ThreadAnswers(app, msgs, now);
    if x.flags.ackdata {
      StartFromIs(msgs, app.k + 1);
      SendsNext(x, StartFrom(msgs, app.k + 1), msgs, true, given, true);
    } else {
      StartFromIs(msgs, app.k);
      SendsNothing(x, given, false);
    }
  }

  // -------------------------------------------------------------------- steps

  /** The last timeout: the connection is closed, and the thread learns nothing of an acknowledgment. */
  lemma TimeOutSteps(w: World, msgs: seq<seq<byte>>, e: Event)
    requires e.TimerTick? && Consistent(w, msgs) && Prepared(e) && Possible(w, msgs, e)
    requires w.ledger.conn.state != CLOSED && w.ledger.conn.len > 0
    requires w.ledger.conn.timer == 0 && GivesUp(w.ledger.conn)
    ensures StepsRightly(w, msgs, e)
  {
    hide RunThread, Start, Fits, Callback, StopBit;
    ThreadAnswers(w.app, msgs, Now(false, false, w.ledger.conn.mss));
    StartFromIs(msgs, w.app.k);
    StartsAtZero(msgs);
    SendsDoNotStop(false, []);
    SendsDoNotStop(false, Answer(w, msgs, e).1);
  }

  /** The rexmit callback repeats the message in flight, whole. */
  lemma RexmitSends(x: Local, msg: seq<byte>)
    requires 0 < |msg| <= UIP_TCP_MSS && |x.buf| == UIP_TCP_MSS && x.conn.len == |msg| && !x.conn.stopped
    ensures var y := Callback(x, [Send(msg)]);
      y.conn == x.conn && Tcp.AppRexmit(y) == (y, Some(Reply(x.conn, false, false, false, true, true, msg)))
    ensures Tcp.AppRexmit(Callback(x, [])).0.conn == x.conn
  {
    CallbackSends(x, msg, []);
    assert Overwrite(x.buf, msg)[..|msg|] == msg;
  }

  lemma RexmitShows(x: Local, calls: seq<AppCall>)
    requires x.conn.state == ESTABLISHED
    ensures Retransmit(x, calls).call == Some(NO_FLAGS.(rexmit := true))
    ensures Retransmit(x, calls).x.conn.mss == x.conn.mss
  {
    hide Callback, Backoff;
  }

  /** A retransmission carries the message in flight again. */
  lemma RetransmitSteps(w: World, msgs: seq<seq<byte>>, e: Event)
    requires e.TimerTick? && Consistent(w, msgs) && Prepared(e) && Possible(w, msgs, e)
    requires w.ledger.conn.state != CLOSED && w.ledger.conn.len > 0
    requires w.ledger.conn.timer == 0 && !GivesUp(w.ledger.conn)
    ensures StepsRightly(w, msgs, e)
  {
    hide RunThread, Start, Callback, StopBit, Tcp.AppRexmit, Backoff;
    var c, app := w.ledger.conn, w.app;
    if c.state == ESTABLISHED {
      RexmitShows(Local(c, NO_FLAGS, 0, e.buf), []);
      ThreadAnswers(app, msgs, Now(false, true, c.mss));
      var again := c.(timer := Backoff(c.nrtx), nrtx := (c.nrtx + 1) % 256);
      RexmitSends(Local(again, NO_FLAGS.(rexmit := true), 0, e.buf), msgs[app.k]);
    }
  }

  lemma TickSteps(w: World, msgs: seq<seq<byte>>, e: Event)
    requires e.TimerTick? && Consistent(w, msgs) && Prepared(e) && Possible(w, msgs, e)
    ensures StepsRightly(w, msgs, e)
  {
    hide CallAndSend, RunThread, Start, Fits;
    var c := w.ledger.conn;
    if c.state == ESTABLISHED && c.len == 0 {
      var x := Local(c, NO_FLAGS.(poll := true), 0, e.buf);
      CallAndSendShows(x, [], [], false);
      OpenSends(x, w.app, msgs, [], w.ledger.una);
      CallAndSendShows(x, Answer(w, msgs, e).1, [], false);
    } else if c.state != CLOSED && c.len > 0 && c.timer == 0 {
      if GivesUp(c) {
        TimeOutSteps(w, msgs, e);
      } else {
        RetransmitSteps(w, msgs, e);
      }
    }
  }

  lemma PollSteps(w: World, msgs: seq<seq<byte>>, e: Event)
    requires e.Polled? && Consistent(w, msgs) && Prepared(e) && Possible(w, msgs, e)
    ensures StepsRightly(w, msgs, e)
  {
    hide CallAndSend, RunThread, Start, Fits;
    var c := w.ledger.conn;
    if c.state == ESTABLISHED && c.len == 0 {
      var x := Local(c, NO_FLAGS.(poll := true), 0, e.buf);
      CallAndSendShows(x, [], [], false);
      OpenSends(x, w.app, msgs, [], w.ledger.una);
      CallAndSendShows(x, Answer(w, msgs, e).1, [], false);
    }
  }

  /** A reset, or an answer to the active open that is not a SYNACK: closed, with no acknowledgment shown. */
  lemma AbortSteps(w: World, msgs: seq<seq<byte>>, e: Event)
    requires e.Arrives? && Consistent(w, msgs) && Prepared(e) && Possible(w, msgs, e)
    requires e.seg.rst
    ensures StepsRightly(w, msgs, e)
  {
    hide RunThread, Start, Fits, Callback, StopBit;
    ThreadAnswers(w.app, msgs, Now(false, false, w.ledger.conn.mss));
    StartFromIs(msgs, w.app.k);
    StartsAtZero(msgs);
    SendsDoNotStop(false, []);
    SendsDoNotStop(false, Answer(w, msgs, e).1);
  }

  /** The connection after the acknowledgment has been taken into account. */
  function Taken(w: World, e: Event): Local
    requires e.Arrives?
  {
    AfterAck(Local(w.ledger.conn, NO_FLAGS, e.slen, e.buf), AcksOutstanding(w.ledger.conn, e.seg), e.rto)
  }

  lemma SynRcvdSteps(w: World, msgs: seq<seq<byte>>, e: Event)
    requires e.Arrives? && Consistent(w, msgs) && Prepared(e) && Possible(w, msgs, e)
    requires !e.seg.rst && !OutOfOrder(w.ledger.conn, e.seg) && w.ledger.conn.state == SYN_RCVD
    ensures StepsRightly(w, msgs, e)
  {
    hide CallAndSend, RunThread, Start, StartFits, Add32;
    var acked := AcksOutstanding(w.ledger.conn, e.seg);
    if acked {
      var x := PassiveConnected(Taken(w, e), e.seg);
      CallAndSendShows(x, [], e.seg.data, true);
      ConnectedSends(x, msgs, e.seg.data, 1);
      StartsAtZero(msgs);
      CallAndSendShows(x, Answer(w, msgs, e).1, e.seg.data, true);
    }
  }

  lemma SynSentSteps(w: World, msgs: seq<seq<byte>>, e: Event)
    requires e.Arrives? && Consistent(w, msgs) && Prepared(e) && Possible(w, msgs, e)
    requires !e.seg.rst && !OutOfOrder(w.ledger.conn, e.seg) && w.ledger.conn.state == SYN_SENT
    ensures StepsRightly(w, msgs, e)
  {
    hide CallAndSend, RunThread, Start, Add32, Callback, StopBit;
    if AcksOutstanding(w.ledger.conn, e.seg) && e.seg.IsSynAck() {
      var x := ActiveConnected(Taken(w, e), e.seg);
      CallAndSendShows(x, [], [], true);
      ConnectedSends(x, msgs, [], 1);
      StartsAtZero(msgs);
      CallAndSendShows(x, Answer(w, msgs, e).1, [], true);
    } else {
      RefusedSteps(w, msgs, e);
    }
  }

  /** The active open is answered by something else than its SYNACK. */
  lemma RefusedSteps(w: World, msgs: seq<seq<byte>>, e: Event)
    requires e.Arrives? && Consistent(w, msgs) && Prepared(e) && Possible(w, msgs, e)
    requires !e.seg.rst && !OutOfOrder(w.ledger.conn, e.seg) && w.ledger.conn.state == SYN_SENT
    requires !(AcksOutstanding(w.ledger.conn, e.seg) && e.seg.IsSynAck())
    ensures StepsRightly(w, msgs, e)
  {
    hide CallAndSend, RunThread, Start, Fits, Add32, Callback, StopBit, Increment;
    ThreadAnswers(w.app, msgs, Now(false, false, w.ledger.conn.mss));
    StartFromIs(msgs, 0);
    StartsAtZero(msgs);
    SendsDoNotStop(false, []);
    SendsDoNotStop(false, Answer(w, msgs, e).1);
  }

  /** The peer's FIN: everything sent before has been acknowledged, and what the thread sends now is not transmitted. */
  lemma FinSteps(w: World, msgs: seq<seq<byte>>, e: Event)
    requires e.Arrives? && Consistent(w, msgs) && Prepared(e) && Possible(w, msgs, e)
    requires !e.seg.rst && !OutOfOrder(w.ledger.conn, e.seg) && w.ledger.conn.state == ESTABLISHED && e.seg.fin
    ensures StepsRightly(w, msgs, e)
  {
    hide RunThread, Start, Fits, Add32, Callback, StopBit;
    var c, app, acked := w.ledger.conn, w.app, AcksOutstanding(w.ledger.conn, e.seg);
    if acked || c.len == 0 {
      ThreadAnswers(app, msgs, Now(acked, false, c.mss));
      StartFromIs(msgs, app.k);
      SendsDoNotStop(false, []);
      SendsDoNotStop(false, Answer(w, msgs, e).1);
    }
  }

  /** Data, an acknowledgment, or neither, without a FIN. */
  lemma OpenSteps(w: World, msgs: seq<seq<byte>>, e: Event)
    requires e.Arrives? && Consistent(w, msgs) && Prepared(e) && Possible(w, msgs, e)
    requires !e.seg.rst && !OutOfOrder(w.ledger.conn, e.seg) && w.ledger.conn.state == ESTABLISHED && !e.seg.fin
    ensures StepsRightly(w, msgs, e)
  {
    hide CallAndSend, RunThread, Start, Add32;
    var y := TakeData(Taken(w, e), e.seg);
    var given := if y.flags.newdata then e.seg.data else [];
    if y.flags.newdata || y.flags.ackdata {
      var x := y.(slen := 0);
      CallAndSendShows(x, [], given, y.flags.ackdata);
      OpenSends(x, w.app, msgs, given, w.ledger.una + if y.flags.ackdata then w.ledger.conn.len else 0);
      CallAndSendShows(x, Answer(w, msgs, e).1, given, y.flags.ackdata);
    }
  }

  lemma LastAckSteps(w: World, msgs: seq<seq<byte>>, e: Event)
    requires e.Arrives? && Consistent(w, msgs) && Prepared(e) && Possible(w, msgs, e)
    requires !e.seg.rst && !OutOfOrder(w.ledger.conn, e.seg) && w.ledger.conn.state == LAST_ACK
    ensures StepsRightly(w, msgs, e)
  {
    hide RunThread, Start, Fits, Add32, Callback, StopBit;
    if AcksOutstanding(w.ledger.conn, e.seg) {
      ThreadAnswers(w.app, msgs, Now(false, false, w.ledger.conn.mss));
      StartFromIs(msgs, w.app.k);
      SendsDoNotStop(false, []);
      SendsDoNotStop(false, Answer(w, msgs, e).1);
    }
  }

  /** Every event. */
  lemma EveryEventSteps(w: World, msgs: seq<seq<byte>>, e: Event)
    requires Consistent(w, msgs) && Prepared(e) && Possible(w, msgs, e)
    ensures StepsRightly(w, msgs, e)
  {
    match e {
      case TimerTick(_, _) => TickSteps(w, msgs, e);
      case Polled(_, _, _) => PollSteps(w, msgs, e);
      case Arrives(seg, _, _, _, _) =>
        if seg.rst {
          AbortSteps(w, msgs, e);
        } else if !OutOfOrder(w.ledger.conn, seg) {
          match w.ledger.conn.state {
            case SYN_SENT => SynSentSteps(w, msgs, e);
            case SYN_RCVD => SynRcvdSteps(w, msgs, e);
            case LAST_ACK => LastAckSteps(w, msgs, e);
            case ESTABLISHED =>
              if seg.fin {
                FinSteps(w, msgs, e);
              } else {
                OpenSteps(w, msgs, e);
              }
            case _ =>
          }
        }
    }
  }

  lemma AckMatches(l: Ledger, seg: Segment, iss: nat)
    requires Counts(l, iss) && l.conn.len > 0
    ensures AcksOutstanding(l.conn, seg) <==> seg.ack && seg.ackno.Value() == (iss + l.una + l.conn.len) % TWO_32
  {
    hide Add32;
    var next := Add32(l.conn.sndNxt, l.conn.len);
    Add32IsModular(l.conn.sndNxt, l.conn.len);
    AddTwice(iss + l.una, l.conn.len);
    if seg.ackno.Value() == next.Value() {
      ValueIsInjective(seg.ackno, next);
    }
  }

  /**
   * The call of `psock_send` on a message ends in exactly one way: when the
   * peer's acknowledgment of exactly that message arrives.
   */
  lemma CallEndsIffAcknowledged(w: World, msgs: seq<seq<byte>>, e: Event, iss: nat)
    requires Consistent(w, msgs) && Prepared(e) && Possible(w, msgs, e) && Counts(w.ledger, iss)
    requires w.ledger.conn.state == ESTABLISHED && w.app.k < |msgs|
    ensures Next(w, msgs, e).app.k > w.app.k <==>
      e.Arrives? && !e.seg.rst && !OutOfOrder(w.ledger.conn, e.seg) && e.seg.ack
        && e.seg.ackno.Value() == (iss + 1 + Start(msgs, w.app.k + 1)) % TWO_32
  {
    hide Start, Do, Shows, AcksOutstanding, OutOfOrder, SendsRightly, Counts, Fits, Prepared, RunThread, Possible;
    EveryEventSteps(w, msgs, e);
    StartNext(msgs, w.app.k);
    AckedIff(w.ledger.conn, Answered(e, Answer(w, msgs, e).1));
    if e.Arrives? {
      AckMatches(w.ledger, e.seg, iss);
    }
  }

  lemma AckedIff(c: Conn, e: Event)
    requires c.state == ESTABLISHED
    ensures Do(c, e).acked <==> e.Arrives? && !e.seg.rst && !OutOfOrder(c, e.seg) && AcksOutstanding(c, e.seg)
  {
    hide CallAndSend;
    match e {
      case Arrives(seg, rto, calls, slen, buf) =>
        var y := TakeData(AfterAck(Local(c, NO_FLAGS, slen, buf), AcksOutstanding(c, seg), rto), seg);
        CallAndSendShows(y.(slen := 0), calls, if y.flags.newdata then seg.data else [], AcksOutstanding(c, seg));
      case TimerTick(calls, buf) => CallAndSendShows(Local(c, NO_FLAGS.(poll := true), 0, buf), calls, [], false);
      case Polled(calls, slen, buf) => CallAndSendShows(Local(c, NO_FLAGS.(poll := true), slen, buf), calls, [], false);
    }
  }

  // --------------------------------------------------------------------- runs

  /** A run of the connection and the thread, with every segment it puts on the line. */
  ghost predicate Run(w: World, msgs: seq<seq<byte>>, events: seq<Event>, sent: seq<Segment>, w': World)
    decreases |events|
  {
    if events == [] then sent == [] && w' == w
    else
      && Prepared(events[0]) && Possible(w, msgs, events[0])
      && var seg := Result(w, msgs, events[0]).seg;
         if seg.None? then Run(Next(w, msgs, events[0]), msgs, events[1..], sent, w')
         else sent != [] && sent[0] == seg.value && Run(Next(w, msgs, events[0]), msgs, events[1..], sent[1..], w')
  }

  /** The stream of the first `n` messages. */
  ghost function Sofar(msgs: seq<seq<byte>>, n: nat): seq<byte>
    requires n <= |msgs|
  {
    Concat(msgs[..n])
  }

  lemma {:induction false} SofarGrows(msgs: seq<seq<byte>>, m: nat, n: nat)
    requires m <= n <= |msgs|
    ensures Sofar(msgs, m) <= Sofar(msgs, n)
  {
    if m < n {
      SofarGrows(msgs, m, n - 1);
      ConcatSnoc(msgs[..n - 1], msgs[n - 1]);
      assert msgs[..n] == msgs[..n - 1] + [msgs[n - 1]];
    }
  }

  /** All of these may come from a peer with that stream. */
  ghost predicate AllFrom(sent: seq<Segment>, iss: nat, stream: seq<byte>) {
    forall i :: 0 <= i < |sent| ==> FromPeer(sent[i], iss, stream)
  }

  lemma AllFromCons(sent: seq<Segment>, iss: nat, stream: seq<byte>)
    requires sent != [] && FromPeer(sent[0], iss, stream) && AllFrom(sent[1..], iss, stream)
    ensures AllFrom(sent, iss, stream)
  {
    assert sent == [sent[0]] + sent[1..];
  }

  /** A segment of one step: its data is message `k`, and a FIN stands behind the first `k` messages. */
  lemma StepCarries(w: World, seg: Segment, iss: nat, msgs: seq<seq<byte>>, n: nat)
    requires Ready(w.app, msgs) && Counts(w.ledger, iss) && iss < TWO_32 && n <= |msgs|
    requires SendsRightly(w, Some(seg), msgs) && (seg.rst ==> IsReset(seg))
    requires w.ledger.conn.state == ESTABLISHED && w.app.k < |msgs| ==> w.app.k < n
    requires w.ledger.conn.state == LAST_ACK ==> n == w.app.k
    ensures FromPeer(seg, iss, Sofar(msgs, n))
  {
    hide Concat;
    var k := w.app.k;
    if !seg.rst && seg.Span() > 0 && !seg.syn {
      if seg.data != [] {
        assert msgs[..n][k] == msgs[k] && msgs[..n][..k] == msgs[..k];
        MessageInStream(msgs[..n], k);
      }
      assert Carries(seg, iss, Sofar(msgs, n), Start(msgs, k));
    }
  }

  /** Only pure ACKs and resets leave a closed connection. */
  lemma {:induction false} ClosedRunIsEmpty(w: World, msgs: seq<seq<byte>>, events: seq<Event>,
                                            sent: seq<Segment>, w': World, iss: nat, stream: seq<byte>)
    requires Consistent(w, msgs) && w.ledger.conn.state == CLOSED && Run(w, msgs, events, sent, w')
    ensures AllFrom(sent, iss, stream) && Consistent(w', msgs) && w'.ledger.conn.state == CLOSED
    decreases |events|
  {
    hide Consistent, Result, Next, Prepared, Fits, Possible, AllFrom;
    if events == [] {
      NothingSent(iss, stream);
    } else {
      var e, next := events[0], Next(w, msgs, events[0]);
      EveryEventSteps(w, msgs, e);
      ClosedStaysClosed(w, msgs, e);
      var seg := Result(w, msgs, e).seg;
      if seg.None? {
        ClosedRunIsEmpty(next, msgs, events[1..], sent, w', iss, stream);
      } else {
        ClosedRunIsEmpty(next, msgs, events[1..], sent[1..], w', iss, stream);
        AllFromCons(sent, iss, stream);
      }
    }
  }

  lemma NothingSent(iss: nat, stream: seq<byte>)
    ensures AllFrom([], iss, stream)
  {
  }

  lemma ClosedStaysClosed(w: World, msgs: seq<seq<byte>>, e: Event)
    requires Possible(w, msgs, e) && w.ledger.conn.state == CLOSED
    ensures Next(w, msgs, e).ledger.conn.state == CLOSED
  {
    hide Do, Possible;
    EveryStepSends(w.ledger.conn, Answered(e, Answer(w, msgs, e).1));
  }

  /** How many of the messages are put on the line in a run. */
  ghost function Put(w: World, msgs: seq<seq<byte>>, events: seq<Event>): nat
    decreases |events|
  {
    if events != [] && Possible(w, msgs, events[0]) && Next(w, msgs, events[0]).ledger.conn.state != CLOSED then
      Put(Next(w, msgs, events[0]), msgs, events[1..])
    else if w.ledger.conn.state == ESTABLISHED && w.app.k < |msgs| then w.app.k + 1
    else w.app.k
  }

  /**
   * Over every run, with any mix of loss, retransmission, polls and incoming
   * data: every segment carries the bytes that the concatenation of the
   * messages has at its sequence number, so a retransmission repeats the same
   * bytes; a FIN stands behind the last of them; and the calls that have ended
   * are those whose messages have been acknowledged in full.
   */
  lemma {:induction false} PsockSendIsReliable(w: World, msgs: seq<seq<byte>>, events: seq<Event>,
                                               sent: seq<Segment>, w': World, iss: nat)
    requires Consistent(w, msgs) && Counts(w.ledger, iss) && iss < TWO_32
    requires Run(w, msgs, events, sent, w')
    ensures Consistent(w', msgs) && Counts(w'.ledger, iss)
    ensures w.app.k <= Put(w, msgs, events) <= |msgs| && AllFrom(sent, iss, Sofar(msgs, Put(w, msgs, events)))
    ensures w.ledger.conn.state == ESTABLISHED && w.app.k < |msgs| ==> w.app.k < Put(w, msgs, events)
    ensures w.ledger.conn.state == LAST_ACK ==> Put(w, msgs, events) == w.app.k
    decreases |events|
  {
    hide Counts, Result, Next, SendsRightly, Prepared, Fits, Possible, AllFrom, FromPeer, InStep;
    var n := Put(w, msgs, events);
    if events == [] {
      NothingSent(iss, Sofar(msgs, n));
    } else {
      var e, next := events[0], Next(w, msgs, events[0]);
      EveryEventSteps(w, msgs, e);
      NextCounts(w, msgs, e, iss);
      var seg := Result(w, msgs, e).seg;
      var rest := if seg.None? then sent else sent[1..];
      if next.ledger.conn.state == CLOSED {
        ClosedRunIsEmpty(next, msgs, events[1..], rest, w', iss, Sofar(msgs, n));
        FinalCounts(w, msgs, events, sent, w', iss);
      } else {
        PsockSendIsReliable(next, msgs, events[1..], rest, w', iss);
      }
      if seg.Some? {
        StepCarries(next, seg.value, iss, msgs, n);
        AllFromCons(sent, iss, Sofar(msgs, n));
      }
    }
  }

  lemma NextCounts(w: World, msgs: seq<seq<byte>>, e: Event, iss: nat)
    requires Possible(w, msgs, e) && Counts(w.ledger, iss)
    ensures Counts(Next(w, msgs, e).ledger, iss)
  {
    hide Do, Counts;
    StepCounts(w.ledger, Answered(e, Answer(w, msgs, e).1), iss);
  }

  lemma {:induction false} FinalCounts(w: World, msgs: seq<seq<byte>>, events: seq<Event>,
                                       sent: seq<Segment>, w': World, iss: nat)
    requires Counts(w.ledger, iss) && Run(w, msgs, events, sent, w')
    ensures Counts(w'.ledger, iss)
    decreases |events|
  {
    hide Counts, Result, Next, Prepared, Possible;
    if events != [] {
      NextCounts(w, msgs, events[0], iss);
      var seg := Result(w, msgs, events[0]).seg;
      FinalCounts(Next(w, msgs, events[0]), msgs, events[1..], if seg.None? then sent else sent[1..], w', iss);
    }
  }

  /** How a run begins: a connection just opened by either side, and a thread that has not run. */
  lemma OpenIsConsistent(c: Conn, iss: Seq4, syn: Segment, lport: uint16, rport: uint16, ripaddr: Addr,
                         msgs: seq<seq<byte>>)
    ensures Consistent(World(Ledger(ActiveOpen(c, iss, lport, rport, ripaddr), 0, [Range(0, 1)]), App(0, IDLE)), msgs)
    ensures var p := PassiveOpen(c, iss, syn, lport, rport, ripaddr);
      p.mss <= p.initialmss <= UIP_TCP_MSS <==> Consistent(World(Ledger(p, 0, [Range(0, 1)]), App(0, IDLE)), msgs)
  {
  }

  /** A connection that has received nothing is in step with any stream. */
  lemma FreshPeer(peer: Track, irs: nat, stream: seq<byte>)
    requires Synced(peer, irs, []) && peer.given == [] && peer.accepted == 0 && peer.fins == 0
    ensures Synced(peer, irs, stream)
  {
  }

  /**
   * End to end: when the peer runs the same engine, and the network delivers
   * any of the segments sent, any number of times and in any order, what the
   * peer's application receives is a prefix of the messages in call order, and
   * a FIN that the peer takes ends a whole number of messages.
   */
  lemma MessagesReachPeer(w: World, msgs: seq<seq<byte>>, events: seq<Event>, sent: seq<Segment>, w': World, iss: nat,
                          peer: Track, arrivals: seq<Event>)
    requires Consistent(w, msgs) && Counts(w.ledger, iss) && iss < TWO_32
    requires Run(w, msgs, events, sent, w')
    requires |Concat(msgs)| < MAX_STREAM
    requires Synced(peer, iss, []) && peer.given == [] && peer.accepted == 0 && peer.fins == 0
    requires forall i :: 0 <= i < |arrivals| && arrivals[i].Arrives? ==> arrivals[i].seg in sent
    ensures var t := Play(peer, arrivals);
      && t.given <= Concat(msgs)
      && (t.conn.state != CLOSED && t.fins > 0 ==> exists n :: 0 <= n <= |msgs| && t.accepted == Start(msgs, n))
  {
    hide Consistent, Counts, Run, Concat, FromPeer, Do;
    PsockSendIsReliable(w, msgs, events, sent, w', iss);
    var n := Put(w, msgs, events);
    SofarGrows(msgs, n, |msgs|);
    assert msgs[..|msgs|] == msgs;
    FreshPeer(peer, iss, Sofar(msgs, n));
    InOrderDelivery(peer, arrivals, iss, Sofar(msgs, n));
    assert |Sofar(msgs, n)| == Start(msgs, n);
  }

  // ------------------------------------------- messages that do not fit throughout

  /** What is put in flight at the start of a call: as much of the message as fits the segment size. */
  lemma StartPutsInFlight(x: Local, msg: seq<byte>, given: seq<byte>, acked: bool)
    requires x.conn.state == ESTABLISHED && x.slen == 0 && !x.flags.abort && !x.flags.close && |x.buf| == UIP_TCP_MSS
    requires x.conn.len == 0 && 0 < x.conn.mss <= UIP_TCP_MSS && msg != []
    ensures var now := Now(x.flags.ackdata, x.flags.rexmit, x.conn.mss);
      var out := CallAndSend(x, Resume(IDLE, msg, now).1, given, acked);
      && out.x.conn.len == Min(|msg|, x.conn.mss)
      && out.seg.Some? && out.seg.value.data == FirstPart(msg, x.conn.mss)
  {
    hide Resume;
    var part := FirstPart(msg, x.conn.mss);
    Starts(msg, Now(x.flags.ackdata, x.flags.rexmit, x.conn.mss));
    CallbackSends(x, part, []);
    assert Overwrite(x.buf, part)[..|part|] == part;
  }

  lemma Overwritten(buf: seq<byte>, part: seq<byte>, n: nat)
    requires |part| <= n <= |buf|
    ensures Overwrite(buf, part)[..n] == part + buf[|part|..n]
    ensures |part| == n ==> Overwrite(buf, part)[..n] == part
  {
  }

  /**
   * What a retransmission carries when a whole message is in flight: the
   * message, or, when the segment size has shrunk below it, the part that fits
   * and then whatever an earlier packet left in the buffer.
   */
  lemma RetransmissionCarries(x: Local, msg: seq<byte>, now: Now)
    requires 0 < |msg| <= UIP_TCP_MSS && |x.buf| == UIP_TCP_MSS && x.conn.len == |msg| && 0 < x.conn.mss
    requires now == Now(false, true, x.conn.mss)
    ensures var (_, seg) := Tcp.AppRexmit(Callback(x, Resume(InFlight(msg), msg, now).1));
      seg.Some? && seg.value.data == if |msg| <= x.conn.mss then msg else msg[..x.conn.mss] + x.buf[x.conn.mss..|msg|]
  {
    hide Resume, Overwrite, Callback, FirstPart;
    var part := FirstPart(msg, x.conn.mss);
    StaysInFlight(msg, now);
    PartOf(msg, x.conn.mss);
    CallbackSends(x, part, []);
    Overwritten(x.buf, part, |msg|);
  }

  lemma PartOf(msg: seq<byte>, mss: nat)
    ensures FirstPart(msg, mss) == if |msg| <= mss then msg else msg[..mss]
  {
  }

  /** In the engine: a call whose first part alone was sent ends when that part is acknowledged with a larger window. */
  lemma PartialCallEnds(w: World, msgs: seq<seq<byte>>, e: Event)
    requires w.app.k < |msgs| && w.app == App(w.app.k, InFlight(msgs[w.app.k]))
    requires w.ledger.conn.state == ESTABLISHED && !w.ledger.conn.stopped && 0 < w.ledger.conn.len < |msgs[w.app.k]|
    requires e.Arrives? && !e.seg.rst && !e.seg.fin && !OutOfOrder(w.ledger.conn, e.seg)
    requires AcksOutstanding(w.ledger.conn, e.seg)
    requires Fits(w.app, msgs, Now(true, false, WithWindow(w.ledger.conn, e.seg.wnd).mss))
    ensures Possible(w, msgs, e)
    ensures Next(w, msgs, e).app.k > w.app.k && Next(w, msgs, e).ledger.una == w.ledger.una + w.ledger.conn.len
  {
    hide CallAndSend, RunThread, Start, Add32, OutOfOrder;
    var y := TakeData(Taken(w, e), e.seg);
    var x, given := y.(slen := 0), if y.flags.newdata then e.seg.data else [];
    CallAndSendShows(x, [], given, true);
    ThreadAnswers(w.app, msgs, Now(true, false, x.conn.mss));
    CallAndSendShows(x, Answer(w, msgs, e).1, given, true);
  }

  /** A connection without a segment size is never told of an acknowledgment, so the waiting loop always ends. */
  lemma MuteNeverAcknowledges(c: Conn, e: Event)
    requires Mute(c)
    ensures Do(c, e).call.Some? ==> !Do(c, e).call.value.ackdata
  {
    hide Callback, Add32;
  }

  /**
   * A poll request with a length left over from an earlier invocation sends that
   * many bytes although the application is silent.
   */
  lemma PollSendsStaleLength(c: Conn, slen: uint16, buf: seq<byte>)
    requires c.state == ESTABLISHED && c.len == 0 && 0 < c.mss <= |buf|
    ensures PollRequest(c, [], slen, buf).seg.Some? <==> slen > 0
    ensures slen > 0 ==> PollRequest(c, [], slen, buf).seg.value.data == buf[..Min(slen, c.mss)]
  {
  }
}
