/**
 * `uip_process` and `uip_connect` as the code has them: global variables
 * updated in place, one label after the other. Each method is proved to be the
 * corresponding step of the TcpSystem module.
 */
module UipStack {
  import opened Bytes
  import opened Common
  import opened SequenceNumbers
  import opened Tcp
  import opened TcpSystem

  lemma RetransmitSetsTimer(x: Local, timer: byte, calls: seq<AppCall>)
    ensures Retransmit(x.(conn := x.conn.(timer := timer)), calls) == Retransmit(x, calls)
    ensures TimeOut(x.(conn := x.conn.(timer := timer)), calls) == TimeOut(x, calls)
  {
  }

  class Uip {
    const conns: array<Conn>          // uip_conns; a pointer into it is an index
    const listenports: array<uint16>
    var iss: Seq4
    var lastport: uint16
    var flags: Flags                  // uip_flags
    var slen: uint16                  // uip_slen
    var buf: seq<byte>                // the packet buffer from uip_appdata on
    ghost var told: seq<(Flags, seq<byte>)> // the calls of the application: flags and new data

    ghost predicate Valid()
      reads this
    {
      conns.Length == UIP_CONNS && listenports.Length == UIP_LISTENPORTS && |buf| == UIP_TCP_MSS && lastport < END_PORT
    }

    ghost function View(): Sys
      reads this, conns, listenports
    {
      Sys(conns[..], listenports[..], iss, lastport, slen, buf)
    }

    /** What an invocation for slot `i` works on. */
    ghost function At(i: nat): Local
      reads this, conns
      requires i < conns.Length
    {
      Local(conns[i], flags, slen, buf)
    }

    /** The entry of the application's log for an outcome. */
    ghost function Said(out: Outcome): seq<(Flags, seq<byte>)> {
      match out.call
      case None => []
      case Some(f) => [(f, out.given)]
    }

    /** UIP_APPCALL(), with the calls the application makes in it. */
    method AppCall(i: nat, calls: seq<AppCall>, ghost given: seq<byte>)
      requires i < conns.Length
      modifies this`flags, this`slen, this`buf, this`told, conns
      ensures At(i) == Callback(old(At(i)), calls)
      ensures conns[..] == old(conns[..])[i := conns[i]]
      ensures told == old(told) + [(old(flags), given)]
    {
      told := told + [(flags, given)];
      for k := 0 to |calls|
        invariant Callback(At(i), calls[k..]) == Callback(old(At(i)), calls)
        invariant conns[..] == old(conns[..])[i := conns[i]]
        invariant told == old(told) + [(old(flags), given)]
      {
        assert calls[k..][0] == calls[k] && calls[k..][1..] == calls[k + 1..];
        match calls[k] {
          case Send(data) =>
            if |data| > 0 {
              slen := |data| % 0x1_0000;
              buf := Overwrite(buf, data[..slen]);
            }
          case Close => flags := NO_FLAGS.(close := true);
          case Abort => flags := NO_FLAGS.(abort := true);
          case Stop => conns[i] := conns[i].(stopped := true);
          case Restart =>
            flags := flags.(newdata := true);
            conns[i] := conns[i].(stopped := false);
        }
      }
      assert calls[|calls|..] == [];
    }

    /** Label `apprexmit`. */
    method AppRexmit(i: nat) returns (reply: Option<Segment>)
      requires i < conns.Length
      ensures (At(i), reply) == Tcp.AppRexmit(At(i))
    {
      if slen > 0 && conns[i].len > 0 {
        return Some(Reply(conns[i], false, false, false, true, true, Payload(buf, conns[i].len)));
      }
      if flags.newdata {
        return Some(AckReply(conns[i]));
      }
      reply := None;
    }

    /** Label `appsend`. */
    method AppSend(i: nat) returns (reply: Option<Segment>)
      requires i < conns.Length
      modifies this`slen, conns
      ensures (At(i), reply) == Tcp.AppSend(old(At(i)))
      ensures conns[..] == old(conns[..])[i := conns[i]]
    {
      if flags.abort {
        slen := 0;
        conns[i] := conns[i].To(CLOSED);
        return Some(RstAckReply(conns[i]));
      }
      if flags.close {
        slen := 0;
        conns[i] := conns[i].(len := 1);
        conns[i] := conns[i].To(FIN_WAIT_1);
        conns[i] := conns[i].(nrtx := 0);
        return Some(FinAckReply(conns[i]));
      }
      if slen > 0 {
        if flags.ackdata {
          conns[i] := conns[i].(len := 0);
        }
        if conns[i].len == 0 {
          if slen > conns[i].mss {
            slen := conns[i].mss;
          }
          conns[i] := conns[i].(len := slen);
        } else {
          slen := conns[i].len;
        }
      }
      conns[i] := conns[i].(nrtx := 0);
      reply := AppRexmit(i);
    }

    /** A call of the application whose data is then sent. */
    method CallAndSend(i: nat, calls: seq<AppCall>, ghost given: seq<byte>,
                       ghost acked: bool) returns (reply: Option<Segment>)
      requires i < conns.Length
      modifies this`flags, this`slen, this`buf, this`told, conns
      ensures var out := Tcp.CallAndSend(old(At(i)), calls, given, acked);
        At(i) == out.x && reply == out.seg && told == old(told) + Said(out)
      ensures conns[..] == old(conns[..])[i := conns[i]]
    {
      AppCall(i, calls, given);
      reply := AppSend(i);
    }

    // ------------------------------------------------------------------ timer

    /** The branch UIP_TIMER: the periodic processing of slot `i`. */
    method Periodic(i: nat, calls: seq<AppCall>) returns (packet: Option<Packet>)
      requires Valid() && i < conns.Length
      modifies this`iss, this`flags, this`slen, this`buf, this`told, conns
      ensures (View(), packet) == Step(old(View()), TcpSystem.Periodic(i, calls))
      ensures told == old(told) + Said(Tick(old(conns[i]), calls, old(buf)))
    {
      hide Tick, Increment;
      TickKeepsTuple(conns[i], calls, buf);
      iss := Increment(iss);
      slen := 0;
      flags := NO_FLAGS;
      var reply := TimerBranch(i, calls);
      packet := ToPeer(conns[i], reply);
      flags := NO_FLAGS;
    }

    method TimerBranch(i: nat, calls: seq<AppCall>) returns (reply: Option<Segment>)
      requires i < conns.Length && flags == NO_FLAGS && slen == 0
      modifies this`flags, this`slen, this`buf, this`told, conns
      ensures var out := Tick(old(conns[i]), calls, old(buf));
        && conns[i] == out.x.conn && slen == out.x.slen && buf == out.x.buf
        && reply == out.seg && told == old(told) + Said(out)
      ensures conns[..] == old(conns[..])[i := conns[i]]
    {
      hide Tcp.CallAndSend, Callback, Retransmit, TimeOut;
      reply := None;
      if conns[i].Is(TIME_WAIT) || conns[i].Is(FIN_WAIT_2) {
        conns[i] := conns[i].(timer := (conns[i].timer + 1) % 256);
        if conns[i].timer == UIP_TIME_WAIT_TIMEOUT {
          conns[i] := conns[i].To(CLOSED);
        }
      } else if !conns[i].Is(CLOSED) {
        if conns[i].len > 0 {
          var expired := conns[i].timer == 0;
          conns[i] := conns[i].(timer := (conns[i].timer + 255) % 256);
          if expired {
            RetransmitSetsTimer(Local(old(conns[i]), flags, slen, buf), 255, calls);
            reply := TimerExpired(i, calls);
          }
        } else if conns[i].state == ESTABLISHED {
          flags := NO_FLAGS.(poll := true);
          reply := CallAndSend(i, calls, [], false);
        }
      }
    }

    /** The timer of slot `i` has passed zero: give up, or retransmit. */
    method TimerExpired(i: nat, calls: seq<AppCall>) returns (reply: Option<Segment>)
      requires i < conns.Length && flags == NO_FLAGS && conns[i].timer == 255
      modifies this`flags, this`slen, this`buf, this`told, conns
      ensures var x := old(At(i));
        var out := if GivesUp(x.conn) then TimeOut(x, calls) else Retransmit(x, calls);
        && conns[i] == out.x.conn && slen == out.x.slen && buf == out.x.buf
        && reply == out.seg && told == old(told) + Said(out)
      ensures conns[..] == old(conns[..])[i := conns[i]]
    {
      hide Retransmit, Callback;
      if conns[i].nrtx == UIP_MAXRTX ||
         ((conns[i].Is(SYN_SENT) || conns[i].Is(SYN_RCVD)) && conns[i].nrtx == UIP_MAXSYNRTX)
      {
        conns[i] := conns[i].To(CLOSED);
        flags := NO_FLAGS.(timedout := true);
        AppCall(i, calls, []);
        return Some(RstAckReply(conns[i]));
      }
      reply := Retransmission(i, calls);
    }

    /** The backoff, and the switch over the states that retransmit. */
    method Retransmission(i: nat, calls: seq<AppCall>) returns (reply: Option<Segment>)
      requires i < conns.Length && flags == NO_FLAGS
      modifies this`flags, this`slen, this`buf, this`told, conns
      ensures var out := Retransmit(old(At(i)), calls);
        && conns[i] == out.x.conn && slen == out.x.slen && buf == out.x.buf
        && reply == out.seg && told == old(told) + Said(out)
      ensures conns[..] == old(conns[..])[i := conns[i]]
    {
      conns[i] := conns[i].(timer := Backoff(conns[i].nrtx));
      conns[i] := conns[i].(nrtx := (conns[i].nrtx + 1) % 256);
      match conns[i].state {
        case SYN_RCVD => reply := Some(Reply(conns[i], false, true, false, false, true, []));
        case SYN_SENT => reply := Some(Reply(conns[i], false, true, false, false, false, []));
        case ESTABLISHED =>
          flags := NO_FLAGS.(rexmit := true);
          AppCall(i, calls, []);
          reply := AppRexmit(i);
        case FIN_WAIT_1 => reply := Some(FinAckReply(conns[i]));
        case CLOSING => reply := Some(FinAckReply(conns[i]));
        case LAST_ACK => reply := Some(FinAckReply(conns[i]));
        case _ => reply := None;
      }
    }

    /** The branch UIP_POLL_REQUEST. */
    method PollConn(i: nat, calls: seq<AppCall>) returns (packet: Option<Packet>)
      requires Valid() && i < conns.Length
      modifies this`flags, this`slen, this`buf, this`told, conns
      ensures (View(), packet) == Step(old(View()), Poll(i, calls))
      ensures told == old(told) + Said(PollRequest(old(conns[i]), calls, old(slen), old(buf)))
    {
      hide Tcp.CallAndSend;
      packet := None;
      assert conns[..][i := conns[i]] == conns[..];
      if conns[i].state == ESTABLISHED && conns[i].len == 0 {
        CallAndSendKeepsTuple(Local(conns[i], NO_FLAGS.(poll := true), slen, buf), calls, [], false);
        flags := NO_FLAGS.(poll := true);
        var reply := CallAndSend(i, calls, [], false);
        packet := ToPeer(conns[i], reply);
      }
      flags := NO_FLAGS;
    }

    // ------------------------------------------------------------------ input

    method InSynRcvd(i: nat, seg: Segment, calls: seq<AppCall>, ghost acked: bool) returns (reply: Option<Segment>)
      requires i < conns.Length
      modifies this`flags, this`slen, this`buf, this`told, conns
      ensures var out := Tcp.InSynRcvd(old(At(i)), seg, calls, acked);
        At(i) == out.x && reply == out.seg && told == old(told) + Said(out)
      ensures conns[..] == old(conns[..])[i := conns[i]]
    {
      hide Tcp.CallAndSend;
      if flags.ackdata {
        conns[i] := conns[i].To(ESTABLISHED);
        flags := NO_FLAGS.(connected := true);
        conns[i] := conns[i].(len := 0);
        if |seg.data| > 0 {
          flags := flags.(newdata := true);
          conns[i] := Accept(conns[i], |seg.data|);
        }
        slen := 0;
        reply := CallAndSend(i, calls, seg.data, acked);
      } else {
        reply := None;
      }
    }

    method InSynSent(i: nat, seg: Segment, calls: seq<AppCall>, ghost acked: bool) returns (reply: Option<Segment>)
      requires i < conns.Length
      modifies this`flags, this`slen, this`buf, this`told, conns
      ensures var out := Tcp.InSynSent(old(At(i)), seg, calls, acked);
        At(i) == out.x && reply == out.seg && told == old(told) + Said(out)
      ensures conns[..] == old(conns[..])[i := conns[i]]
    {
      hide Tcp.CallAndSend;
      if flags.ackdata && seg.IsSynAck() {
        conns[i] := WithMss(conns[i], seg.mss);
        conns[i] := conns[i].To(ESTABLISHED);
        conns[i] := conns[i].(rcvNxt := seg.seqno);
        conns[i] := Accept(conns[i], 1);
        flags := NO_FLAGS.(connected := true, newdata := true);
        conns[i] := conns[i].(len := 0);
        slen := 0;
        reply := CallAndSend(i, calls, [], acked);
      } else {
        flags := NO_FLAGS.(abort := true);
        AppCall(i, calls, []);
        conns[i] := conns[i].To(CLOSED);
        reply := Some(ResetReply(seg));
      }
    }

    /** ESTABLISHED, for the peer's FIN: the connection goes straight to LAST_ACK. */
    method TakeFin(i: nat, seg: Segment, calls: seq<AppCall>, ghost acked: bool) returns (reply: Option<Segment>)
      requires i < conns.Length && !flags.newdata && seg.fin && !conns[i].stopped
      modifies this`flags, this`slen, this`buf, this`told, conns
      ensures var out := Tcp.InEstablished(old(At(i)), seg, calls, acked);
        At(i) == out.x && reply == out.seg && told == old(told) + Said(out)
      ensures conns[..] == old(conns[..])[i := conns[i]]
    {
      if conns[i].len > 0 {
        return None;
      }
      conns[i] := Accept(conns[i], 1 + |seg.data|);
      flags := flags.(close := true);
      if |seg.data| > 0 {
        flags := flags.(newdata := true);
      }
      AppCall(i, calls, seg.data);
      conns[i] := conns[i].(len := 1);
      conns[i] := conns[i].To(LAST_ACK);
      conns[i] := conns[i].(nrtx := 0);
      reply := Some(FinAckReply(conns[i]));
    }

    lemma DataTaken(x: Local, seg: Segment, isNew: bool, c: Conn, mss: uint16)
      requires isNew == (seg.data != [] && !x.conn.stopped) && c == if isNew then Accept(x.conn, |seg.data|) else x.conn
      requires mss == if seg.wnd > c.initialmss || seg.wnd == 0 then c.initialmss else seg.wnd
      ensures TakeData(x, seg) == x.(conn := c.(mss := mss), flags := x.flags.(newdata := isNew))
    {
      hide Accept;
    }

    /** ESTABLISHED: new data is counted, and the peer's window sets the segment size. */
    method NoteData(i: nat, seg: Segment)
      requires i < conns.Length && !flags.newdata
      modifies this`flags, conns
      ensures At(i) == TakeData(old(At(i)), seg)
      ensures conns[..] == old(conns[..])[i := conns[i]]
    {
      hide Accept, TakeData;
      ghost var x := At(i);
      ghost var isNew := seg.data != [] && !x.conn.stopped;
      ghost var c := if isNew then Accept(x.conn, |seg.data|) else x.conn;
      if |seg.data| > 0 && !conns[i].stopped {
        flags := flags.(newdata := true);
        conns[i] := Accept(conns[i], |seg.data|);
      }
      assert conns[i] == c && flags == x.flags.(newdata := isNew);
      var tmp16 := seg.wnd;
      if tmp16 > conns[i].initialmss || tmp16 == 0 {
        tmp16 := conns[i].initialmss;
      }
      DataTaken(x, seg, isNew, c, tmp16);
      conns[i] := conns[i].(mss := tmp16);
    }

    method InEstablished(i: nat, seg: Segment, calls: seq<AppCall>, ghost acked: bool) returns (reply: Option<Segment>)
      requires i < conns.Length && !flags.newdata
      modifies this`flags, this`slen, this`buf, this`told, conns
      ensures var out := Tcp.InEstablished(old(At(i)), seg, calls, acked);
        At(i) == out.x && reply == out.seg && told == old(told) + Said(out)
      ensures conns[..] == old(conns[..])[i := conns[i]]
    {
      hide Tcp.CallAndSend, TakeData;
      if seg.fin && !conns[i].stopped {
        reply := TakeFin(i, seg, calls, acked);
        return;
      }
      NoteData(i, seg);
      reply := None;
      if flags.newdata || flags.ackdata {
        slen := 0;
        reply := CallAndSend(i, calls, if flags.newdata then seg.data else [], acked);
      }
    }

    method InLastAck(i: nat, calls: seq<AppCall>, ghost acked: bool)
      requires i < conns.Length
      modifies this`flags, this`slen, this`buf, this`told, conns
      ensures var out := Tcp.InLastAck(old(At(i)), calls, acked);
        At(i) == out.x && out.seg == None && told == old(told) + Said(out)
      ensures conns[..] == old(conns[..])[i := conns[i]]
    {
      if flags.ackdata {
        conns[i] := conns[i].To(CLOSED);
        flags := NO_FLAGS.(close := true);
        AppCall(i, calls, []);
      }
    }

    method InFinWait1(i: nat, seg: Segment, calls: seq<AppCall>, ghost acked: bool) returns (reply: Option<Segment>)
      requires i < conns.Length && conns[i].state == FIN_WAIT_1
      modifies this`flags, this`slen, this`buf, this`told, conns
      ensures var out := InFinWait(old(At(i)), seg, calls, acked);
        At(i) == out.x && reply == out.seg && told == old(told) + Said(out)
      ensures conns[..] == old(conns[..])[i := conns[i]]
    {
      if |seg.data| > 0 {
        conns[i] := Accept(conns[i], |seg.data|);
      }
      if seg.fin {
        if flags.ackdata {
          conns[i] := conns[i].To(TIME_WAIT);
          conns[i] := conns[i].(timer := 0, len := 0);
        } else {
          conns[i] := conns[i].To(CLOSING);
        }
        conns[i] := Accept(conns[i], 1);
        flags := NO_FLAGS.(close := true);
        AppCall(i, calls, []);
        return Some(AckReply(conns[i]));
      }
      if flags.ackdata {
        conns[i] := conns[i].To(FIN_WAIT_2);
        conns[i] := conns[i].(len := 0);
        return None;
      }
      reply := if |seg.data| > 0 then Some(AckReply(conns[i])) else None;
    }

    method InFinWait2(i: nat, seg: Segment, calls: seq<AppCall>, ghost acked: bool) returns (reply: Option<Segment>)
      requires i < conns.Length && conns[i].state == FIN_WAIT_2
      modifies this`flags, this`slen, this`buf, this`told, conns
      ensures var out := InFinWait(old(At(i)), seg, calls, acked);
        At(i) == out.x && reply == out.seg && told == old(told) + Said(out)
      ensures conns[..] == old(conns[..])[i := conns[i]]
    {
      if |seg.data| > 0 {
        conns[i] := Accept(conns[i], |seg.data|);
      }
      if seg.fin {
        conns[i] := conns[i].To(TIME_WAIT);
        conns[i] := conns[i].(timer := 0);
        conns[i] := Accept(conns[i], 1);
        flags := NO_FLAGS.(close := true);
        AppCall(i, calls, []);
        return Some(AckReply(conns[i]));
      }
      reply := if |seg.data| > 0 then Some(AckReply(conns[i])) else None;
    }

    /** The switch over the states, for a segment in order. */
    method SwitchState(i: nat, seg: Segment, calls: seq<AppCall>, ghost acked: bool) returns (reply: Option<Segment>)
      requires i < conns.Length && !flags.newdata
      modifies this`flags, this`slen, this`buf, this`told, conns
      ensures var out := InOrder(old(At(i)), seg, calls, acked);
        At(i) == out.x && reply == out.seg && told == old(told) + Said(out)
      ensures conns[..] == old(conns[..])[i := conns[i]]
    {
      hide Tcp.InSynRcvd, Tcp.InSynSent, Tcp.InEstablished, Tcp.InLastAck, InFinWait;
      reply := None;
      match conns[i].state {
        case SYN_RCVD => reply := InSynRcvd(i, seg, calls, acked);
        case SYN_SENT => reply := InSynSent(i, seg, calls, acked);
        case ESTABLISHED => reply := InEstablished(i, seg, calls, acked);
        case LAST_ACK => InLastAck(i, calls, acked);
        case FIN_WAIT_1 => reply := InFinWait1(i, seg, calls, acked);
        case FIN_WAIT_2 => reply := InFinWait2(i, seg, calls, acked);
        case TIME_WAIT => reply := Some(AckReply(conns[i]));
        case CLOSING =>
          if flags.ackdata {
            conns[i] := conns[i].To(TIME_WAIT);
            conns[i] := conns[i].(timer := 0);
          }
        case CLOSED =>
      }
    }

    /** Label `found`. */
    method Found(i: nat, seg: Segment, rto: byte, calls: seq<AppCall>) returns (reply: Option<Segment>)
      requires i < conns.Length
      modifies this`flags, this`slen, this`buf, this`told, conns
      ensures var out := Receive(old(conns[i]), seg, rto, calls, old(slen), old(buf));
        && conns[i] == out.x.conn && slen == out.x.slen && buf == out.x.buf
        && reply == out.seg && told == old(told) + Said(out)
      ensures conns[..] == old(conns[..])[i := conns[i]]
    {
      hide InOrder, Callback;
      flags := NO_FLAGS;
      if seg.rst {
        conns[i] := conns[i].To(CLOSED);
        flags := NO_FLAGS.(abort := true);
        AppCall(i, calls, []);
        return None;
      }
      if !(conns[i].state == SYN_SENT && seg.IsSynAck()) {
        if (|seg.data| > 0 || seg.syn || seg.fin) && seg.seqno != conns[i].rcvNxt {
          return Some(AckReply(conns[i]));
        }
      }
      ghost var acked := AcksOutstanding(conns[i], seg);
      if seg.ack && conns[i].len > 0 {
        var acc32 := Add32(conns[i].sndNxt, conns[i].len);
        if seg.ackno == acc32 {
          conns[i] := conns[i].(sndNxt := acc32);
          if conns[i].nrtx == 0 {
            conns[i] := conns[i].(rto := rto);
          }
          flags := NO_FLAGS.(ackdata := true);
          conns[i] := conns[i].(timer := conns[i].rto);
          conns[i] := conns[i].(len := 0);
        }
      }
      reply := SwitchState(i, seg, calls, acked);
    }

    /** The demultiplexing loop. */
    method FindConnection(src: Addr, srcport: uint16, destport: uint16) returns (i: int)
      ensures i == FindConn(conns[..], 0, src, srcport, destport)
    {
      i := 0;
      while i < conns.Length
        invariant 0 <= i <= conns.Length
        invariant FindConn(conns[..], i, src, srcport, destport) == FindConn(conns[..], 0, src, srcport, destport)
      {
        if !conns[i].Is(CLOSED) && destport == conns[i].lport && srcport == conns[i].rport && src == conns[i].ripaddr {
          return;
        }
        i := i + 1;
      }
      i := -1;
    }

    /** The search for an unused slot, in `found_listen` and in `uip_connect`. */
    method FindSlot() returns (best: int)
      ensures best == FindUnused(conns[..], 0, -1)
      ensures best == -1 || 0 <= best < conns.Length
    {
      best := -1;
      for c := 0 to conns.Length
        invariant best == -1 || 0 <= best < conns.Length
        invariant FindUnused(conns[..], c, best) == FindUnused(conns[..], 0, -1)
      {
        if conns[c].Is(CLOSED) {
          return c;
        }
        if conns[c].Is(TIME_WAIT) {
          if best == -1 || conns[c].timer > conns[best].timer {
            best := c;
          }
        }
      }
    }

    /** The search of the listening ports. */
    method IsListening(port: uint16) returns (found: bool)
      ensures found == (port in listenports[..])
    {
      for c := 0 to listenports.Length
        invariant port !in listenports[..c]
      {
        if port == listenports[c] {
          return true;
        }
        assert listenports[..c + 1] == listenports[..c] + [listenports[c]];
      }
      assert listenports[..listenports.Length] == listenports[..];
      found := false;
    }

    /** Label `found_listen`. */
    method FoundListen(src: Addr, srcport: uint16, destport: uint16, seg: Segment) returns (packet: Option<Packet>)
      modifies conns
      ensures var i := FindUnused(old(conns[..]), 0, -1);
        if 0 <= i < conns.Length then
          var c := PassiveOpen(old(conns[i]), iss, seg, destport, srcport, src);
          && conns[..] == old(conns[..])[i := c]
          && packet == ToPeer(c, Some(Reply(c, false, true, false, false, true, [])))
        else conns[..] == old(conns[..]) && packet == None
    {
      hide FindUnused;
      var i := FindSlot();
      if i == -1 {
        return None;
      }
      conns[i] := conns[i].(rto := UIP_RTO, timer := UIP_RTO, nrtx := 0);
      conns[i] := conns[i].(lport := destport, rport := srcport, ripaddr := src);
      conns[i] := conns[i].To(SYN_RCVD);
      conns[i] := conns[i].(sndNxt := iss, len := 1);
      conns[i] := conns[i].(rcvNxt := seg.seqno);
      conns[i] := Accept(conns[i], 1);
      conns[i] := WithMss(conns[i], seg.mss);
      packet := ToPeer(conns[i], Some(Reply(conns[i], false, true, false, false, true, [])));
    }

    /** Label `tcp_input`: a segment whose checksum has been accepted. */
    method TcpInput(src: Addr, srcport: uint16, destport: uint16, seg: Segment, rto: byte, calls: seq<AppCall>)
      returns (packet: Option<Packet>)
      requires Valid()
      modifies this`flags, this`slen, this`buf, this`told, conns
      ensures (View(), packet) == Step(old(View()), Input(src, srcport, destport, seg, rto, calls))
    {
      hide Receive, FindUnused, PassiveOpen;
      var i := FindConnection(src, srcport, destport);
      if i >= 0 {
        ReceiveKeepsTuple(conns[i], seg, rto, calls, slen, buf);
        var reply := Found(i, seg, rto, calls);
        packet := ToPeer(conns[i], reply);
        flags := NO_FLAGS;
        return;
      }
      if seg.IsSyn() {
        var listening := IsListening(destport);
        if listening {
          packet := FoundListen(src, srcport, destport, seg);
          flags := NO_FLAGS;
          return;
        }
      }
      flags := NO_FLAGS;
      packet := if seg.rst then None else Some(Packet(src, destport, srcport, ResetReply(seg)));
    }

    // ------------------------------------------------------------ active open

    /** The loop at label `again`: steps `lastport` to the next port that is not in use. */
    method FindPort() returns (ghost tries: nat)
      requires Valid()
      modifies this`lastport
      ensures Valid() && FirstFreePort(conns[..], old(lastport), tries) && lastport == PortAfter(old(lastport), tries)
    {
      tries := 0;
      SomePortIsFree(conns[..], lastport);
      ghost var last :| 1 <= last <= UIP_CONNS + 1 && !PortInUse(conns[..], PortAfter(lastport, last));
      var searching := true;
      while searching
        invariant lastport < END_PORT && lastport == PortAfter(old(lastport), tries)
        invariant tries <= last && (searching ==> tries < last)
        invariant forall m :: 1 <= m < tries ==> PortInUse(conns[..], PortAfter(old(lastport), m))
        invariant searching ==> tries >= 1 ==> PortInUse(conns[..], lastport)
        invariant !searching ==> tries >= 1 && !PortInUse(conns[..], lastport)
        decreases last - tries, searching
      {
        lastport := if lastport + 1 >= END_PORT then FIRST_PORT else lastport + 1;
        tries := tries + 1;
        searching := PortTaken(lastport);
      }
    }

    method PortTaken(port: uint16) returns (taken: bool)
      ensures taken == PortInUse(conns[..], port)
    {
      for c := 0 to conns.Length
        invariant forall k :: 0 <= k < c ==> conns[k].Is(CLOSED) || conns[k].lport != port
      {
        if !conns[c].Is(CLOSED) && conns[c].lport == port {
          assert !conns[..][c].Is(CLOSED) && conns[..][c].lport == port;
          return true;
        }
      }
      taken := false;
    }

    /** `uip_connect`: the slot of the new connection, or -1. */
    method ConnectTo(ripaddr: Addr, rport: uint16) returns (slot: int, ghost tries: nat)
      requires Valid()
      modifies this`lastport, conns
      ensures Valid() && FirstFreePort(old(conns[..]), old(lastport), tries)
      ensures View() == Step(old(View()), Connect(ripaddr, rport, tries)).0
      ensures slot == FindUnused(old(conns[..]), 0, -1)
    {
      hide FindUnused, FirstFreePort, PortAfter;
      tries := FindPort();
      slot := FindSlot();
      if slot == -1 {
        return;
      }
      conns[slot] := conns[slot].To(SYN_SENT);
      conns[slot] := conns[slot].(sndNxt := iss);
      conns[slot] := conns[slot].(initialmss := UIP_TCP_MSS, mss := UIP_TCP_MSS);
      conns[slot] := conns[slot].(len := 1, nrtx := 0, timer := 1, rto := UIP_RTO);
      conns[slot] := conns[slot].(lport := lastport, rport := rport, ripaddr := ripaddr);
    }
  }
}
