/**
 * Sending over a protosocket (`psock_send` in src/uip/psock.c), on top of the
 * TCP engine: messages no longer than a segment arrive in order, each exactly
 * once, and each call ends when its message has been acknowledged.
 */
module PsockSend {
  import opened Bytes
  import opened Common
  import opened SequenceNumbers
  import opened Tcp
  import opened TcpInvariant
  import opened TcpDelivery
  import opened TcpTiling

  // --------------------------------------------------------------- psock_send

  datatype SockState = StateNone | StateAcked | StateDataSent

  /** The inner protothread: whether it waits, and the fields it uses; `off` is sendptr relative to the message. */
  datatype Sender = Sender(waiting: bool, state: SockState, off: nat, left: nat)

  const IDLE := Sender(false, StateNone, 0, 0)

  /** What the thread reads of a callback: uip_acked(), uip_rexmit(), uip_mss(). */
  datatype Now = Now(acked: bool, rexmit: bool, mss: nat)

  function Min(a: nat, b: nat): nat {
    if a <= b then a else b
  }

  /** An acknowledgment with a segment size of zero takes nothing off the message; there the loop would not end. */
  predicate Progresses(s: Sender, now: Now) {
    s.state == StateDataSent && now.acked ==> now.mss > 0
  }

  /** The waiting loop: `data_acked` and `send_data`, until both succeed with nothing left. */
  function Wait(s: Sender, msg: seq<byte>, now: Now): (Sender, seq<AppCall>, bool)
    requires Progresses(s, now) && s.off + s.left == |msg|
    decreases s.left
  {
    var acked := s.state == StateDataSent && now.acked;
    var n := Min(s.left, now.mss);
    var s1 := if acked then s.(state := StateAcked, off := s.off + n, left := s.left - n) else s;
    var sends := s1.state != StateDataSent || now.rexmit;
    var calls := if sends then [Send(msg[s1.off..s1.off + Min(s1.left, now.mss)])] else [];
    var s2 := if sends then s1.(state := StateDataSent) else s1;
    if !(acked && sends) then (s2, calls, false)
    else if s2.left == 0 then (IDLE, calls, true)
    else
      assert s2.left < s.left;
      var (s3, more, ended) := Wait(s2, msg, now);
      (s3, calls + more, ended)
  }

  /** One round of the waiting loop. */
  lemma WaitRound(s: Sender, msg: seq<byte>, now: Now)
    requires Progresses(s, now) && s.waiting && s.off + s.left == |msg|
    ensures var acked := s.state == StateDataSent && now.acked;
      var n := if acked then Min(s.left, now.mss) else 0;
      var sends := acked || s.state != StateDataSent || now.rexmit;
      var s2 := Sender(true, if sends then StateDataSent else s.state, s.off + n, s.left - n);
      var calls := if sends then [Send(msg[s2.off..s2.off + Min(s2.left, now.mss)])] else [];
      if !acked then Wait(s, msg, now) == (s2, calls, false)
      else if s2.left == 0 then Wait(s, msg, now) == (IDLE, calls, true)
      else
        var (s3, more, ended) := Wait(s2, msg, now);
        Wait(s, msg, now) == (s3, calls + more, ended)
  {
  }

  /** One invocation of `psock_send(msg)`: the new thread, its calls of uip_send, and whether it ended. */
  function Resume(s: Sender, msg: seq<byte>, now: Now): (Sender, seq<AppCall>, bool)
    requires s.waiting ==> Progresses(s, now) && msg != [] && s.off + s.left == |msg|
  {
    if s.waiting then Wait(s, msg, now)
    else if msg == [] then (IDLE, [], true)
    else Wait(Sender(true, StateNone, 0, |msg|), msg, now)
  }

  /** The state in which a whole message is in flight. */
  function InFlight(msg: seq<byte>): Sender {
    Sender(true, StateDataSent, 0, |msg|)
  }

  /** The part of a message that one call of uip_send gets. */
  function FirstPart(msg: seq<byte>, mss: nat): seq<byte> {
    msg[..Min(|msg|, mss)]
  }

  /** As much of the message as fits a segment is sent at once. */
  lemma Starts(msg: seq<byte>, now: Now)
    requires msg != []
    ensures Resume(IDLE, msg, now) == (InFlight(msg), [Send(FirstPart(msg, now.mss))], false)
  {
    assert msg[0..Min(|msg|, now.mss)] == FirstPart(msg, now.mss);
  }

  /** Until the acknowledgment a retransmission sends as much again as fits by then, and nothing else sends. */
  lemma StaysInFlight(msg: seq<byte>, now: Now)
    requires msg != [] && !now.acked
    ensures Resume(InFlight(msg), msg, now)
         == (InFlight(msg), if now.rexmit then [Send(FirstPart(msg, now.mss))] else [], false)
  {
    assert msg[0..Min(|msg|, now.mss)] == FirstPart(msg, now.mss);
  }

  /**
   * The acknowledgment ends the call in the same invocation, whatever part of
   * the message had been sent. Nothing is left for uip_send exactly when the
   * message fits the segment size of that moment.
   */
  lemma AckEndsCall(msg: seq<byte>, now: Now)
    requires 0 < |msg| && 0 < now.mss && now.acked
    ensures Resume(InFlight(msg), msg, now).2
    ensures |msg| <= now.mss <==> Resume(InFlight(msg), msg, now).1 == [Send([])]
  {
    WaitAcked(InFlight(msg), msg, now);
    if |msg| > now.mss {
      var s2 := Sender(true, StateDataSent, now.mss, |msg| - now.mss);
      WaitAcked(s2, msg, now);
      var (_, calls, _) := Wait(InFlight(msg), msg, now);
      assert calls[0] == Send(msg[now.mss..now.mss + Min(|msg| - now.mss, now.mss)]);
      assert |calls[0].data| > 0;
    } else {
      assert msg[|msg|..|msg|] == [];
    }
  }

  // ------------------------------------------------- the life of one message

  /** The calls of uip_send between the start of a call and its acknowledgment. */
  function Meanwhile(msg: seq<byte>, nows: seq<Now>): seq<AppCall>
    requires msg != [] && forall i :: 0 <= i < |nows| ==> !nows[i].acked
  {
    if nows == [] then []
    else Meanwhile(msg, nows[..|nows| - 1]) + Resume(InFlight(msg), msg, nows[|nows| - 1]).1
  }

  /** Each of the calls sends the whole message. */
  ghost predicate AllWhole(calls: seq<AppCall>, msg: seq<byte>) {
    forall i :: 0 <= i < |calls| ==> calls[i] == Send(msg)
  }

  lemma FirstPartIsWhole(msg: seq<byte>, mss: nat)
    ensures FirstPart(msg, mss) == msg <==> |msg| <= mss
  {
    assert |msg| <= mss ==> msg[..|msg|] == msg;
  }

  lemma {:induction false} MeanwhileIsWholeIff(msg: seq<byte>, nows: seq<Now>)
    requires msg != [] && forall i :: 0 <= i < |nows| ==> !nows[i].acked
    ensures AllWhole(Meanwhile(msg, nows), msg)
       <==> forall i :: 0 <= i < |nows| && nows[i].rexmit ==> |msg| <= nows[i].mss
  {
    if nows != [] {
      var front, last := nows[..|nows| - 1], nows[|nows| - 1];
      var before := Meanwhile(msg, front);
      MeanwhileIsWholeIff(msg, front);
      StaysInFlight(msg, last);
      FirstPartIsWhole(msg, last.mss);
      var calls := Meanwhile(msg, nows);
      assert forall i :: 0 <= i < |before| ==> calls[i] == before[i];
      assert last.rexmit ==> calls[|before|] == Send(FirstPart(msg, last.mss));
      assert forall i :: 0 <= i < |front| ==> nows[i] == front[i];
    }
  }

  /**
   * One call of `psock_send` from its start to the acknowledgment that ends it,
   * over any callbacks in between, each with the segment size of its moment: the
   * whole message is sent, every retransmission repeats all of it, and nothing
   * is left to be sent when the call ends, if and only if the message fits the
   * segment size at the start, at each retransmission and at the acknowledgment.
   */
  lemma CallIsWholeIff(msg: seq<byte>, start: Now, nows: seq<Now>, ack: Now)
    requires msg != [] && ack.acked && ack.mss > 0
    requires forall i :: 0 <= i < |nows| ==> !nows[i].acked
    ensures (&& Resume(IDLE, msg, start).1 == [Send(msg)]
             && AllWhole(Meanwhile(msg, nows), msg)
             && Resume(InFlight(msg), msg, ack).1 == [Send([])])
       <==> (&& |msg| <= start.mss
             && (forall i :: 0 <= i < |nows| && nows[i].rexmit ==> |msg| <= nows[i].mss)
             && |msg| <= ack.mss)
  {
    hide Resume, Meanwhile, AllWhole, FirstPart;
    Starts(msg, start);
    FirstPartIsWhole(msg, start.mss);
    MeanwhileIsWholeIff(msg, nows);
    AckEndsCall(msg, ack);
  }

  /** A window that grows before the acknowledgment: the call ends, and the tail of the message is never sent. */
  lemma GrowingWindowDropsTail(msg: seq<byte>, start: Now, ack: Now)
    requires start.mss < |msg| <= ack.mss && ack.acked
    ensures Resume(IDLE, msg, start) == (InFlight(msg), [Send(msg[..start.mss])], false)
    ensures Resume(InFlight(msg), msg, ack) == (IDLE, [Send([])], true)
  {
    Starts(msg, start);
    assert msg[|msg|..|msg|] == [];
  }

  /**
   * A window that shrinks: a retransmission offers less than is outstanding, and
   * acknowledged bytes are sent once more.
   */
  lemma ShrinkingWindowRepeatsTail(msg: seq<byte>, start: Now, rexmit: Now, ack: Now)
    requires 0 < ack.mss == rexmit.mss < |msg| <= start.mss && |msg| <= 2 * ack.mss
    requires rexmit.rexmit && !rexmit.acked && ack.acked
    ensures Resume(IDLE, msg, start) == (InFlight(msg), [Send(msg)], false)
    ensures Resume(InFlight(msg), msg, rexmit) == (InFlight(msg), [Send(msg[..rexmit.mss])], false)
    ensures Resume(InFlight(msg), msg, ack) == (IDLE, [Send(msg[ack.mss..]), Send([])], true)
  {
    Starts(msg, start);
    FirstPartIsWhole(msg, start.mss);
    StaysInFlight(msg, rexmit);
    hide Wait;
    var tail := Sender(true, StateDataSent, ack.mss, |msg| - ack.mss);
    WaitRound(InFlight(msg), msg, ack);
    WaitRound(tail, msg, ack);
    assert msg[|msg|..|msg|] == [];
    assert Wait(tail, msg, ack) == (IDLE, [Send([])], true);
    assert msg[ack.mss..ack.mss + Min(|msg| - ack.mss, ack.mss)] == msg[ack.mss..];
    assert [Send(msg[ack.mss..])] + [Send([])] == [Send(msg[ack.mss..]), Send([])];
  }

  lemma AckLeavesIdle(msg: seq<byte>, now: Now)
    requires 0 < |msg| <= now.mss && now.acked
    ensures Resume(InFlight(msg), msg, now).0 == IDLE
  {
  }

  lemma {:induction false} WaitAcked(s: Sender, msg: seq<byte>, now: Now)
    requires 0 < now.mss && now.acked && s.off + s.left == |msg| && s.state == StateDataSent
    ensures Wait(s, msg, now).2
    decreases s.left
  {
    var n := Min(s.left, now.mss);
    if s.left > n {
      WaitAcked(Sender(s.waiting, StateDataSent, s.off + n, s.left - n), msg, now);
    }
  }

  /** What the thread hands to uip_send never exceeds the segment size, and so fits the buffer. */
  lemma {:induction false} SendsFitSegment(s: Sender, msg: seq<byte>, now: Now)
    requires Progresses(s, now) && s.off + s.left == |msg|
    ensures var calls := Wait(s, msg, now).1;
      forall i :: 0 <= i < |calls| ==> calls[i].Send? && |calls[i].data| <= now.mss
    decreases s.left
  {
    if s.state == StateDataSent && now.acked && s.left > now.mss {
      var next := Sender(s.waiting, StateDataSent, s.off + now.mss, s.left - now.mss);
      var part := msg[next.off..next.off + Min(next.left, now.mss)];
      SendsFitSegment(next, msg, now);
      assert Wait(s, msg, now).1 == [Send(part)] + Wait(next, msg, now).1;
    }
  }

  /** `struct psock`, as far as sending uses it. */
  class Psock {
    var lc: bool            // the thread waits inside psock_send
    var state: SockState
    var sendptr: nat
    var sendlen: nat

    ghost function Thread(): Sender
      reads this
    {
      if lc then Sender(true, state, sendptr, sendlen) else IDLE
    }

    constructor ()
      ensures Thread() == IDLE
    {
      lc, state, sendptr, sendlen := false, StateNone, 0, 0;
    }

    /** `data_acked` */
    method DataAcked(now: Now) returns (r: bool)
      modifies this`state, this`sendptr, this`sendlen
      ensures r == (old(state) == StateDataSent && now.acked)
      ensures r ==> state == StateAcked && sendptr == old(sendptr) + Min(old(sendlen), now.mss)
      ensures r ==> sendlen == old(sendlen) - Min(old(sendlen), now.mss)
      ensures !r ==> state == old(state) && sendptr == old(sendptr) && sendlen == old(sendlen)
    {
      if state == StateDataSent && now.acked {
        if sendlen > now.mss {
          sendlen := sendlen - now.mss;
          sendptr := sendptr + now.mss;
        } else {
          sendptr := sendptr + sendlen;
          sendlen := 0;
        }
        state := StateAcked;
        return true;
      }
      r := false;
    }

    /** `send_data`; the call of uip_send it makes is returned. */
    method SendData(msg: seq<byte>, now: Now) returns (r: bool, calls: seq<AppCall>)
      requires sendptr + sendlen <= |msg|
      modifies this`state
      ensures r == (old(state) != StateDataSent || now.rexmit)
      ensures state == if r then StateDataSent else old(state)
      ensures calls == if r then [Send(msg[sendptr..sendptr + Min(sendlen, now.mss)])] else []
    {
      if state != StateDataSent || now.rexmit {
        if sendlen > now.mss {
          calls := [Send(msg[sendptr..sendptr + now.mss])];
        } else {
          calls := [Send(msg[sendptr..sendptr + sendlen])];
        }
        state := StateDataSent;
        return true, calls;
      }
      r, calls := false, [];
    }

    /** `psock_send`, with `data_acked` evaluated before `send_data`. */
    method PsockSend(msg: seq<byte>, now: Now) returns (ended: bool, calls: seq<AppCall>)
      requires lc ==> Progresses(Thread(), now) && 0 < sendlen && sendptr + sendlen == |msg|
      modifies this
      ensures (Thread(), calls, ended) == Resume(old(Thread()), msg, now)
      ensures lc ==> 0 < sendlen && sendptr + sendlen == |msg|
    {
      hide Wait;
      calls := [];
      if !lc {
        if |msg| == 0 {
          return true, [];
        }
        sendptr := 0;
        sendlen := |msg|;
        state := StateNone;
      }
      ghost var s0 := Sender(true, state, sendptr, sendlen);
      ghost var all := Wait(s0, msg, now);
      assert [] + all.1 == all.1;
      while sendlen > 0
        invariant sendptr + sendlen == |msg| && Progresses(Sender(true, state, sendptr, sendlen), now)
        invariant sendlen == 0 ==> all == (IDLE, calls, true)
        invariant sendlen > 0 ==>
          var (s, more, ended) := Wait(Sender(true, state, sendptr, sendlen), msg, now);
          all == (s, calls + more, ended)
        decreases sendlen
      {
        WaitRound(Sender(true, state, sendptr, sendlen), msg, now);
        lc := true;
        var acked := DataAcked(now);
        var sent, more := SendData(msg, now);
        ghost var sofar := calls;
        calls := calls + more;
        if !(acked && sent) {
          return false, calls;
        }
        if sendlen > 0 {
          var (_, later, _) := Wait(Sender(true, state, sendptr, sendlen), msg, now);
          assert sofar + (more + later) == calls + later;
        }
      }
      state := StateNone;
      lc := false;
      ended := true;
    }
  }
}
