/**
 * Two engines together: when a call of `psock_send` has ended, the peer's
 * engine has accepted the message.
 */
module PsockAgreement {
  import opened Bytes
  import opened Common
  import opened SequenceNumbers
  import opened Tcp
  import opened TcpDelivery
  import opened TcpTiling
  import opened TcpOutput
  import opened PsockSend
  import opened PsockDelivery

  /**
   * The peer sent `seg` at some point of its run. What a connection sends in
   * SYN_SENT is left out: it acknowledges whatever number its slot contains.
   */
  ghost predicate SentBy(peer: Track, events: seq<Event>, seg: Segment) {
    exists j :: 0 <= j < |events| && SentAt(Play(peer, events[..j]), events[j], seg)
  }

  ghost predicate SentAt(t: Track, e: Event, seg: Segment) {
    var out := Do(t.conn, e);
    t.conn.state != CLOSED && out.x.conn.state != SYN_SENT && out.seg == Some(seg)
  }

  /** An acknowledgment number says how much has been accepted, the FIN counting one. */
  ghost predicate Acknowledges(seg: Segment, irs: nat, stream: seq<byte>, accepted: nat, fins: nat) {
    && accepted <= |stream| && (fins == 0 || (fins == 1 && accepted == |stream|))
    && seg.ackno.Value() == (irs + 1 + accepted + fins) % TWO_32
  }

  lemma {:induction false} AcceptedGrows(peer: Track, events: seq<Event>, j: nat)
    requires j <= |events|
    ensures Play(peer, events[..j]).accepted <= Play(peer, events).accepted
  {
    hide Do;
    if j < |events| {
      var front := events[..|events| - 1];
      assert front[..j] == events[..j];
      AcceptedGrows(peer, front, j);
    } else {
      assert events[..j] == events;
    }
  }

  /** What the peer acknowledges at a step, it has accepted by then. */
  lemma StepAcknowledges(t: Track, e: Event, seg: Segment, irs: nat, stream: seq<byte>)
    requires irs < TWO_32 && |stream| < MAX_STREAM && Synced(t, irs, stream) && EventFromPeer(e, irs, stream)
    requires SentAt(t, e, seg) && !seg.rst
    ensures var t' := After(t, Do(t.conn, e)); Acknowledges(seg, irs, stream, t'.accepted, t'.fins)
  {
    hide Do, EventFromPeer;
    StepDelivers(t, e, irs, stream);
    EveryStepIsSendable(t.conn, e);
  }

  lemma RunAcknowledges(peer: Track, events: seq<Event>, seg: Segment, irs: nat, stream: seq<byte>)
    requires irs < TWO_32 && |stream| < MAX_STREAM && Synced(peer, irs, stream)
    requires forall i :: 0 <= i < |events| ==> EventFromPeer(events[i], irs, stream)
    requires SentBy(peer, events, seg) && !seg.rst
    ensures exists a, f :: 0 <= a <= Play(peer, events).accepted && 0 <= f && Acknowledges(seg, irs, stream, a, f)
  {
    hide Do, EventFromPeer, Acknowledges, Synced;
    var j :| 0 <= j < |events| && SentAt(Play(peer, events[..j]), events[j], seg);
    var before, next := events[..j], events[..j + 1];
    assert next[..|next| - 1] == before && next[|next| - 1] == events[j];
    InOrderDelivery(peer, before, irs, stream);
    StepAcknowledges(Play(peer, before), events[j], seg, irs, stream);
    AcceptedGrows(peer, events, j + 1);
    assert Play(peer, next) == After(Play(peer, before), Do(Play(peer, before).conn, events[j]));
  }

  /** An acknowledgment that ends a call means that the message has been accepted. */
  lemma AckMeansAccepted(seg: Segment, irs: nat, stream: seq<byte>, a: nat, f: nat, end: nat)
    requires |stream| < MAX_STREAM && Acknowledges(seg, irs, stream, a, f)
    requires end <= |stream| && seg.ackno.Value() == (irs + 1 + end) % TWO_32
    ensures end <= a
  {
    OffsetIsUnique(irs, 1 + a + f, 1 + end);
  }

  /** Every acknowledgment that reaches the sender comes from the peer. */
  ghost predicate AcksFromPeer(events: seq<Event>, peer: Track, arrivals: seq<Event>) {
    forall i :: 0 <= i < |events| && events[i].Arrives? && events[i].seg.ack && !events[i].seg.rst ==>
      SentBy(peer, arrivals, events[i].seg)
  }

  /** The messages whose calls have ended are within what the peer has accepted. */
  ghost predicate Received(w: World, msgs: seq<seq<byte>>, accepted: nat)
    requires w.app.k <= |msgs|
  {
    Start(msgs, w.app.k) <= accepted
  }

  /** The peer's acknowledgment of message `k`, one of the first `n`. */
  lemma MessageIsAccepted(seg: Segment, msgs: seq<seq<byte>>, k: nat, n: nat, iss: nat, peer: Track,
                          arrivals: seq<Event>)
    requires k < n <= |msgs| && iss < TWO_32 && |Sofar(msgs, n)| < MAX_STREAM && Synced(peer, iss, Sofar(msgs, n))
    requires forall i :: 0 <= i < |arrivals| ==> EventFromPeer(arrivals[i], iss, Sofar(msgs, n))
    requires SentBy(peer, arrivals, seg) && !seg.rst && seg.ackno.Value() == (iss + 1 + Start(msgs, k + 1)) % TWO_32
    ensures Start(msgs, k + 1) <= Play(peer, arrivals).accepted
  {
    hide Start, Synced, EventFromPeer, Acknowledges, Play, SentBy, Sofar;
    RunAcknowledges(peer, arrivals, seg, iss, Sofar(msgs, n));
    var a: nat, f: nat :| a <= Play(peer, arrivals).accepted && Acknowledges(seg, iss, Sofar(msgs, n), a, f);
    StartsGrow(msgs, k + 1, n);
    AckMeansAccepted(seg, iss, Sofar(msgs, n), a, f, Start(msgs, k + 1));
  }

  lemma StepAgrees(w: World, msgs: seq<seq<byte>>, e: Event, iss: nat, n: nat, peer: Track, arrivals: seq<Event>)
    requires Consistent(w, msgs) && Prepared(e) && Possible(w, msgs, e) && Counts(w.ledger, iss) && iss < TWO_32
    requires n <= |msgs| && (w.ledger.conn.state == ESTABLISHED && w.app.k < |msgs| ==> w.app.k < n)
    requires |Sofar(msgs, n)| < MAX_STREAM && Synced(peer, iss, Sofar(msgs, n))
    requires forall i :: 0 <= i < |arrivals| ==> EventFromPeer(arrivals[i], iss, Sofar(msgs, n))
    requires AcksFromPeer([e], peer, arrivals)
    requires Received(w, msgs, Play(peer, arrivals).accepted)
    ensures StepsRightly(w, msgs, e) && Received(Next(w, msgs, e), msgs, Play(peer, arrivals).accepted)
  {
    hide Do, Shows, Synced, EventFromPeer, SentBy, Consistent, Counts, Prepared, Play, Start, Sofar;
    hide Possible, Next, Result;
    hide SendsRightly, MovesOn, OutOfOrder, Fits;
    EveryEventSteps(w, msgs, e);
    ConsistentIsReady(w, msgs);
    var k := w.app.k;
    if w.ledger.conn.state == ESTABLISHED && k < |msgs| && Next(w, msgs, e).app.k > k {
      CallEndsIffAcknowledged(w, msgs, e, iss);
      AdvancesByOne(w, msgs, e);
      assert [e][0] == e;
      MessageIsAccepted(e.seg, msgs, k, n, iss, peer, arrivals);
    } else {
      StaysWhereItWas(w, msgs, e);
    }
  }

  lemma StaysWhereItWas(w: World, msgs: seq<seq<byte>>, e: Event)
    requires Consistent(w, msgs) && StepsRightly(w, msgs, e)
    requires w.ledger.conn.state == ESTABLISHED && w.app.k < |msgs| ==> Next(w, msgs, e).app.k <= w.app.k
    ensures Start(msgs, Next(w, msgs, e).app.k) == Start(msgs, w.app.k)
  {
    hide Start, Do, Shows, Fits, RunThread, SendsRightly, Answer;
  }

  lemma ConsistentIsReady(w: World, msgs: seq<seq<byte>>)
    requires Consistent(w, msgs)
    ensures w.app.k <= |msgs|
  {
  }

  lemma StartsGrow(msgs: seq<seq<byte>>, m: nat, n: nat)
    requires m <= n <= |msgs|
    ensures Start(msgs, m) <= Start(msgs, n) == |Sofar(msgs, n)|
  {
    SofarGrows(msgs, m, n);
  }

  /** Behind an acknowledged message the thread is at the next one that is not empty. */
  lemma AdvancesByOne(w: World, msgs: seq<seq<byte>>, e: Event)
    requires Consistent(w, msgs) && StepsRightly(w, msgs, e)
    requires w.ledger.conn.state == ESTABLISHED && w.app.k < |msgs| && Next(w, msgs, e).app.k > w.app.k
    ensures Start(msgs, Next(w, msgs, e).app.k) <= Start(msgs, w.app.k + 1)
  {
    hide Start, Do, Shows, Fits, RunThread, SendsRightly;
    StartNext(msgs, w.app.k);
  }

  /** The same over a run. */
  lemma {:induction false} RunAgrees(w: World, msgs: seq<seq<byte>>, events: seq<Event>, sent: seq<Segment>,
                                     w': World, iss: nat,
                                     peer: Track, arrivals: seq<Event>)
    requires Consistent(w, msgs) && Counts(w.ledger, iss) && iss < TWO_32
    requires Run(w, msgs, events, sent, w')
    requires Put(w, msgs, events) <= |msgs| && |Sofar(msgs, Put(w, msgs, events))| < MAX_STREAM
    requires Synced(peer, iss, Sofar(msgs, Put(w, msgs, events)))
    requires forall i :: 0 <= i < |arrivals| ==> EventFromPeer(arrivals[i], iss, Sofar(msgs, Put(w, msgs, events)))
    requires AcksFromPeer(events, peer, arrivals) && Received(w, msgs, Play(peer, arrivals).accepted)
    ensures Ready(w'.app, msgs) && Received(w', msgs, Play(peer, arrivals).accepted)
    decreases |events|
  {
    hide Counts, Synced, EventFromPeer, Received, Next, Result, Possible, Prepared, Fits, Play;
    if events != [] {
      var e, next := events[0], Next(w, msgs, events[0]);
      PsockSendIsReliable(w, msgs, events, sent, w', iss);
      StepAgrees(w, msgs, e, iss, Put(w, msgs, events), peer, arrivals);
      NextCounts(w, msgs, e, iss);
      var rest := if Result(w, msgs, e).seg.None? then sent else sent[1..];
      if next.ledger.conn.state == CLOSED {
        ClosedRunKeeps(next, msgs, events[1..], rest, w');
        SameStartReceived(next, w', msgs, Play(peer, arrivals).accepted);
      } else {
        RunAgrees(next, msgs, events[1..], rest, w', iss, peer, arrivals);
      }
    }
  }

  lemma SameStartReceived(w: World, w': World, msgs: seq<seq<byte>>, accepted: nat)
    requires w.app.k <= |msgs| && w'.app.k <= |msgs| && Start(msgs, w.app.k) == Start(msgs, w'.app.k)
    ensures Received(w, msgs, accepted) ==> Received(w', msgs, accepted)
  {
  }

  /** No call ends with an acknowledgment once the connection is closed. */
  lemma {:induction false} ClosedRunKeeps(w: World, msgs: seq<seq<byte>>, events: seq<Event>,
                                          sent: seq<Segment>, w': World)
    requires Consistent(w, msgs) && w.ledger.conn.state == CLOSED && Run(w, msgs, events, sent, w')
    ensures Ready(w'.app, msgs) && Start(msgs, w'.app.k) == Start(msgs, w.app.k)
    decreases |events|
  {
    hide Result, Next, Prepared, Fits, Possible, Start;
    if events != [] {
      var e := events[0];
      EveryEventSteps(w, msgs, e);
      ClosedStaysClosed(w, msgs, e);
      var rest := if Result(w, msgs, e).seg.None? then sent else sent[1..];
      ClosedRunKeeps(Next(w, msgs, e), msgs, events[1..], rest, w');
    }
  }

  /**
   * Agreement: two engines, and a network that delivers any of the segments each
   * has sent, any number of times and in any order. Whenever the calls of
   * `psock_send` on the first k messages have ended, the peer has accepted all
   * the bytes of these messages.
   */
  lemma EndedMeansReceived(w: World, msgs: seq<seq<byte>>, events: seq<Event>, sent: seq<Segment>, w': World, iss: nat,
                           peer: Track, arrivals: seq<Event>)
    requires Consistent(w, msgs) && Counts(w.ledger, iss) && iss < TWO_32
    requires Start(msgs, w.app.k) == 0 && Run(w, msgs, events, sent, w') && |Concat(msgs)| < MAX_STREAM
    requires Synced(peer, iss, []) && peer.given == [] && peer.accepted == 0 && peer.fins == 0
    requires forall i :: 0 <= i < |arrivals| && arrivals[i].Arrives? ==> arrivals[i].seg in sent
    requires AcksFromPeer(events, peer, arrivals)
    ensures Ready(w'.app, msgs) && Start(msgs, w'.app.k) <= Play(peer, arrivals).accepted
  {
    hide Counts, Run, Concat, FromPeer, Do, Play, Start;
    var n := Put(w, msgs, events);
    PsockSendIsReliable(w, msgs, events, sent, w', iss);
    SofarGrows(msgs, n, |msgs|);
    assert msgs[..|msgs|] == msgs;
    FreshPeer(peer, iss, Sofar(msgs, n));
    RunAgrees(w, msgs, events, sent, w', iss, peer, arrivals);
  }
}
