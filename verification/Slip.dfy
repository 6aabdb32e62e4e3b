/**
 * SLIP framing (src/slipdev.c): the encoder `slipdev_send` and the resumable
 * decoder `slipdev_poll`, with the framing of RFC 1055.
 */
module Slip {
  import opened Bytes
  import opened Common

  const SLIP_END: byte := 0xC0
  const SLIP_ESC: byte := 0xDB
  const SLIP_ESC_END: byte := 0xDC
  const SLIP_ESC_ESC: byte := 0xDD

  // ---------------------------------------------------------------- encoding

  function Stuff(c: byte): seq<byte> {
    if c == SLIP_END then [SLIP_ESC, SLIP_ESC_END]
    else if c == SLIP_ESC then [SLIP_ESC, SLIP_ESC_ESC]
    else [c]
  }

  function StuffAll(packet: seq<byte>): seq<byte> {
    if packet == [] then [] else StuffAll(packet[..|packet| - 1]) + Stuff(packet[|packet| - 1])
  }

  function Encode(packet: seq<byte>): seq<byte> {
    [SLIP_END] + StuffAll(packet) + [SLIP_END]
  }

  function EncodeAll(packets: seq<seq<byte>>): seq<byte> {
    if packets == [] then [] else Encode(packets[0]) + EncodeAll(packets[1..])
  }

  /** The codes of RFC 1055: END is 192, ESC 219, and behind an ESC 220 stands for END and 221 for ESC. */
  lemma FramingCodes(packet: seq<byte>, c: byte)
    ensures Encode(packet)[0] == 192 && Encode(packet)[|Encode(packet)| - 1] == 192
    ensures StuffAll(packet + [192]) == StuffAll(packet) + [219, 220]
    ensures StuffAll(packet + [219]) == StuffAll(packet) + [219, 221]
    ensures c != 192 && c != 219 ==> StuffAll(packet + [c]) == StuffAll(packet) + [c]
  {
    assert forall b: byte :: (packet + [b])[..|packet|] == packet && (packet + [b])[|packet|] == b;
  }

  // ---------------------------------------------------------------- decoding

  /** What `slipdev_poll` keeps between calls: slip_buf[..len] and the last byte read. */
  datatype Decoder = Decoder(frame: seq<byte>, lastc: byte) {
    predicate Valid() {
      |frame| <= UIP_BUFSIZE
    }
  }

  /** The byte stored for `c`, given the byte before it. */
  function Unstuff(lastc: byte, c: byte): byte {
    if lastc == SLIP_ESC && c == SLIP_ESC_END then SLIP_END
    else if lastc == SLIP_ESC && c == SLIP_ESC_ESC then SLIP_ESC
    else c
  }

  /** The decoder after one byte. */
  function Feed(d: Decoder, c: byte): (d': Decoder)
    ensures d.Valid() ==> d'.Valid()
  {
    if c == SLIP_ESC then d.(lastc := c)
    else if c == SLIP_END then Decoder([], c)
    else
      var frame := d.frame + [Unstuff(d.lastc, c)];
      Decoder(if |frame| > UIP_BUFSIZE then [] else frame, c)
  }

  function FeedAll(d: Decoder, bytes: seq<byte>): Decoder
    decreases |bytes|
  {
    if bytes == [] then d else FeedAll(Feed(d, bytes[0]), bytes[1..])
  }

  /** The frames that the END bytes in `bytes` close, empty ones included. */
  function Frames(d: Decoder, bytes: seq<byte>): seq<seq<byte>>
    decreases |bytes|
  {
    if bytes == [] then []
    else (if bytes[0] == SLIP_END then [d.frame] else []) + Frames(Feed(d, bytes[0]), bytes[1..])
  }

  function NonEmpty(frames: seq<seq<byte>>): seq<seq<byte>> {
    if frames == [] then []
    else (if frames[0] == [] then [] else [frames[0]]) + NonEmpty(frames[1..])
  }

  lemma {:induction false} FramesConcat(d: Decoder, a: seq<byte>, b: seq<byte>)
    ensures Frames(d, a + b) == Frames(d, a) + Frames(FeedAll(d, a), b)
    ensures FeedAll(d, a + b) == FeedAll(FeedAll(d, a), b)
    decreases |a|
  {
    if a == [] {
      assert a + b == b;
    } else {
      assert (a + b)[1..] == a[1..] + b;
      FramesConcat(Feed(d, a[0]), a[1..], b);
    }
  }

  lemma {:induction false} NonEmptyConcat(a: seq<seq<byte>>, b: seq<seq<byte>>)
    ensures NonEmpty(a + b) == NonEmpty(a) + NonEmpty(b)
  {
    if a == [] {
      assert a + b == b;
    } else {
      assert (a + b)[1..] == a[1..] + b;
      NonEmptyConcat(a[1..], b);
    }
  }

  lemma NonEmptyOne(frame: seq<byte>)
    ensures NonEmpty([frame]) == if frame == [] then [] else [frame]
  {
  }

  /**
   * What arrives of a packet: all of it, or, of one too long for the buffer,
   * what follows the last time that was full.
   */
  function Tail(packet: seq<byte>): seq<byte> {
    packet[|packet| - |packet| % (UIP_BUFSIZE + 1)..]
  }

  lemma TailIsWholeIff(packet: seq<byte>)
    ensures Tail(packet) == packet <==> |packet| <= UIP_BUFSIZE
  {
    assert |Tail(packet)| == |packet| % (UIP_BUFSIZE + 1);
  }

  lemma TailOfOneMore(packet: seq<byte>)
    requires packet != []
    ensures var before := Tail(packet[..|packet| - 1]);
      Tail(packet) == if |before| == UIP_BUFSIZE then [] else before + [packet[|packet| - 1]]
  {
    var n := |packet| - 1;
    assert (n + 1) % (UIP_BUFSIZE + 1) == if n % (UIP_BUFSIZE + 1) == UIP_BUFSIZE then 0 else n % (UIP_BUFSIZE + 1) + 1;
  }

  /** Feeding the stuffed form of a byte appends the byte, or empties a full buffer, and closes no frame. */
  lemma FeedStuffed(d: Decoder, c: byte)
    requires d.Valid() && d.lastc != SLIP_ESC
    ensures Frames(d, Stuff(c)) == [] && FeedAll(d, Stuff(c)).lastc != SLIP_ESC
    ensures FeedAll(d, Stuff(c)).frame == if |d.frame| == UIP_BUFSIZE then [] else d.frame + [c]
  {
    if c == SLIP_END || c == SLIP_ESC {
      var second := if c == SLIP_END then SLIP_ESC_END else SLIP_ESC_ESC;
      var mid := Feed(d, SLIP_ESC);
      assert Stuff(c)[1..] == [second] && Stuff(c)[1..][1..] == [];
      assert FeedAll(mid, [second]) == FeedAll(Feed(mid, second), []);
      assert Frames(mid, [second]) == Frames(Feed(mid, second), []);
    } else {
      assert Stuff(c)[1..] == [];
    }
  }

  lemma {:induction false} FeedStuffedAll(d: Decoder, packet: seq<byte>)
    requires d.frame == [] && d.lastc != SLIP_ESC
    ensures Frames(d, StuffAll(packet)) == []
    ensures FeedAll(d, StuffAll(packet)).frame == Tail(packet) && FeedAll(d, StuffAll(packet)).lastc != SLIP_ESC
  {
    if packet != [] {
      var front, c := packet[..|packet| - 1], packet[|packet| - 1];
      FeedStuffedAll(d, front);
      TailOfOneMore(packet);
      FramesConcat(d, StuffAll(front), Stuff(c));
      FeedStuffed(FeedAll(d, StuffAll(front)), c);
    }
  }

  /**
   * Resynchronisation: whatever noise left in the decoder, the leading END
   * flushes it. The packet that follows is decoded intact if and only if it fits
   * the buffer; of a longer one the tail is taken for a packet.
   */
  lemma EncodedFrameDecodes(d: Decoder, packet: seq<byte>)
    ensures Frames(d, Encode(packet)) == [d.frame, Tail(packet)]
    ensures Tail(packet) == packet <==> |packet| <= UIP_BUFSIZE
    ensures FeedAll(d, Encode(packet)) == Decoder([], SLIP_END)
  {
    var start, body, stop := [SLIP_END], StuffAll(packet), [SLIP_END];
    var clean := Feed(d, SLIP_END);
    FeedStuffedAll(clean, packet);
    TailIsWholeIff(packet);
    hide Tail;
    var full := FeedAll(clean, body);
    assert start[1..] == [];
    assert FeedAll(d, start) == FeedAll(clean, []) && Frames(d, start) == [d.frame] + Frames(clean, []);
    assert FeedAll(full, stop) == FeedAll(Feed(full, SLIP_END), []);
    assert Frames(full, stop) == [Tail(packet)] + Frames(Feed(full, SLIP_END), []);
    FramesConcat(d, start, body);
    FramesConcat(d, start + body, stop);
  }

  lemma FrameLength(d: Decoder, packet: seq<byte>)
    requires d.frame == [] && d.lastc != SLIP_ESC
    ensures |FeedAll(d, StuffAll(packet)).frame| == |packet| % (UIP_BUFSIZE + 1)
  {
    hide FeedAll, StuffAll;
    FeedStuffedAll(d, packet);
  }

  /**
   * A byte is stored at slip_buf[UIP_BUFSIZE], one past the array, if and only
   * if a packet longer than the buffer is on its way.
   */
  lemma StoresPastBufferIff(d: Decoder, packet: seq<byte>)
    requires d.frame == [] && d.lastc != SLIP_ESC
    ensures (exists n :: 0 <= n < |packet| && |FeedAll(d, StuffAll(packet[..n])).frame| == UIP_BUFSIZE)
       <==> |packet| > UIP_BUFSIZE
  {
    hide FeedAll, StuffAll, Tail;
    forall n | 0 <= n < |packet|
      ensures |FeedAll(d, StuffAll(packet[..n])).frame| == n % (UIP_BUFSIZE + 1)
    {
      FrameLength(d, packet[..n]);
    }
    if |packet| > UIP_BUFSIZE {
      assert |FeedAll(d, StuffAll(packet[..UIP_BUFSIZE])).frame| == UIP_BUFSIZE;
    }
  }

  /** The first of several encoded packets. */
  lemma FirstPacketDecodes(d: Decoder, packets: seq<seq<byte>>)
    requires packets != [] && 0 < |packets[0]| <= UIP_BUFSIZE
    ensures NonEmpty(Frames(d, EncodeAll(packets)))
         == NonEmpty([d.frame]) + [packets[0]] + NonEmpty(Frames(Decoder([], SLIP_END), EncodeAll(packets[1..])))
  {
    hide Tail, Encode, Frames, FeedAll;
    var p, rest := packets[0], EncodeAll(packets[1..]);
    EncodedFrameDecodes(d, p);
    FramesConcat(d, Encode(p), rest);
    hide NonEmpty, EncodeAll;
    NonEmptyConcat([d.frame, p], Frames(Decoder([], SLIP_END), rest));
    assert [d.frame, p] == [d.frame] + [p];
    NonEmptyConcat([d.frame], [p]);
    NonEmptyOne(p);
  }

  lemma RegroupPackets(a: seq<seq<byte>>, b: seq<byte>, c: seq<seq<byte>>)
    ensures a + [b] + c == a + ([b] + c)
    ensures a == [] ==> a + ([b] + c) == [b] + c
  {
  }

  /** Encoded packets, one after the other, decode to the same packets after any pending noise. */
  lemma {:induction false} EncodedPacketsDecode(d: Decoder, packets: seq<seq<byte>>)
    requires forall i :: 0 <= i < |packets| ==> 0 < |packets[i]| <= UIP_BUFSIZE
    ensures packets != [] ==> NonEmpty(Frames(d, EncodeAll(packets))) == NonEmpty([d.frame]) + packets
    ensures d.frame == [] ==> NonEmpty(Frames(d, EncodeAll(packets))) == packets
    decreases |packets|
  {
    if packets != [] {
      hide Frames, EncodeAll, NonEmpty;
      var rest := packets[1..];
      FirstPacketDecodes(d, packets);
      EncodedPacketsDecode(Decoder([], SLIP_END), rest);
      NonEmptyOne(d.frame);
      assert packets == [packets[0]] + rest;
      RegroupPackets(NonEmpty([d.frame]), packets[0], rest);
    }
  }

  // ------------------------------------------------------------ poll by poll

  /** One call of `slipdev_poll`: the new decoder, the bytes left unread, and the packet returned ([] for 0). */
  function Poll(d: Decoder, rx: seq<byte>): (Decoder, seq<byte>, seq<byte>)
    decreases |rx|
  {
    if rx == [] then (d, [], [])
    else if rx[0] == SLIP_END then (Feed(d, SLIP_END), rx[1..], d.frame)
    else Poll(Feed(d, rx[0]), rx[1..])
  }

  /** What happens around the decoder: bytes arrive from the interrupt, or the main loop polls. */
  datatype Action = Arrive(bytes: seq<byte>) | PollOnce

  function Arrived(actions: seq<Action>): seq<byte> {
    if actions == [] then []
    else (match actions[0] case Arrive(b) => b case PollOnce => []) + Arrived(actions[1..])
  }

  /** The packets that the polls of a session return with a non-zero length, and the state at its end. */
  function Session(d: Decoder, rx: seq<byte>, actions: seq<Action>): (Decoder, seq<byte>, seq<seq<byte>>)
    decreases |actions|
  {
    if actions == [] then (d, rx, [])
    else
      match actions[0]
      case Arrive(b) => Session(d, rx + b, actions[1..])
      case PollOnce =>
        var (d1, rx1, packet) := Poll(d, rx);
        var (d2, rx2, packets) := Session(d1, rx1, actions[1..]);
        (d2, rx2, NonEmpty([packet]) + packets)
  }

  lemma {:induction false} PollTakesFirstFrame(d: Decoder, rx: seq<byte>, later: seq<byte>)
    ensures var (d', rx', packet) := Poll(d, rx);
      NonEmpty(Frames(d, rx + later)) == NonEmpty([packet]) + NonEmpty(Frames(d', rx' + later))
    decreases |rx|
  {
    if rx == [] {
      NonEmptyOne([]);
      assert rx + later == later;
    } else {
      assert (rx + later)[1..] == rx[1..] + later;
      if rx[0] == SLIP_END {
        NonEmptyConcat([d.frame], Frames(Feed(d, SLIP_END), rx[1..] + later));
      } else {
        PollTakesFirstFrame(Feed(d, rx[0]), rx[1..], later);
        assert Frames(d, rx + later) == Frames(Feed(d, rx[0]), rx[1..] + later);
      }
    }
  }

  /** No schedule of arrivals and polls loses, repeats or reorders a frame. */
  lemma {:induction false} SessionConservesFrames(d: Decoder, rx: seq<byte>, actions: seq<Action>)
    ensures var (d', rx', packets) := Session(d, rx, actions);
      packets + NonEmpty(Frames(d', rx')) == NonEmpty(Frames(d, rx + Arrived(actions)))
    decreases |actions|
  {
    if actions == [] {
      assert rx + [] == rx;
    } else {
      var rest := actions[1..];
      match actions[0]
      case Arrive(b) =>
        SessionConservesFrames(d, rx + b, rest);
        assert rx + (b + Arrived(rest)) == rx + b + Arrived(rest);
      case PollOnce =>
        var (d1, rx1, packet) := Poll(d, rx);
        var (d2, rx2, packets) := Session(d1, rx1, rest);
        SessionConservesFrames(d1, rx1, rest);
        PollTakesFirstFrame(d, rx, Arrived(rest));
        assert Arrived(actions) == Arrived(rest);
        assert NonEmpty([packet]) + packets + NonEmpty(Frames(d2, rx2)) ==
               NonEmpty([packet]) + (packets + NonEmpty(Frames(d2, rx2)));
    }
  }

  /**
   * Round trip: packets sent back to back, arriving in pieces of any size
   * between any number of polls, are returned exactly once, in order, by the
   * time the input is used up; at any earlier time a prefix has been returned.
   */
  lemma SlipRoundTrip(packets: seq<seq<byte>>, lastc: byte, actions: seq<Action>)
    requires forall i :: 0 <= i < |packets| ==> 0 < |packets[i]| <= UIP_BUFSIZE
    requires Arrived(actions) == EncodeAll(packets)
    ensures var (d, rx, returned) := Session(Decoder([], lastc), [], actions);
      returned <= packets && (rx == [] ==> returned == packets)
  {
    var d0 := Decoder([], lastc);
    SessionConservesFrames(d0, [], actions);
    assert [] + Arrived(actions) == EncodeAll(packets);
    EncodedPacketsDecode(d0, packets);
    var (d, rx, returned) := Session(d0, [], actions);
    assert packets == returned + NonEmpty(Frames(d, rx));
  }

  // -------------------------------------------------------------- the device

  /** The static variables of slipdev.c, between the two serial rings. */
  class Slipdev {
    var tx: seq<byte>  // written with scif_write
    var rx: seq<byte>  // to be read with scif_read
    const slipBuf: array<byte>
    const uipBuf: array<byte>
    var len: uint16
    var lastc: byte

    ghost predicate Valid()
      reads this, slipBuf
    {
      // The code stores at slip_buf[UIP_BUFSIZE], one past the array it
      // declares, before it discards an overlong frame; here that byte exists.
      && slipBuf.Length == UIP_BUFSIZE + 1
      && uipBuf.Length == UIP_BUFSIZE + 2
      && slipBuf != uipBuf
      && len <= UIP_BUFSIZE
    }

    ghost function State(): Decoder
      reads this, slipBuf
      requires Valid()
    {
      Decoder(slipBuf[..len], lastc)
    }

    constructor ()
      ensures Valid() && fresh(slipBuf) && fresh(uipBuf)
      ensures State() == Decoder([], 0) && tx == [] && rx == []
    {
      slipBuf := new byte[UIP_BUFSIZE + 1];
      uipBuf := new byte[UIP_BUFSIZE + 2];
      tx, rx := [], [];
      len, lastc := 0, 0;
    }

    /** `slipdev_char_put` */
    method CharPut(c: byte)
      modifies this`tx
      ensures tx == old(tx) + [c]
    {
      tx := tx + [c];
    }

    /** `slipdev_send`: the first `uipLen` bytes of uip_buf as one frame. */
    method Send(uipLen: uint16)
      requires Valid() && uipLen <= uipBuf.Length
      modifies this`tx
      ensures Valid() && State() == old(State())
      ensures tx == old(tx) + Encode(uipBuf[..uipLen])
    {
      CharPut(SLIP_END);
      for i := 0 to uipLen
        invariant tx == old(tx) + [SLIP_END] + StuffAll(uipBuf[..i])
      {
        var c := uipBuf[i];
        if c == SLIP_END {
          CharPut(SLIP_ESC);
          CharPut(SLIP_ESC_END);
        } else if c == SLIP_ESC {
          CharPut(SLIP_ESC);
          CharPut(SLIP_ESC_ESC);
        } else {
          CharPut(c);
        }
        assert uipBuf[..i + 1] == uipBuf[..i] + [c];
        assert tx == old(tx) + [SLIP_END] + (StuffAll(uipBuf[..i]) + Stuff(c));
      }
      CharPut(SLIP_END);
    }

    /** `slipdev_poll`: reads up to the next END; the packet is left in uip_buf. */
    method PollPacket() returns (uipLen: uint16)
      requires Valid()
      modifies this, slipBuf, uipBuf
      ensures Valid() && tx == old(tx)
      ensures uipLen <= UIP_BUFSIZE
      ensures (State(), rx, uipBuf[..uipLen]) == Poll(old(State()), old(rx))
    {
      while rx != []
        invariant Valid() && tx == old(tx)
        invariant Poll(State(), rx) == Poll(old(State()), old(rx))
        decreases |rx|
      {
        ghost var before, input := State(), rx;
        var c := rx[0];
        rx := rx[1..];
        if c == SLIP_ESC {
          lastc := c;
        } else if c == SLIP_END {
          lastc := c;
          forall i | 0 <= i < len {
            uipBuf[i] := slipBuf[i];
          }
          assert uipBuf[..len] == slipBuf[..len];
          uipLen := len;
          len := 0;
          assert State() == Feed(before, c) && uipBuf[..uipLen] == before.frame;
          return;
        } else {
          var stored := c;
          if lastc == SLIP_ESC {
            if c == SLIP_ESC_END {
              stored := SLIP_END;
            } else if c == SLIP_ESC_ESC {
              stored := SLIP_ESC;
            }
          }
          lastc := c;
          slipBuf[len] := stored;
          len := len + 1;
          assert slipBuf[..len] == before.frame + [stored];
          if len > UIP_BUFSIZE {
            len := 0;
          }
        }
        assert State() == Feed(before, c);
      }
      uipLen := 0;
    }
  }
}
