/**
 * Packets as byte strings: the fields that src/uip/uip.c reads and writes
 * (sections 3.1 of RFC 791 and RFC 793), the two checksums over them, and the
 * in-place updates that keep those checksums.
 */
module PacketFormat {
  import opened Bytes
  import opened Common
  import opened SequenceNumbers
  import opened Tcp
  import opened Checksum

  const UIP_PROTO_ICMP := 1
  const UIP_PROTO_TCP := 6
  const UIP_TTL := 64
  const UIP_IPH_LEN := 20
  const ICMP_ECHO := 8
  const ICMP_ECHO_REPLY := 0
  const ICMP_TE := 11

  // offsets into the packet
  const VHL := 0
  const TOS := 1
  const LEN := 2
  const IPID := 4
  const IPOFFSET := 6
  const TTL := 8
  const PROTO := 9
  const IPCHKSUM := 10
  const SRCIPADDR := 12
  const DESTIPADDR := 16
  const SRCPORT := 20
  const DESTPORT := 22
  const SEQNO := 24
  const ACKNO := 28
  const TCPOFFSET := 32
  const FLAGS := 33
  const WND := 34
  const TCPCHKSUM := 36
  const URGP := 38
  const OPTDATA := 40
  const ICMPTYPE := 20
  const ICMPCHKSUM := 22

  function SetWord(p: seq<byte>, k: nat, w: uint16): (r: seq<byte>)
    requires k + 1 < |p|
    ensures |r| == |p| && WordAt(r, k) == w
  {
    p[k := Hi(w)][k + 1 := Lo(w)]
  }

  lemma SetWordElsewhere(p: seq<byte>, k: nat, w: uint16)
    requires k + 1 < |p|
    ensures forall i :: 0 <= i < |p| && i != k && i != k + 1 ==> SetWord(p, k, w)[i] == p[i]
  {
  }

  lemma SameWord(p: seq<byte>, q: seq<byte>, k: nat)
    requires k + 1 < |p| && k + 1 < |q| && WordAt(p, k) == WordAt(q, k)
    ensures p[k] == q[k] && p[k + 1] == q[k + 1]
  {
  }

  /** The same for the sum over a part of the packet that holds the word. */
  lemma SetWordSum(p: seq<byte>, k: nat, w: uint16, lo: nat, hi: nat)
    requires lo <= k && k + 1 < hi <= |p| && (k - lo) % 2 == 0
    ensures WordSum(SetWord(p, k, w)[lo..hi]) == WordSum(p[lo..hi]) + w - WordAt(p, k)
  {
    hide WordSum, Word;
    var d, d' := p[lo..hi], SetWord(p, k, w)[lo..hi];
    assert d'[..k - lo] == d[..k - lo] && d'[k - lo + 2..] == d[k - lo + 2..];
    ReplaceWord(d, d', k - lo);
  }

  // ------------------------------------------------------------------ fields

  function SeqAt(p: seq<byte>, k: nat): Seq4
    requires k + 3 < |p|
  {
    Seq4(p[k], p[k + 1], p[k + 2], p[k + 3])
  }

  function AddrAt(p: seq<byte>, k: nat): Addr
    requires k + 3 < |p|
  {
    (WordAt(p, k), WordAt(p, k + 2))
  }

  predicate Bit(f: byte, b: nat)
    requires b > 0
  {
    f / b % 2 == 1
  }

  /** The flag bits FIN, SYN, RST, PSH and ACK. */
  function FlagByte(fin: bool, syn: bool, rst: bool, psh: bool, ack: bool): (f: byte)
    ensures Bit(f, 1) == fin && Bit(f, 2) == syn && Bit(f, 4) == rst
    ensures Bit(f, 8) == psh && Bit(f, 16) == ack && !Bit(f, 32)
  {
    (if fin then 1 else 0) + (if syn then 2 else 0) + (if rst then 4 else 0) + (if psh then 8 else 0)
    + (if ack then 16 else 0)
  }

  /** The length of the TCP header, in bytes. */
  function HeaderLen(p: seq<byte>): nat
    requires |p| > TCPOFFSET
  {
    p[TCPOFFSET] / 16 * 4
  }

  /** The packet is long enough for its headers, and the buffer for the packet. */
  predicate WellFormed(p: seq<byte>) {
    && |p| == UIP_BUFSIZE + 2
    && HeaderLen(p) >= 20
    && UIP_IPH_LEN + HeaderLen(p) <= WordAt(p, LEN) <= UIP_BUFSIZE
  }

  /** The length the input code computes for the data, in 16 bits. */
  function ShownLen(p: seq<byte>): nat
    requires |p| == UIP_BUFSIZE + 2
  {
    (WordAt(p, LEN) + 0x1_0000 - HeaderLen(p) - UIP_IPH_LEN) % 0x1_0000
  }

  /**
   * What the application is shown lies in the received packet if and only if the
   * header length is at least that of a header without options and stays within
   * the packet, or nothing is shown.
   */
  lemma ShownInsideIff(p: seq<byte>)
    requires |p| == UIP_BUFSIZE + 2 && WordAt(p, LEN) <= UIP_BUFSIZE
    ensures (ShownLen(p) == 0 || OPTDATA + ShownLen(p) <= WordAt(p, LEN))
       <==> (UIP_IPH_LEN + HeaderLen(p) == WordAt(p, LEN) || 20 <= HeaderLen(p) <= WordAt(p, LEN) - UIP_IPH_LEN)
  {
    var n := WordAt(p, LEN) - UIP_IPH_LEN - HeaderLen(p);
    assert ShownLen(p) == if n >= 0 then n else n + 0x1_0000;
  }

  /**
   * The segment as the input code takes it out of the buffer. The data is
   * looked for at a fixed offset behind a header without options, whatever the
   * header length. Memory behind the buffer is not part of it.
   */
  function Parse(p: seq<byte>): Segment
    requires |p| == UIP_BUFSIZE + 2
  {
    var f := p[FLAGS];
    var n := if OPTDATA + ShownLen(p) <= |p| then ShownLen(p) else |p| - OPTDATA;
    var mss :=
      if HeaderLen(p) > 20 && p[OPTDATA] == 2 && p[OPTDATA + 1] == 4 then Some(WordAt(p, OPTDATA + 2)) else None;
    Segment(Bit(f, 1), Bit(f, 2), Bit(f, 4), Bit(f, 8), Bit(f, 16), SeqAt(p, SEQNO), SeqAt(p, ACKNO), WordAt(p, WND),
            mss, p[OPTDATA..OPTDATA + n])
  }

  /** The data of the segment, where section 3.1 of RFC 793 has it. */
  function Data(p: seq<byte>): seq<byte>
    requires WellFormed(p)
  {
    p[UIP_IPH_LEN + HeaderLen(p)..WordAt(p, LEN)]
  }

  /** What the application is shown is the data when the header has no options, or when there is no data. */
  lemma ShownIsData(p: seq<byte>)
    requires WellFormed(p) && (HeaderLen(p) == 20 || Data(p) == [])
    ensures Parse(p).data == Data(p)
  {
  }

  /** With options in front of data it is shifted by their length. */
  lemma ShownIsShifted(p: seq<byte>, i: nat)
    requires WellFormed(p) && i < |Data(p)|
    ensures i < |Parse(p).data| && |Parse(p).data| == |Data(p)|
    ensures i + HeaderLen(p) - 20 < |Data(p)| ==> Parse(p).data[i + HeaderLen(p) - 20] == Data(p)[i]
  {
  }

  // --------------------------------------------------------------- checksums

  function IpTotal(p: seq<byte>): nat
    requires |p| >= UIP_IPH_LEN
  {
    WordSum(p[..UIP_IPH_LEN])
  }

  /** The pseudo header and the segment (section 3.1 of RFC 793). */
  function TcpTotal(p: seq<byte>): nat
    requires |p| >= UIP_IPH_LEN && UIP_IPH_LEN <= WordAt(p, LEN) <= |p|
  {
    WordAt(p, LEN) - UIP_IPH_LEN + UIP_PROTO_TCP
      + WordSum(p[SRCIPADDR..UIP_IPH_LEN]) + WordSum(p[UIP_IPH_LEN..WordAt(p, LEN)])
  }

  /**
   * The checks of the IP header on the way to the TCP input code, for a packet
   * of `len` bytes received by `host`. A host without an address takes any
   * destination for its own.
   */
  predicate IpAccepted(p: seq<byte>, len: nat, host: Addr)
    requires |p| == UIP_BUFSIZE + 2
  {
    && p[VHL] == 0x45
    && WordAt(p, LEN) <= len
    && p[IPOFFSET] % 64 == 0 && p[IPOFFSET + 1] == 0
    && (host == (0, 0) || AddrAt(p, DESTIPADDR) == host)
    && Reported(IpTotal(p)) == 0xffff
    && p[PROTO] == UIP_PROTO_TCP
  }

  /** All the checks, with that of the TCP checksum. */
  predicate Accepted(p: seq<byte>, len: nat, host: Addr)
    requires |p| == UIP_BUFSIZE + 2
  {
    && IpAccepted(p, len, host)
    && UIP_IPH_LEN <= WordAt(p, LEN) <= UIP_BUFSIZE && Reported(TcpTotal(p)) == 0xffff
  }

  /** Replacing a word of the segment other than by changing the length. */
  lemma TcpTotalSet(p: seq<byte>, k: nat, w: uint16)
    requires |p| >= UIP_TCPIP_HLEN && UIP_TCPIP_HLEN <= WordAt(p, LEN) <= |p|
    requires SRCPORT <= k && k + 1 < WordAt(p, LEN) && k % 2 == 0
    ensures WordAt(SetWord(p, k, w), LEN) == WordAt(p, LEN)
    ensures TcpTotal(SetWord(p, k, w)) == TcpTotal(p) + w - WordAt(p, k)
  {
    hide WordSum, SetWord, Word;
    SetWordElsewhere(p, k, w);
    SetWordSum(p, k, w, UIP_IPH_LEN, WordAt(p, LEN));
    assert SetWord(p, k, w)[SRCIPADDR..UIP_IPH_LEN] == p[SRCIPADDR..UIP_IPH_LEN];
  }

  /** Filling in the TCP checksum, over a field that is zero, makes the test succeed. */
  lemma TcpChecksumCompletes(p: seq<byte>)
    requires |p| == UIP_BUFSIZE + 2 && UIP_TCPIP_HLEN <= WordAt(p, LEN) <= |p| && WordAt(p, TCPCHKSUM) == 0
    ensures var q := SetWord(p, TCPCHKSUM, 0xffff - Reported(TcpTotal(p)));
      WordAt(q, LEN) == WordAt(p, LEN) && TcpTotal(q) % 65535 == 0
  {
    hide TcpTotal, Reported, SetWord, WordAt;
    TcpTotalSet(p, TCPCHKSUM, 0xffff - Reported(TcpTotal(p)));
    ComplementCompletes(TcpTotal(p));
  }

  lemma IpChecksumCompletes(p: seq<byte>)
    requires |p| >= UIP_IPH_LEN && WordAt(p, IPCHKSUM) == 0
    ensures IpTotal(SetWord(p, IPCHKSUM, 0xffff - Reported(IpTotal(p)))) % 65535 == 0
  {
    SetWordSum(p, IPCHKSUM, 0xffff - Reported(IpTotal(p)), 0, UIP_IPH_LEN);
    ComplementCompletes(IpTotal(p));
  }

  // -------------------------------------------------------------- ICMP echo

  /** Adding a constant to a checksum field, with the comparison the code uses for the end-around carry. */
  function Patched(chk: uint16, d: uint16): uint16 {
    if chk >= 0xffff - d then (chk + d + 1) % 65536 else (chk + d) % 65536
  }

  /** That is one's complement addition, except that it yields 0 where that yields 0xffff (section 3 of RFC 1624). */
  lemma PatchedIsModular(chk: uint16, d: uint16)
    ensures Patched(chk, d) % 65535 == (chk + d) % 65535
    ensures Patched(chk, d) == 0 <==> chk + d == 0xffff || chk + d == 0
  {
  }

  /** The reply to an echo request. */
  function EchoReply(p: seq<byte>, host: Addr): (r: seq<byte>)
    requires |p| > ICMPCHKSUM + 1
    ensures |r| == |p|
  {
    var p1 := p[ICMPTYPE := ICMP_ECHO_REPLY];
    var p2 := SetWord(p1, ICMPCHKSUM, Patched(WordAt(p, ICMPCHKSUM), 0x100 * ICMP_ECHO));
    var p3 := SetWord(SetWord(p2, DESTIPADDR, WordAt(p, SRCIPADDR)), DESTIPADDR + 2, WordAt(p, SRCIPADDR + 2));
    SetWord(SetWord(p3, SRCIPADDR, host.0), SRCIPADDR + 2, host.1)
  }

  /** The reply differs in the type, the checksum and the addresses only. */
  lemma EchoReplyIs(p: seq<byte>, host: Addr)
    requires |p| > ICMPCHKSUM + 1
    ensures var r := EchoReply(p, host);
      && r[ICMPTYPE] == ICMP_ECHO_REPLY && WordAt(r, ICMPCHKSUM) == Patched(WordAt(p, ICMPCHKSUM), 0x100 * ICMP_ECHO)
      && AddrAt(r, DESTIPADDR) == AddrAt(p, SRCIPADDR) && AddrAt(r, SRCIPADDR) == host
      && r[..SRCIPADDR] == p[..SRCIPADDR] && r[ICMPTYPE + 1] == p[ICMPTYPE + 1]
      && r[ICMPCHKSUM + 2..] == p[ICMPCHKSUM + 2..]
  {
    hide SetWord, Patched, Word;
    var p1, chk := p[ICMPTYPE := ICMP_ECHO_REPLY], Patched(WordAt(p, ICMPCHKSUM), 0x100 * ICMP_ECHO);
    var p2 := SetWord(p1, ICMPCHKSUM, chk);
    SetWordElsewhere(p1, ICMPCHKSUM, chk);
    var q := SetWord(p2, DESTIPADDR, WordAt(p, SRCIPADDR));
    SetWordElsewhere(p2, DESTIPADDR, WordAt(p, SRCIPADDR));
    var p3 := SetWord(q, DESTIPADDR + 2, WordAt(p, SRCIPADDR + 2));
    SetWordElsewhere(q, DESTIPADDR + 2, WordAt(p, SRCIPADDR + 2));
    var s := SetWord(p3, SRCIPADDR, host.0);
    SetWordElsewhere(p3, SRCIPADDR, host.0);
    SetWordElsewhere(s, SRCIPADDR + 2, host.1);
  }

  function IcmpTotal(p: seq<byte>, len: nat): nat
    requires UIP_IPH_LEN <= len <= |p|
  {
    WordSum(p[UIP_IPH_LEN..len])
  }

  /** The sum over the ICMP message is kept modulo 65535, so that the reply is as valid as the request. */
  lemma EchoKeepsIcmpSum(p: seq<byte>, host: Addr, len: nat)
    requires ICMPCHKSUM + 2 <= len <= |p| && p[ICMPTYPE] == ICMP_ECHO
    ensures IcmpTotal(EchoReply(p, host), len) % 65535 == IcmpTotal(p, len) % 65535
  {
    hide WordSum, EchoReply, Patched, SetWord;
    var r := EchoReply(p, host);
    EchoReplyIs(p, host);
    var chk := Patched(WordAt(p, ICMPCHKSUM), 0x100 * ICMP_ECHO);
    var q := SetWord(p, ICMPTYPE, Word(ICMP_ECHO_REPLY, p[ICMPTYPE + 1]));
    SetWordSum(p, ICMPTYPE, Word(ICMP_ECHO_REPLY, p[ICMPTYPE + 1]), UIP_IPH_LEN, len);
    SetWordSum(q, ICMPCHKSUM, chk, UIP_IPH_LEN, len);
    SetWordElsewhere(p, ICMPTYPE, Word(ICMP_ECHO_REPLY, p[ICMPTYPE + 1]));
    SetWordElsewhere(q, ICMPCHKSUM, chk);
    SameWord(r, SetWord(q, ICMPCHKSUM, chk), ICMPCHKSUM);
    SameWord(q, r, ICMPTYPE);
    assert r[UIP_IPH_LEN..len] == SetWord(q, ICMPCHKSUM, chk)[UIP_IPH_LEN..len];
    PatchedIsModular(WordAt(p, ICMPCHKSUM), 0x100 * ICMP_ECHO);
    Balance(IcmpTotal(p, len), WordAt(p, ICMPCHKSUM), chk, 0x100 * ICMP_ECHO, IcmpTotal(r, len));
  }

  lemma FourBytes(d: seq<byte>)
    requires |d| == 4
    ensures WordSum(d) == WordAt(d, 0) + WordAt(d, 2)
  {
    WordSumGrows(d, 0);
    WordSumGrows(d, 2);
    assert d[..4] == d && d[..0] == [];
  }

  /** Nothing but zeros besides type and checksum. */
  ghost predicate BlankMessage(p: seq<byte>, len: nat)
    requires ICMPCHKSUM + 2 <= len <= |p|
  {
    p[ICMPTYPE + 1] == 0 && forall i :: ICMPCHKSUM + 2 <= i < len ==> p[i] == 0
  }

  lemma BlankTotal(p: seq<byte>, len: nat)
    requires ICMPCHKSUM + 2 <= len <= |p| && BlankMessage(p, len)
    ensures IcmpTotal(p, len) == 0x100 * p[ICMPTYPE] + WordAt(p, ICMPCHKSUM)
  {
    hide WordSum;
    var head, rest := p[ICMPTYPE..ICMPCHKSUM + 2], p[ICMPCHKSUM + 2..len];
    assert p[UIP_IPH_LEN..len] == head + rest;
    ZeroSumMeansZeroBytes(rest);
    WordSumSplit(head, rest);
    FourBytes(head);
  }

  /**
   * The receiver's test on a valid request's reply fails in one case only: a
   * message that is blank, whose checksum field becomes zero as well.
   */
  lemma EchoReplyVerifiesIff(p: seq<byte>, host: Addr, len: nat)
    requires ICMPCHKSUM + 2 <= len <= |p| && p[ICMPTYPE] == ICMP_ECHO && OnesSum(IcmpTotal(p, len)) == 0xffff
    ensures OnesSum(IcmpTotal(EchoReply(p, host), len)) == 0xffff <==> !BlankMessage(p, len)
  {
    hide EchoReply, Patched, IcmpTotal;
    var r := EchoReply(p, host);
    EchoReplyIs(p, host);
    EchoKeepsIcmpSum(p, host, len);
    BlankAlike(p, r, len);
    if BlankMessage(p, len) {
      BlankTotal(p, len);
      BlankTotal(r, len);
      PatchedIsModular(WordAt(p, ICMPCHKSUM), 0x100 * ICMP_ECHO);
    } else if IcmpTotal(r, len) == 0 {
      ZeroTotal(r, len);
    }
  }

  /** Such a request exists: the shortest one, with the checksum its type calls for. */
  lemma BlankRequestFails(p: seq<byte>, host: Addr)
    requires |p| == 24 && p[ICMPTYPE..] == [ICMP_ECHO, 0, 0xf7, 0xff]
    ensures OnesSum(IcmpTotal(p, 24)) == 0xffff && OnesSum(IcmpTotal(EchoReply(p, host), 24)) == 0
  {
    hide EchoReply, IcmpTotal, Patched;
    assert p[20] == p[20..][0] && p[21] == p[20..][1] && p[22] == p[20..][2] && p[23] == p[20..][3];
    BlankTotal(p, 24);
    EchoReplyIs(p, host);
    BlankTotal(EchoReply(p, host), 24);
    PatchedIsModular(0xf7ff, 0x100 * ICMP_ECHO);
  }

  lemma BlankAlike(p: seq<byte>, r: seq<byte>, len: nat)
    requires ICMPCHKSUM + 2 <= len <= |p| == |r|
    requires r[ICMPTYPE + 1] == p[ICMPTYPE + 1] && r[ICMPCHKSUM + 2..] == p[ICMPCHKSUM + 2..]
    ensures BlankMessage(p, len) <==> BlankMessage(r, len)
  {
  }

  lemma ZeroTotal(p: seq<byte>, len: nat)
    requires ICMPCHKSUM + 2 <= len <= |p| && IcmpTotal(p, len) == 0
    ensures BlankMessage(p, len)
  {
    hide WordSum;
    ZeroSumMeansZeroBytes(p[UIP_IPH_LEN..len]);
    assert forall i :: UIP_IPH_LEN <= i < len ==> p[i] == p[UIP_IPH_LEN..len][i - UIP_IPH_LEN];
  }

  lemma IpTotalSet(p: seq<byte>, k: nat, w: uint16)
    requires |p| >= UIP_IPH_LEN && k + 1 < UIP_IPH_LEN && k % 2 == 0
    ensures IpTotal(SetWord(p, k, w)) == IpTotal(p) + w - WordAt(p, k)
    ensures forall j :: 0 <= j < |p| - 1 && (j + 1 < k || k + 1 < j) ==> WordAt(SetWord(p, k, w), j) == WordAt(p, j)
  {
    hide WordSum;
    SetWordSum(p, k, w, 0, UIP_IPH_LEN);
    assert p[0..UIP_IPH_LEN] == p[..UIP_IPH_LEN];
    assert SetWord(p, k, w)[0..UIP_IPH_LEN] == SetWord(p, k, w)[..UIP_IPH_LEN];
  }

  lemma MessageKeepsHeader(p: seq<byte>, chk: uint16)
    requires |p| > ICMPCHKSUM + 1
    ensures var q := SetWord(p[ICMPTYPE := ICMP_ECHO_REPLY], ICMPCHKSUM, chk);
      IpTotal(q) == IpTotal(p) && forall k :: 0 <= k < UIP_IPH_LEN - 1 ==> WordAt(q, k) == WordAt(p, k)
  {
    hide WordSum, Word, SetWord;
    var p1 := p[ICMPTYPE := ICMP_ECHO_REPLY];
    SetWordElsewhere(p1, ICMPCHKSUM, chk);
    assert SetWord(p1, ICMPCHKSUM, chk)[..UIP_IPH_LEN] == p[..UIP_IPH_LEN];
  }

  /** The address swap keeps the IP header sum when the request was sent to our address. */
  lemma EchoKeepsIpSum(p: seq<byte>, host: Addr)
    requires |p| > ICMPCHKSUM + 1
    ensures IpTotal(EchoReply(p, host))
         == IpTotal(p) + host.0 + host.1 - WordAt(p, DESTIPADDR) - WordAt(p, DESTIPADDR + 2)
    ensures AddrAt(p, DESTIPADDR) == host ==> IpTotal(EchoReply(p, host)) == IpTotal(p)
  {
    hide WordSum, SetWord, WordAt, Patched;
    var p2 := SetWord(p[ICMPTYPE := ICMP_ECHO_REPLY], ICMPCHKSUM, Patched(WordAt(p, ICMPCHKSUM), 0x100 * ICMP_ECHO));
    MessageKeepsHeader(p, Patched(WordAt(p, ICMPCHKSUM), 0x100 * ICMP_ECHO));
    var (s0, s1) := (WordAt(p, SRCIPADDR), WordAt(p, SRCIPADDR + 2));
    var q1 := SetWord(p2, DESTIPADDR, s0);
    var q2 := SetWord(q1, DESTIPADDR + 2, s1);
    IpTotalSet(p2, DESTIPADDR, s0);
    IpTotalSet(q1, DESTIPADDR + 2, s1);
    IpTotalSet(q2, SRCIPADDR, host.0);
    IpTotalSet(SetWord(q2, SRCIPADDR, host.0), SRCIPADDR + 2, host.1);
  }

  // -------------------------------------------------------------- forwarding

  /** A word goes down by `d` and a checksum up by `d`. */
  lemma Balance(total: nat, chk: nat, chk': nat, d: nat, total': nat)
    requires total' == total - d + chk' - chk && chk' % 65535 == (chk + d) % 65535
    ensures total' % 65535 == total % 65535
  {
  }

  lemma OneTooMuch(total: nat)
    requires total % 65535 == 0
    ensures (total + 0x10000) % 65535 == 1
  {
  }

  /** Decrement of a byte. */
  function Below(b: byte): byte {
    if b == 0 then 255 else b - 1
  }

  /** One hop: the TTL goes down by one, modulo 256, and the checksum up by 0x0100. */
  function Hop(p: seq<byte>): (r: seq<byte>)
    requires |p| >= UIP_IPH_LEN
    ensures |r| == |p|
  {
    SetWord(p[TTL := Below(p[TTL])], IPCHKSUM, Patched(WordAt(p, IPCHKSUM), 0x100))
  }

  /** The sum of a valid header stays valid exactly when there was a TTL to count down. */
  lemma HopKeepsIpSumIff(p: seq<byte>)
    requires |p| >= UIP_IPH_LEN && IpTotal(p) % 65535 == 0
    ensures IpTotal(Hop(p)) % 65535 == 0 <==> p[TTL] > 0
  {
    hide IpTotal, Hop, Patched, WordAt;
    var chk, chk' := WordAt(p, IPCHKSUM), Patched(WordAt(p, IPCHKSUM), 0x100);
    HopIpTotal(p);
    PatchedIsModular(chk, 0x100);
    if p[TTL] > 0 {
      Balance(IpTotal(p), chk, chk', 0x100, IpTotal(Hop(p)));
    } else {
      Balance(IpTotal(p) + 0x10000, chk, chk', 0x100, IpTotal(Hop(p)));
      OneTooMuch(IpTotal(p));
    }
  }

  lemma HopIpTotal(p: seq<byte>)
    requires |p| >= UIP_IPH_LEN
    ensures IpTotal(Hop(p)) == IpTotal(p) + 0x100 * (Below(p[TTL]) - p[TTL])
      + Patched(WordAt(p, IPCHKSUM), 0x100) - WordAt(p, IPCHKSUM)
  {
    hide WordSum, Patched;
    var w, chk := Word(Below(p[TTL]), p[PROTO]), Patched(WordAt(p, IPCHKSUM), 0x100);
    var q := SetWord(p, TTL, w);
    SetWordSum(p, TTL, w, 0, UIP_IPH_LEN);
    SetWordSum(q, IPCHKSUM, chk, 0, UIP_IPH_LEN);
    assert q == p[TTL := Below(p[TTL])];
    assert Hop(p) == SetWord(q, IPCHKSUM, chk);
    assert p[0..UIP_IPH_LEN] == p[..UIP_IPH_LEN];
    assert Hop(p)[0..UIP_IPH_LEN] == Hop(p)[..UIP_IPH_LEN];
  }
}
