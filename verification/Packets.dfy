/**
 * The packet buffer and the code that fills it in: the output path of
 * `uip_process`, its checks on input, the ICMP echo reply, and the forwarding
 * of a packet with its TTL (src/uip/uip-fw.c). Words are stored most
 * significant byte first, which on this big-endian host is how HTONS leaves
 * them.
 */
module Packets {
  import opened Bytes
  import opened Common
  import opened SequenceNumbers
  import opened Tcp
  import opened Checksum
  import opened PacketFormat

  class PacketBuffer {
    const uipBuf: array<byte>
    var uipLen: uint16
    var ipid: uint16
    var hostaddr: Addr

    ghost predicate Valid() {
      uipBuf.Length == UIP_BUFSIZE + 2
    }

    /** The packet as a value. */
    ghost function P(): (p: seq<byte>)
      reads uipBuf
    {
      uipBuf[..]
    }

    method PutWord(k: nat, w: uint16)
      requires k + 1 < uipBuf.Length
      modifies uipBuf
      ensures P() == SetWord(old(P()), k, w) && Same(old(P()), P(), k, k + 2)
    {
      uipBuf[k] := Hi(w);
      uipBuf[k + 1] := Lo(w);
    }

    method PutSeq(k: nat, s: Seq4)
      requires k + 3 < uipBuf.Length
      modifies uipBuf
      ensures SeqAt(P(), k) == s && Same(old(P()), P(), k, k + 4)
    {
      uipBuf[k] := s.b0;
      uipBuf[k + 1] := s.b1;
      uipBuf[k + 2] := s.b2;
      uipBuf[k + 3] := s.b3;
    }

    /** `uip_ipaddr_copy` */
    method PutAddr(k: nat, a: Addr)
      requires k + 3 < uipBuf.Length
      modifies uipBuf
      ensures AddrAt(P(), k) == a && Same(old(P()), P(), k, k + 4)
    {
      hide Word, SetWord;
      PutWord(k, a.0);
      PutWord(k + 2, a.1);
    }

    /** Ports and addresses. */
    method PutEnds(srcport: uint16, destport: uint16, src: Addr, dst: Addr)
      requires Valid()
      modifies uipBuf
      ensures WordAt(P(), SRCPORT) == srcport && WordAt(P(), DESTPORT) == destport
      ensures AddrAt(P(), SRCIPADDR) == src && AddrAt(P(), DESTIPADDR) == dst
      ensures Same(old(P()), P(), SRCIPADDR, SEQNO)
    {
      hide Word, SetWord;
      PutWord(SRCPORT, srcport);
      PutWord(DESTPORT, destport);
      PutAddr(SRCIPADDR, src);
      PutAddr(DESTIPADDR, dst);
    }

    /** `uip_ipchksum` */
    method IpChksum() returns (sum: uint16)
      requires Valid()
      ensures sum == Reported(IpTotal(P()))
    {
      var sum0 := Chksum(0, uipBuf, 0, UIP_IPH_LEN);
      assert uipBuf[0..UIP_IPH_LEN] == P()[..UIP_IPH_LEN];
      sum := if sum0 == 0 then 0xffff else sum0;
    }

    /** `uip_tcpchksum` */
    method TcpChksum() returns (sum: uint16)
      requires Valid() && UIP_IPH_LEN <= WordAt(P(), LEN) <= uipBuf.Length
      ensures sum == Reported(TcpTotal(P()))
    {
      hide OnesSum, WordSum;
      var upperLayerLen := Word(uipBuf[LEN], uipBuf[LEN + 1]) - UIP_IPH_LEN;
      var sum0 := upperLayerLen + UIP_PROTO_TCP;
      var sum1 := Chksum(sum0, uipBuf, SRCIPADDR, 8);
      var sum2 := Chksum(sum1, uipBuf, UIP_IPH_LEN, upperLayerLen);
      assert uipBuf[SRCIPADDR..SRCIPADDR + 8] == P()[SRCIPADDR..UIP_IPH_LEN];
      assert uipBuf[UIP_IPH_LEN..UIP_IPH_LEN + upperLayerLen] == P()[UIP_IPH_LEN..WordAt(P(), LEN)];
      OnesSumAbsorbs(sum0 + WordSum(P()[SRCIPADDR..UIP_IPH_LEN]), WordSum(P()[UIP_IPH_LEN..WordAt(P(), LEN)]));
      sum := if sum2 == 0 then 0xffff else sum2;
    }

    /**
     * The checks between the arrival of a packet and the TCP input code. For a
     * length field below that of the IP header the code takes its TCP checksum
     * over memory behind the buffer; `beyond` is what that comes to.
     */
    method CheckInput(beyond: uint16) returns (ok: bool)
      requires Valid() && uipLen <= UIP_BUFSIZE
      modifies this`uipLen
      ensures ok <==>
        || Accepted(P(), old(uipLen), hostaddr)
        || (IpAccepted(P(), old(uipLen), hostaddr) && WordAt(P(), LEN) < UIP_IPH_LEN && beyond == 0xffff)
      ensures uipLen == if ok then WordAt(P(), LEN) else 0
    {
      ok := false;
      if uipBuf[VHL] == 0x45 && Word(uipBuf[LEN], uipBuf[LEN + 1]) <= uipLen {
        uipLen := Word(uipBuf[LEN], uipBuf[LEN + 1]);
        if uipBuf[IPOFFSET] % 64 == 0 && uipBuf[IPOFFSET + 1] == 0 {
          var dst := (Word(uipBuf[DESTIPADDR], uipBuf[DESTIPADDR + 1]),
                      Word(uipBuf[DESTIPADDR + 2], uipBuf[DESTIPADDR + 3]));
          if hostaddr == (0, 0) || dst == hostaddr {
            var sum := IpChksum();
            if sum == 0xffff && uipBuf[PROTO] == UIP_PROTO_TCP {
              var tcpsum := beyond;
              if uipLen >= UIP_IPH_LEN {
                tcpsum := TcpChksum();
              }
              ok := tcpsum == 0xffff;
            }
          }
        }
      }
      if !ok {
        uipLen := 0;
      }
    }

    // ----------------------------------------------------------------- output

    /** Labels `tcp_send_noconn` to `send`: length, TTL, checksums and the rest of the IP header. */
    method TcpSendNoconn()
      requires Valid() && UIP_TCPIP_HLEN <= uipLen <= UIP_BUFSIZE
      modifies uipBuf, this`ipid
      ensures ipid == (old(ipid) + 1) % 65536
      ensures WordAt(P(), LEN) == uipLen && P()[VHL] == 0x45 && P()[TTL] == UIP_TTL && WordAt(P(), IPID) == ipid
      ensures P()[TOS] == 0 && P()[IPOFFSET] == 0 && P()[IPOFFSET + 1] == 0 && WordAt(P(), URGP) == 0
      ensures Reported(IpTotal(P())) == 0xffff && Reported(TcpTotal(P())) == 0xffff
      ensures P()[PROTO] == old(P())[PROTO]
      ensures forall i :: (SRCIPADDR <= i < TCPCHKSUM || OPTDATA <= i < uipBuf.Length) ==> P()[i] == old(P())[i]
    {
      hide TcpTotal, IpTotal, Reported, Word;
      TcpPart();
      ghost var p := P();
      IpPart();
      SameTcpTotal(p, P());
      assert forall i :: SRCIPADDR <= i < uipBuf.Length ==> P()[i] == P()[SRCIPADDR..][i - SRCIPADDR] == p[i];
    }

    /** Up to label `ip_send_nolen`. */
    method TcpPart()
      requires Valid() && UIP_TCPIP_HLEN <= uipLen <= UIP_BUFSIZE
      modifies uipBuf
      ensures WordAt(P(), LEN) == uipLen && P()[TTL] == UIP_TTL && WordAt(P(), URGP) == 0
      ensures Reported(TcpTotal(P())) == 0xffff
      ensures P()[PROTO] == old(P())[PROTO]
      ensures forall i :: (SRCIPADDR <= i < TCPCHKSUM || OPTDATA <= i < uipBuf.Length) ==> P()[i] == old(P())[i]
    {
      hide TcpTotal, Reported, SetWord, Word;
      uipBuf[TTL] := UIP_TTL;
      PutWord(LEN, uipLen);
      PutWord(URGP, 0);
      PutWord(TCPCHKSUM, 0);
      var sum := TcpChksum();
      TcpChecksumCompletes(P());
      PutWord(TCPCHKSUM, 0xffff - sum);
      AcceptedIffMultiple(TcpTotal(P()));
    }

    /** From label `ip_send_nolen`. */
    method IpPart()
      requires Valid() && UIP_TCPIP_HLEN <= WordAt(P(), LEN) <= UIP_BUFSIZE
      modifies uipBuf, this`ipid
      ensures ipid == (old(ipid) + 1) % 65536
      ensures P()[VHL] == 0x45 && P()[TOS] == 0 && WordAt(P(), IPID) == ipid
      ensures P()[IPOFFSET] == 0 && P()[IPOFFSET + 1] == 0
      ensures Reported(IpTotal(P())) == 0xffff
      ensures P()[LEN] == old(P())[LEN] && P()[LEN + 1] == old(P())[LEN + 1] && P()[TTL] == old(P())[TTL]
      ensures P()[PROTO] == old(P())[PROTO] && P()[SRCIPADDR..] == old(P())[SRCIPADDR..]
    {
      hide IpTotal, Reported, SetWord, Word;
      uipBuf[VHL] := 0x45;
      uipBuf[TOS] := 0;
      uipBuf[IPOFFSET], uipBuf[IPOFFSET + 1] := 0, 0;
      ipid := (ipid + 1) % 65536;
      PutWord(IPID, ipid);
      PutWord(IPCHKSUM, 0);
      var sum := IpChksum();
      IpChecksumCompletes(P());
      PutWord(IPCHKSUM, 0xffff - sum);
      AcceptedIffMultiple(IpTotal(P()));
    }

    /** Label `tcp_send`, with flags, options and data already in the buffer. */
    method TcpSend(c: Conn, ghost seg: Segment)
      requires Valid() && Prepared(P(), uipLen, seg)
      requires seg == Reply(c, seg.fin, seg.syn, seg.rst, seg.psh, seg.ack, seg.data)
      modifies uipBuf, this`ipid
      ensures Holds(P(), hostaddr, c.ripaddr, c.lport, c.rport, seg) && WordAt(P(), LEN) == uipLen
    {
      hide Word, TcpTotal, IpTotal, Reported, SetWord, FlagByte, Parse, Reply;
      ghost var p0 := P();
      PutSeq(ACKNO, c.rcvNxt);
      PutSeq(SEQNO, c.sndNxt);
      uipBuf[PROTO] := UIP_PROTO_TCP;
      PutEnds(c.lport, c.rport, hostaddr, c.ripaddr);
      var wnd := if c.stopped then 0 else UIP_RECEIVE_WINDOW;
      PutWord(WND, wnd);
      ghost var p := P();
      TcpSendNoconn();
      FieldsParse(p0, p, P(), uipLen, c, seg);
    }

    /** Label `tcp_send_noopts`: no options; the data lies behind the header. */
    method TcpSendNoopts(c: Conn, fin: bool, rst: bool, psh: bool, ack: bool)
      requires Valid() && UIP_TCPIP_HLEN <= uipLen <= UIP_BUFSIZE
      modifies uipBuf, this`ipid
      ensures Holds(P(), hostaddr, c.ripaddr, c.lport, c.rport,
                    Reply(c, fin, false, rst, psh, ack, old(P()[OPTDATA..uipLen])))
      ensures WordAt(P(), LEN) == uipLen
    {
      ghost var data := P()[OPTDATA..uipLen];
      uipBuf[FLAGS] := FlagByte(fin, false, rst, psh, ack);
      uipBuf[TCPOFFSET] := 0x50;
      assert P()[OPTDATA..uipLen] == data;
      TcpSend(c, Reply(c, fin, false, rst, psh, ack, data));
    }

    /** Label `tcp_send_syn`: a SYN or SYNACK with the MSS option. */
    method TcpSendSyn(c: Conn, ack: bool)
      requires Valid()
      modifies uipBuf, this`uipLen, this`ipid
      ensures Holds(P(), hostaddr, c.ripaddr, c.lport, c.rport, Reply(c, false, true, false, false, ack, []))
      ensures uipLen == WordAt(P(), LEN) == UIP_TCPIP_HLEN + TCP_OPT_MSS_LEN
    {
      uipBuf[FLAGS] := FlagByte(false, true, false, false, ack);
      uipBuf[OPTDATA] := 2;
      uipBuf[OPTDATA + 1] := 4;
      uipBuf[OPTDATA + 2] := UIP_TCP_MSS / 256;
      uipBuf[OPTDATA + 3] := UIP_TCP_MSS % 256;
      uipLen := UIP_TCPIP_HLEN + TCP_OPT_MSS_LEN;
      uipBuf[TCPOFFSET] := 0x60;
      TcpSend(c, Reply(c, false, true, false, false, ack, []));
    }

    /** Label `reset`: the segment in the buffer is turned round, unless it is a reset itself. */
    method Reset()
      requires Valid() && P()[PROTO] == UIP_PROTO_TCP
      modifies uipBuf, this`uipLen, this`ipid
      ensures Parse(old(P())).rst ==> uipLen == 0 && P() == old(P())
      ensures !Parse(old(P())).rst ==>
        uipLen == WordAt(P(), LEN) &&
        Holds(P(), hostaddr, AddrAt(old(P()), SRCIPADDR), WordAt(old(P()), DESTPORT), WordAt(old(P()), SRCPORT),
              ResetReply(Parse(old(P()))))
    {
      hide Increment, IpTotal, TcpTotal, Reported;
      if uipBuf[FLAGS] / 4 % 2 == 1 {
        uipLen := 0;
        return;
      }
      hide Parse, FlagByte, Word, Holds, Bit;
      ghost var p0 := P();
      uipBuf[FLAGS] := FlagByte(false, false, true, false, true);
      uipLen := UIP_TCPIP_HLEN;
      uipBuf[TCPOFFSET] := 0x50;
      FlipNumbers();
      var srcport, destport := Word(uipBuf[SRCPORT], uipBuf[SRCPORT + 1]), Word(uipBuf[DESTPORT], uipBuf[DESTPORT + 1]);
      var src := (Word(uipBuf[SRCIPADDR], uipBuf[SRCIPADDR + 1]), Word(uipBuf[SRCIPADDR + 2], uipBuf[SRCIPADDR + 3]));
      PutEnds(destport, srcport, hostaddr, src);
      ghost var p := P();
      TcpSendNoconn();
      ResetHolds(p0, p, P(), hostaddr);
    }

    /** The sequence number and the acknowledgment change places, and the new acknowledgment is incremented. */
    method FlipNumbers()
      requires Valid()
      modifies uipBuf
      ensures SeqAt(P(), SEQNO) == SeqAt(old(P()), ACKNO) && SeqAt(P(), ACKNO) == Increment(SeqAt(old(P()), SEQNO))
      ensures Same(old(P()), P(), SEQNO, ACKNO + 4)
    {
      hide Increment;
      uipBuf[SEQNO + 3], uipBuf[ACKNO + 3] := uipBuf[ACKNO + 3], uipBuf[SEQNO + 3];
      uipBuf[SEQNO + 2], uipBuf[ACKNO + 2] := uipBuf[ACKNO + 2], uipBuf[SEQNO + 2];
      uipBuf[SEQNO + 1], uipBuf[ACKNO + 1] := uipBuf[ACKNO + 1], uipBuf[SEQNO + 1];
      uipBuf[SEQNO], uipBuf[ACKNO] := uipBuf[ACKNO], uipBuf[SEQNO];
      IncrementAckno();
    }

    method IncrementAckno()
      requires Valid()
      modifies uipBuf
      ensures SeqAt(P(), ACKNO) == Increment(SeqAt(old(P()), ACKNO))
      ensures Same(old(P()), P(), ACKNO, ACKNO + 4)
    {
      hide Add8;
      uipBuf[ACKNO + 3] := Add8(uipBuf[ACKNO + 3], 1);
      if uipBuf[ACKNO + 3] == 0 {
        uipBuf[ACKNO + 2] := Add8(uipBuf[ACKNO + 2], 1);
        if uipBuf[ACKNO + 2] == 0 {
          uipBuf[ACKNO + 1] := Add8(uipBuf[ACKNO + 1], 1);
          if uipBuf[ACKNO + 1] == 0 {
            uipBuf[ACKNO] := Add8(uipBuf[ACKNO], 1);
          }
        }
      }
    }

    // ------------------------------------------------------------------- ICMP

    /** ICMP input: an echo request becomes its reply in place; anything else is dropped. */
    method IcmpInput()
      requires Valid()
      modifies uipBuf, this`uipLen
      ensures old(P())[ICMPTYPE] != ICMP_ECHO ==> uipLen == 0 && P() == old(P())
      ensures old(P())[ICMPTYPE] == ICMP_ECHO ==> uipLen == old(uipLen) && P() == EchoReply(old(P()), hostaddr)
    {
      hide Patched, Word, Hi, Lo;
      if uipBuf[ICMPTYPE] != ICMP_ECHO {
        uipLen := 0;
        return;
      }
      uipBuf[ICMPTYPE] := ICMP_ECHO_REPLY;
      var chk := Patch(Word(uipBuf[ICMPCHKSUM], uipBuf[ICMPCHKSUM + 1]), 0x100 * ICMP_ECHO);
      PutWord(ICMPCHKSUM, chk);
      PutWord(DESTIPADDR, Word(uipBuf[SRCIPADDR], uipBuf[SRCIPADDR + 1]));
      PutWord(DESTIPADDR + 2, Word(uipBuf[SRCIPADDR + 2], uipBuf[SRCIPADDR + 3]));
      PutWord(SRCIPADDR, hostaddr.0);
      PutWord(SRCIPADDR + 2, hostaddr.1);
    }

    /** The update of a checksum field by comparison and addition. */
    method Patch(chk: uint16, d: uint16) returns (r: uint16)
      ensures r == Patched(chk, d)
    {
      if chk >= 0xffff - d {
        r := (chk + (d + 1)) % 65536;
      } else {
        r := (chk + d) % 65536;
      }
    }

    // ------------------------------------------------------------- forwarding

    /** `time_exceeded`: the packet is replaced by an ICMP message to its sender. */
    method TimeExceeded()
      requires Valid()
      modifies uipBuf, this`uipLen
      ensures old(P())[PROTO] == UIP_PROTO_ICMP ==> uipLen == 0 && P() == old(P())
      ensures old(P())[PROTO] != UIP_PROTO_ICMP ==> uipLen == 56 && IsTimeExceeded(old(P()), P(), hostaddr)
    {
      if uipBuf[PROTO] == UIP_PROTO_ICMP {
        uipLen := 0;
        return;
      }
      ghost var p0 := P();
      IcmpPart();
      ghost var p1 := P();
      uipLen := 56;
      TurnRound();
      ExceededHolds(p0, p1, P(), hostaddr);
    }

    /** The ICMP message: type, checksum, and the start of the packet it answers. */
    method IcmpPart()
      requires Valid()
      modifies uipBuf
      ensures P()[ICMPTYPE] == ICMP_TE && P()[ICMPTYPE + 1] == 0 && P()[28..56] == old(P())[..28]
      ensures OnesSum(IcmpTotal(P(), 56)) == 0xffff
      ensures Same(old(P()), P(), ICMPTYPE, 56)
    {
      hide WordSum, OnesSum, SetWord, Word;
      forall i | 0 <= i < 28 {
        uipBuf[28 + i] := uipBuf[i];
      }
      uipBuf[ICMPTYPE] := ICMP_TE;
      uipBuf[ICMPTYPE + 1] := 0;
      PutWord(ICMPCHKSUM, 0);
      ghost var p := P();
      var sum := Chksum(0, uipBuf, ICMPTYPE, 36);
      assert uipBuf[ICMPTYPE..ICMPTYPE + 36] == p[UIP_IPH_LEN..56];
      PutWord(ICMPCHKSUM, 0xffff - sum);
      IcmpChecksumCompletes(p);
    }

    /** The IP header of the answer. */
    method TurnRound()
      requires Valid() && uipLen == 56
      modifies uipBuf
      ensures AddrAt(P(), DESTIPADDR) == AddrAt(old(P()), SRCIPADDR) && AddrAt(P(), SRCIPADDR) == hostaddr
      ensures WordAt(P(), LEN) == 56 && P()[VHL] == 0x45 && P()[TOS] == 0 && WordAt(P(), IPOFFSET) == 0
      ensures P()[TTL] == UIP_TTL && P()[PROTO] == UIP_PROTO_ICMP && IpTotal(P()) % 65535 == 0
      ensures P()[UIP_IPH_LEN..] == old(P())[UIP_IPH_LEN..]
    {
      hide IpTotal, Reported, SetWord, Word;
      var src := (Word(uipBuf[SRCIPADDR], uipBuf[SRCIPADDR + 1]), Word(uipBuf[SRCIPADDR + 2], uipBuf[SRCIPADDR + 3]));
      PutAddr(DESTIPADDR, src);
      PutAddr(SRCIPADDR, hostaddr);
      PutWord(LEN, uipLen);
      uipBuf[VHL] := 0x45;
      uipBuf[TOS] := 0;
      PutWord(IPOFFSET, 0);
      uipBuf[TTL] := UIP_TTL;
      uipBuf[PROTO] := UIP_PROTO_ICMP;
      PutWord(IPCHKSUM, 0);
      var sum := IpChksum();
      IpChecksumCompletes(P());
      PutWord(IPCHKSUM, 0xffff - sum);
    }

    /**
     * `uip_fw_forward`, for a packet that the duplicate cache has `seen` or not:
     * whether it is for this host, and whether it is passed to the output.
     */
    method Forward(seen: bool) returns (local: bool, output: bool, ghost answer: seq<byte>)
      requires Valid()
      modifies uipBuf, this`uipLen
      ensures AddrAt(old(P()), DESTIPADDR) == hostaddr ==> local && !output && P() == old(P())
      ensures AddrAt(old(P()), DESTIPADDR) != hostaddr && seen ==> !local && !output && P() == old(P())
      ensures AddrAt(old(P()), DESTIPADDR) != hostaddr && !seen && old(P())[TTL] > 1 ==>
        !local && output == (uipLen > 0) && uipLen == old(uipLen) && P() == Hop(old(P()))
      ensures AddrAt(old(P()), DESTIPADDR) != hostaddr && !seen && old(P())[TTL] <= 1 ==>
        && local == (AddrAt(old(P()), DESTIPADDR) == (0xffff, 0xffff))
        && output == (!local && old(P())[PROTO] != UIP_PROTO_ICMP)
        && (!local && !output ==> uipLen == 0 && P() == Hop(old(P())))
        && (output ==> uipLen == 56 && IsTimeExceeded(old(P()), answer, hostaddr) && P() == Hop(answer))
      ensures output && IpTotal(old(P())) % 65535 == 0 ==> Reported(IpTotal(P())) == 0xffff
    {
      hide IpTotal, Reported, Word, SetWord;
      local, output, answer := false, false, P();
      var dst := (Word(uipBuf[DESTIPADDR], uipBuf[DESTIPADDR + 1]),
                  Word(uipBuf[DESTIPADDR + 2], uipBuf[DESTIPADDR + 3]));
      if dst == hostaddr {
        return true, false, P();
      }
      if seen {
        return;
      }
      if uipBuf[TTL] <= 1 {
        if dst == (0xffff, 0xffff) {
          return true, false, P();
        }
        TimeExceeded();
      }
      answer := P();
      CountDown();
      output := uipLen > 0;
      if IpTotal(answer) % 65535 == 0 {
        HopKeepsIpSumIff(answer);
        AcceptedIffMultiple(IpTotal(P()));
      }
    }

    /** The TTL and the checksum, in place. */
    method CountDown()
      requires Valid()
      modifies uipBuf
      ensures P() == Hop(old(P()))
    {
      hide Patched, Word, Hi, Lo;
      uipBuf[TTL] := if uipBuf[TTL] == 0 then 255 else uipBuf[TTL] - 1;
      var chk := Patch(Word(uipBuf[IPCHKSUM], uipBuf[IPCHKSUM + 1]), 0x100);
      PutWord(IPCHKSUM, chk);
    }
  }

  /** Flags, header length, options and data are in place. */
  ghost predicate Prepared(p: seq<byte>, len: nat, seg: Segment) {
    && |p| == UIP_BUFSIZE + 2 && len <= UIP_BUFSIZE
    && p[FLAGS] == FlagByte(seg.fin, seg.syn, seg.rst, seg.psh, seg.ack)
    && (if seg.syn then
          && p[TCPOFFSET] == 0x60 && len == UIP_TCPIP_HLEN + TCP_OPT_MSS_LEN && seg.data == []
          && p[OPTDATA] == 2 && p[OPTDATA + 1] == 4
          && p[OPTDATA + 2] == UIP_TCP_MSS / 256 && p[OPTDATA + 3] == UIP_TCP_MSS % 256
        else
          p[TCPOFFSET] == 0x50 && len == UIP_TCPIP_HLEN + |seg.data| && p[OPTDATA..len] == seg.data)
  }

  /** The packet carries the segment from `src` to `dst`, and the input code there would accept it as that. */
  ghost predicate Holds(p: seq<byte>, src: Addr, dst: Addr, srcport: uint16, destport: uint16, seg: Segment) {
    && WellFormed(p)
    && Parse(p) == seg
    && AddrAt(p, SRCIPADDR) == src && WordAt(p, SRCPORT) == srcport && WordAt(p, DESTPORT) == destport
    && Accepted(p, WordAt(p, LEN), dst)
  }

  /** The bytes of such a packet where sections 3.1 of RFC 791 and of RFC 793 have them. */
  lemma WireFormat(p: seq<byte>, src: Addr, dst: Addr, srcport: uint16, destport: uint16, seg: Segment)
    requires Holds(p, src, dst, srcport, destport, seg)
    ensures p[0] == 0x45 && 40 <= Word(p[2], p[3]) <= 1500 && p[6] % 64 == 0 && p[7] == 0 && p[9] == 6
    ensures (Word(p[12], p[13]), Word(p[14], p[15])) == src
    ensures dst != (0, 0) ==> (Word(p[16], p[17]), Word(p[18], p[19])) == dst
    ensures Word(p[20], p[21]) == srcport && Word(p[22], p[23]) == destport
    ensures seg.seqno == Seq4(p[24], p[25], p[26], p[27]) && seg.ackno == Seq4(p[28], p[29], p[30], p[31])
    ensures seg.fin == (p[33] % 2 == 1) && seg.syn == (p[33] / 2 % 2 == 1) && seg.rst == (p[33] / 4 % 2 == 1)
    ensures seg.psh == (p[33] / 8 % 2 == 1) && seg.ack == (p[33] / 16 % 2 == 1)
    ensures seg.wnd == Word(p[34], p[35])
    ensures p[32] / 16 == 5 ==> seg.data == p[40..Word(p[2], p[3])] && seg.mss == None
    ensures p[32] / 16 == 6 && seg.mss.Some? ==> p[40] == 2 && p[41] == 4 && seg.mss.value == Word(p[42], p[43])
  {
    hide IpTotal, TcpTotal, Reported;
  }

  /** The segment that the input code reads out of the final packet. */
  lemma FieldsParse(p0: seq<byte>, p: seq<byte>, q: seq<byte>, len: nat, c: Conn, seg: Segment)
    requires Prepared(p0, len, seg) && seg == Reply(c, seg.fin, seg.syn, seg.rst, seg.psh, seg.ack, seg.data)
    requires |p| == |q| == UIP_BUFSIZE + 2
    requires forall i :: (i == TCPOFFSET || i == FLAGS || OPTDATA <= i < |p|) ==> p[i] == p0[i]
    requires SeqAt(p, ACKNO) == c.rcvNxt && SeqAt(p, SEQNO) == c.sndNxt
    requires WordAt(p, WND) == if c.stopped then 0 else UIP_RECEIVE_WINDOW
    requires WordAt(q, LEN) == len
    requires forall i :: (SRCIPADDR <= i < TCPCHKSUM || OPTDATA <= i < |q|) ==> q[i] == p[i]
    ensures WellFormed(q) && Parse(q) == seg
  {
    assert Word(UIP_TCP_MSS / 256, UIP_TCP_MSS % 256) == UIP_TCP_MSS;
    hide FlagByte, Bit, Word;
    if !seg.syn {
      assert q[OPTDATA..len] == p0[OPTDATA..len];
    }
  }

  lemma ResetHolds(p0: seq<byte>, p: seq<byte>, q: seq<byte>, host: Addr)
    requires |p0| == |p| == |q| == UIP_BUFSIZE + 2
    requires p[FLAGS] == FlagByte(false, false, true, false, true) && p[TCPOFFSET] == 0x50 && p[PROTO] == UIP_PROTO_TCP
    requires SeqAt(p, SEQNO) == SeqAt(p0, ACKNO) && SeqAt(p, ACKNO) == Increment(SeqAt(p0, SEQNO))
    requires WordAt(p, WND) == WordAt(p0, WND)
    requires AddrAt(p, SRCIPADDR) == host && AddrAt(p, DESTIPADDR) == AddrAt(p0, SRCIPADDR)
    requires WordAt(p, SRCPORT) == WordAt(p0, DESTPORT) && WordAt(p, DESTPORT) == WordAt(p0, SRCPORT)
    requires q[VHL] == 0x45 && q[PROTO] == p[PROTO] && WordAt(q, LEN) == UIP_TCPIP_HLEN
    requires q[IPOFFSET] == 0 && q[IPOFFSET + 1] == 0
    requires Reported(IpTotal(q)) == 0xffff && Reported(TcpTotal(q)) == 0xffff
    requires forall i :: (SRCIPADDR <= i < TCPCHKSUM || OPTDATA <= i < |q|) ==> q[i] == p[i]
    ensures Holds(q, host, AddrAt(p0, SRCIPADDR), WordAt(p0, DESTPORT), WordAt(p0, SRCPORT), ResetReply(Parse(p0)))
  {
    hide TcpTotal, IpTotal, Reported, Increment;
    assert q[OPTDATA..OPTDATA] == [];
  }

  /** An ICMP message that the TTL of `p` has run out, to its sender, with the beginning of `p` (RFC 792). */
  ghost predicate IsTimeExceeded(p: seq<byte>, q: seq<byte>, host: Addr) {
    && |p| == |q| == UIP_BUFSIZE + 2
    && q[VHL] == 0x45 && q[TOS] == 0 && WordAt(q, LEN) == 56 && WordAt(q, IPOFFSET) == 0
    && q[TTL] == UIP_TTL && q[PROTO] == UIP_PROTO_ICMP
    && AddrAt(q, SRCIPADDR) == host && AddrAt(q, DESTIPADDR) == AddrAt(p, SRCIPADDR)
    && q[ICMPTYPE] == ICMP_TE && q[ICMPTYPE + 1] == 0 && q[28..56] == p[..28]
    && IpTotal(q) % 65535 == 0
    && OnesSum(IcmpTotal(q, 56)) == 0xffff
  }

  lemma ExceededHolds(p: seq<byte>, p1: seq<byte>, q: seq<byte>, host: Addr)
    requires |p| == |p1| == |q| == UIP_BUFSIZE + 2
    requires p1[ICMPTYPE] == ICMP_TE && p1[ICMPTYPE + 1] == 0
    requires p1[28..56] == p[..28] && OnesSum(IcmpTotal(p1, 56)) == 0xffff
    requires Same(p, p1, ICMPTYPE, 56)
    requires AddrAt(q, DESTIPADDR) == AddrAt(p1, SRCIPADDR) && AddrAt(q, SRCIPADDR) == host
    requires q[VHL] == 0x45 && q[TOS] == 0 && WordAt(q, LEN) == 56 && WordAt(q, IPOFFSET) == 0
    requires q[TTL] == UIP_TTL && q[PROTO] == UIP_PROTO_ICMP && IpTotal(q) % 65535 == 0
    requires q[UIP_IPH_LEN..] == p1[UIP_IPH_LEN..]
    ensures IsTimeExceeded(p, q, host)
  {
    hide IpTotal, OnesSum, WordSum, Word;
    assert q[UIP_IPH_LEN..56] == q[UIP_IPH_LEN..][..36] == p1[UIP_IPH_LEN..56];
    assert q[28..56] == q[UIP_IPH_LEN..][8..36] == p1[28..56];
    assert q[ICMPTYPE] == q[UIP_IPH_LEN..][0] && q[ICMPTYPE + 1] == q[UIP_IPH_LEN..][1];
  }

  lemma IcmpChecksumCompletes(p: seq<byte>)
    requires |p| > 56 && p[ICMPTYPE] == ICMP_TE && WordAt(p, ICMPCHKSUM) == 0
    ensures OnesSum(IcmpTotal(SetWord(p, ICMPCHKSUM, 0xffff - OnesSum(IcmpTotal(p, 56))), 56)) == 0xffff
  {
    var w := 0xffff - OnesSum(IcmpTotal(p, 56));
    ZeroSumMeansZeroBytes(p[UIP_IPH_LEN..56]);
    assert p[UIP_IPH_LEN..56][0] == ICMP_TE;
    SetWordSum(p, ICMPCHKSUM, w, UIP_IPH_LEN, 56);
    Complement(IcmpTotal(p, 56));
  }

  lemma Complement(total: nat)
    requires total > 0
    ensures OnesSum(total + (0xffff - OnesSum(total))) == 0xffff
  {
    ComplementCompletes(total);
  }

  /** The TCP checksum covers nothing of the IP header but the addresses and the length. */
  lemma SameTcpTotal(p: seq<byte>, q: seq<byte>)
    requires |p| == |q| == UIP_BUFSIZE + 2 && UIP_IPH_LEN <= WordAt(p, LEN) <= |p|
    requires q[LEN] == p[LEN] && q[LEN + 1] == p[LEN + 1] && q[SRCIPADDR..] == p[SRCIPADDR..]
    ensures WordAt(q, LEN) == WordAt(p, LEN) && TcpTotal(q) == TcpTotal(p)
  {
    hide WordSum;
    assert q[SRCIPADDR..UIP_IPH_LEN] == q[SRCIPADDR..][..8] == p[SRCIPADDR..UIP_IPH_LEN];
    assert q[UIP_IPH_LEN..WordAt(p, LEN)] == q[SRCIPADDR..][8..WordAt(p, LEN) - SRCIPADDR]
        == p[UIP_IPH_LEN..WordAt(p, LEN)];
  }

  /** Outside [lo..hi) nothing changed. */
  ghost predicate Same(p: seq<byte>, q: seq<byte>, lo: nat, hi: nat) {
    |p| == |q| && forall i :: 0 <= i < |p| && !(lo <= i < hi) ==> q[i] == p[i]
  }
}
