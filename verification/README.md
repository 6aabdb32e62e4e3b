# Verification of fxIP

fxIP is a small TCP/IP stack for a calculator: uIP 1.0 behind a SLIP line on an
interrupt-driven serial ring, with protosockets for its applications, an object
log for the lines on its screen, and its own substring search. This project
models the parts of it whose correctness is not visible in any one function,
and proves what they are for.

The host is big-endian (`src/uip-conf.h:115`), so `HTONS` leaves a word as it
is, and there is no link-level header (`UIP_LLH_LEN` is 0).

## How it is built

| file | contents |
|---|---|
| Bytes.dfy, Common.dfy, SequenceNumbers.dfy | fixed-width integers; shared definitions; the four-byte sequence numbers and their byte-wise addition |
| Tcp.dfy | one invocation of `uip_process` for one connection, as a function of the connection, the segment and whatever the application calls |
| UipStack.dfy | the same code as a class over the global variables, label by label; each method is proved to be the function |
| TcpInvariant.dfy, TcpSystem.dfy | the state invariant; the connection table, demultiplexing, passive and active opens, over all runs |
| TcpDelivery.dfy, TcpTiling.dfy, TcpTimers.dfy | in-order delivery; stop-and-wait on the send side; timeouts, and slots lost to a late `uip_stop` |
| Checksum.dfy, PacketFormat.dfy, Packets.dfy, TcpOutput.dfy | the Internet checksum, the packet buffer, and the way from a segment to a packet and back |
| TcpProgress.dfy | what each step is obliged to do, by the fields of connection and segment alone; that data arriving in order is given, and that a close completes |
| PsockSend.dfy, PsockDelivery.dfy, PsockAgreement.dfy, PsockProgress.dfy, PsockRead.dfy | protosockets: sending on top of the TCP engine, end to end, what the end of a call says about the peer, and that all messages arrive where nothing is lost; reading lines |
| RingBuffer.dfy, SerialRing.dfy, Slip.dfy | the byte ring; its use by main program and interrupt handler; SLIP framing |
| ObjectLogLayout.dfy, ObjectLog.dfy | the object log: its layout in the ring, and its operations |
| Substring.dfy | Knuth-Morris-Pratt search, its failure table, and the brute-force fallback |

Code that updates state in place is a class or a method with a loop, proved
against a function on values; the properties are then proved about the
functions, over every input, every run or every interleaving. What the
application does in a callback is an arbitrary list of API calls. The network is
an arbitrary list of events.

`dafny verify dfyconfig.toml` checks the project.

## What does not hold, and exactly when it does

Some properties one would expect are false of the code. For these the project
states the condition under which they hold, as an equivalence.

- Stopping late. A `uip_stop` in a callback that comes after the connection has
  left ESTABLISHED leaves the stop bit in the state field
  (`TcpInvariant.ReceiveKeepsIff`, `TcpInvariant.TickKeepsIff`,
  `TcpSystem.ConsistentOverRunsIff`). No test of the engine then takes the slot
  for a closed one (`TcpTimers.LateStopLosesSlot`). With nothing outstanding,
  only a reset frees it, and only if the application does not stop it again
  (`TcpTimers.LostSlotIsFreedIff`). With something outstanding, ticks free it when
  its retransmissions are used up and it is not stopped again, or 256 ticks later,
  and so on (`TcpTimers.TicksFreeLostSlotIff`). Demultiplexing and the tiling of
  sequence numbers are not affected (`TcpSystem.UnambiguousOverRuns`,
  `TcpTiling.SegmentsAreLastClaims`).
- Closing early. `uip_close` in answer to new data, with older data still
  unacknowledged, overlaps the FIN with that data (`TcpTiling.StepTilesIff`).
- No segment size. A passive open from a SYN without an MSS option keeps the
  sizes of its slot, and in a slot that was never used they are zero. A
  connection can ever send data if and only if the announced size is not zero,
  or none is announced and the slot has one left from an earlier connection
  (`TcpTiling.PassiveOpenCanSendIff`, `TcpTiling.ActiveOpenCanSendIff`,
  `TcpTiling.MuteForever`).
- Poll requests. `uip_poll_conn` does not clear `uip_slen`, which all connections
  share, so a length left by another connection is sent
  (`PsockDelivery.PollSendsStaleLength`, `TcpSystem.StaleLengthCrosses`). Nothing
  in the repository calls it at present.
- Long messages. A call of `psock_send` sends its whole message, repeats all of it
  in every retransmission and has nothing left to send when it ends, if and only
  if the message fits the segment size at the start, at each retransmission and
  at the acknowledgment (`PsockSend.CallIsWholeIff`). A window that grows in
  between leaves the tail unsent (`PsockSend.GrowingWindowDropsTail`,
  `PsockDelivery.PartialCallEnds`). One that shrinks puts bytes of an earlier
  packet into the retransmission and sends acknowledged bytes again
  (`PsockDelivery.RetransmissionCarries`, `PsockSend.ShrinkingWindowRepeatsTail`).
- Blank ping. The reply to an echo request with nothing but zeros in it carries
  a checksum that the receiver's sum does not confirm
  (`PacketFormat.EchoReplyVerifiesIff`, `PacketFormat.BlankRequestFails`).
- Options before data. Data behind a TCP header with options is shown to the
  application shifted by the length of the options
  (`PacketFormat.ShownIsData`, `PacketFormat.ShownIsShifted`). A header length
  below 20, or behind the end of the packet, shows memory outside the packet
  (`PacketFormat.ShownInsideIff`).
- A full serial ring. The wait loop of `scif_write` lets a call fill the ring
  exactly. A step of the writer keeps the order if and only if it does not move
  write_ptr onto read_ptr in a full ring (`SerialRing.WriterKeepsFifoIff`); that
  happens to a call left alone by the handler if and only if it fills the ring
  (`SerialRing.UndisturbedCallIff`), and one byte taken in time prevents it
  (`SerialRing.RelievedFill`). The handler keeps the order if and only if it does
  not interrupt between `write_ptr += len` and `write_ptr %= size` at the end of
  the ring with more room in the FIFO than bytes pending; then it sends bytes
  that were never written (`SerialRing.HandlerKeepsFifoIff`,
  `SerialRing.WindowIsReached`).
- Overlong frames. Of a SLIP frame longer than the buffer the tail is returned as
  a packet, after a byte has been stored one past `slip_buf`
  (`Slip.EncodedFrameDecodes`, `Slip.StoresPastBufferIff`).
- Oversized ring writes. A block longer than the ring leaves `write_ptr` where it
  was (`Ring.BulkEqualsBytewise`).
- The last log entry. It is never dropped, and the log is valid after a write if
  and only if that entry and the new object fit the ring together; otherwise the
  new object lies over its header (`ObjectLog.ObjectLog.WriteScatteredObject`,
  `ObjectLog.OverwriteLastEntry`).
- Empty and very long objects. An empty object is counted without being stored
  (`ObjectLog.ObjectLog.WriteScatteredObject`). The total length has 16 bits, which
  is enough up to 65022 bytes; from 65024 bytes on an object seems to fit any ring
  of 517 bytes (`ObjectLogLayout.LengthWrapsIff`).
- The refusal of the object log. The number of bytes missing is documented as the
  return value; it is 2^16 less that number
  (`ObjectLog.ObjectLog.WriteScatteredObject`), so it is right only for 32768.
- Empty in empty. The brute-force search does not find an empty needle in an
  empty haystack (`Substring.StrstrBruteforce`).

## Model

| member | source | states |
|---|---|---|
| SequenceNumbers.Accumulator.UipAdd32 | src/uip/uip.c:248-273 | `uip_add32`, in place in `uip_acc32`, leaves the sum modulo 2^32 |
| SequenceNumbers.Add32IsModular | src/uip/uip.c:249-273 | the byte-wise `uip_add32`, with its carries found by comparison, is addition modulo 2^32 for every operand |
| SequenceNumbers.IncrementIsModular | src/uip/uip.c:1258-1267 | the chained increments are addition of one modulo 2^32 |
| TcpDelivery.InOrderDelivery | src/uip/uip.c:1416-1428 | over every run, with any loss, repetition and reordering of a peer stream under 2^31 bytes, with anything at all on the SYN, the data given to the application is a prefix of the stream and rcv_nxt is IRS + 1 + bytes accepted, + 1 for the FIN, modulo 2^32 |
| TcpDelivery.StepDelivers | src/uip/uip.c:1474-1798 | one event of such a run keeps the receive side in step with the stream, in each of the nine states |
| TcpDelivery.InOrderIsNext | src/uip/uip.c:1419-1428 | a segment that passes the sequence check in a synchronised state is the next piece of the stream |
| TcpDelivery.SynSentDelivers | src/uip/uip.c:1499-1557 | the SYNACK sets rcv_nxt to the peer's first sequence number plus one; anything else leaves nothing given |
| TcpDelivery.SynRcvdDelivers | src/uip/uip.c:1480-1497 | data that comes with the acknowledgment of our SYNACK is given exactly once |
| TcpDelivery.EstablishedDelivers | src/uip/uip.c:1572-1658 | data is counted and given together or not at all, and a stopped connection takes neither data nor FIN |
| TcpDelivery.FinDelivers | src/uip/uip.c:1572-1584 | the FIN is counted once, behind the whole stream |
| TcpDelivery.FinWaitDelivers | src/uip/uip.c:1743-1787 | after our close, data is counted but no longer given, and the FIN is counted once |
| TcpDelivery.OpenIsSynced | src/uip/uip.c:1331-1336 | a connection starts in step with the peer, whichever side opened it |
| TcpProgress.ArrivedIsGiven | src/uip/uip.c:1616-1658 | over every run of an open connection that nothing ends or stops, with any loss, repetition and reordering, the application has been given exactly the part of the stream whose pieces have arrived in their order |
| TcpProgress.DataIsTaken | src/uip/uip.c:1616-1658 | data in order in ESTABLISHED is counted, given to the application as new data, and acknowledged |
| TcpProgress.FinIsTaken | src/uip/uip.c:1572-1588 | the peer's FIN in order, with nothing left outstanding: its data is given, the FIN counted and answered with one of our own |
| TcpProgress.FinIsPutOff | src/uip/uip.c:1572-1575 | with something outstanding that it does not acknowledge, it changes nothing |
| TcpProgress.FinCompletes | src/uip/uip.c:1572-1588 | a FIN in order with nothing outstanding finds all of the stream given |
| TcpProgress.SynRcvdOpens | src/uip/uip.c:1480-1497 | the acknowledgment of our SYNACK opens the connection, and data with it is given |
| TcpProgress.SynRcvdWaits | src/uip/uip.c:1480-1497 | without it the connection goes on waiting |
| TcpProgress.StoppedTakesNothing | src/uip/uip.c:1572-1619 | while the application has stopped the connection, neither data nor FIN is taken |
| TcpProgress.SynAckOpens | src/uip/uip.c:1499-1545 | the SYNACK opens an active connection, one behind the peer's number and with the announced segment size, and is acknowledged |
| TcpProgress.RefusalResets | src/uip/uip.c:1547-1556 | any other answer closes it, tells the application and is answered with a reset |
| TcpProgress.AckIsTold | src/uip/uip.c:1434-1470 | the application is told of an acknowledgment if and only if it is of all that is outstanding; otherwise a segment without data changes at most the segment size |
| TcpProgress.AckRestartsTimer | src/uip/uip.c:1440-1465 | an acknowledgment restarts the timer and the count of retransmissions |
| TcpProgress.WindowSetsSize | src/uip/uip.c:1633-1638 | the peer's window sets the segment size, up to the initial one |
| TcpProgress.OutOfOrderIsAnswered | src/uip/uip.c:1416-1428 | a segment out of order changes nothing and is answered with what is expected |
| TcpProgress.ResetIsTold | src/uip/uip.c:1401-1407 | a reset closes the connection and the application is told |
| TcpProgress.FinWait1Moves | src/uip/uip.c:1743-1770 | FIN_WAIT_1 with our FIN acknowledged, the peer's arrived, both or neither: the next state, what is counted and what is sent |
| TcpProgress.FinWait2Moves | src/uip/uip.c:1772-1787 | FIN_WAIT_2 likewise |
| TcpProgress.LastAcksMove | src/uip/uip.c:1734-1798 | CLOSING, LAST_ACK and TIME_WAIT likewise |
| TcpProgress.RetransmissionRepeats | src/uip/uip.c:770-811 | outside ESTABLISHED a retransmission is the outstanding SYN, SYNACK or FIN with its number, and the next wait is 3, 6, 12, 24 or 48 ticks |
| TcpProgress.DataIsRetransmitted | src/uip/uip.c:795-803 | in ESTABLISHED the application is asked, and its data goes out with the outstanding number and length |
| TcpProgress.GivingUpIsTold | src/uip/uip.c:751-769 | after the last one the application is told and the peer is sent a reset |
| TcpProgress.TickCountsOrPolls | src/uip/uip.c:748-819 | a tick counts the timer down, or polls an open connection with nothing outstanding |
| TcpProgress.PollIsTold | src/uip/uip.c:708-715 | a poll request reaches the application if and only if the connection is open with nothing outstanding |
| TcpProgress.SendGoesOut | src/uip/uip.c:1679-1723 | what the application sends with nothing outstanding leaves at once, as much as fits the segment size |
| TcpProgress.SilenceAcknowledges | src/uip/uip.c:1726-1731 | a silent application's answer to new data is a pure acknowledgment, and otherwise nothing |
| TcpProgress.RestartReopens | src/uip/uip.c:1726-1731 | a uip_restart sends a window update |
| TcpProgress.CloseSendsFin | src/uip/uip.c:1669-1676 | a close sends the FIN behind what has been acknowledged |
| TcpProgress.AbortSendsReset | src/uip/uip.c:1662-1667 | an abort sends a reset |
| TcpProgress.CloseCompletes | src/uip/uip.c:1669-1798 | two connections that agree, and a close on one side: four steps later one is in TIME_WAIT and the other closed |
| TcpTiling.SequenceTiling | src/uip/uip.c:1434-1470 | over every run that does not close early, the ranges used for SYN, data and FIN follow each other without gap or overlap, and snd_nxt is the end of the acknowledged ones |
| TcpTiling.SndNxtMoves | src/uip/uip.c:1434-1445 | snd_nxt moves only by the outstanding length, and only on an acknowledgment of exactly snd_nxt + len |
| TcpTiling.StepTilesIff | src/uip/uip.c:1669-1709 | a step keeps the tiling if and only if the application does not close in answer to data while its own is outstanding |
| TcpTiling.EveryStepSendsOutstanding | src/uip/uip.c:1713-1723 | in every state, also behind a late uip_stop, a segment that is neither a reset nor a pure ACK is the outstanding range, all of it; the bounds on len and mss are kept |
| TcpTiling.SegmentsAreLastClaims | src/uip/uip.c:1819-1822 | over every run that does not close early, whatever is stopped when, each such segment is the last range claimed by then, all of it: a retransmission repeats that range, and nothing else overlaps it |
| TcpTiling.OpenIsTiled | src/uip/uip.c:460-472 | every connection starts with the range of its SYN at offset 0 |
| TcpTiling.MuteForever | src/uip/uip.c:1695-1701 | with both segment sizes zero, no run of the connection ever sends a byte of data |
| TcpTiling.PassiveOpenCanSendIff | src/uip/uip.c:1338-1369 | for every SYN: some run of the connection it opens sends a byte of data if and only if the announced size is not zero, or none is announced and the slot has one |
| TcpTiling.ActiveOpenCanSendIff | src/uip/uip.c:1507-1538 | the same for the SYNACK of an active open, which fails only for an announced size of zero |
| TcpTiling.OpenCanSendIff | src/uip/uip.c:1633-1638 | an open connection with nothing outstanding can send if and only if its initial segment size is not zero |
| TcpInvariant.ReceiveKeepsIff | src/uip/uip.c:1394-1798 | a segment keeps the state invariant (len = 1 in the SYN and FIN states, 0 in FIN_WAIT_2 and TIME_WAIT, bounded retransmissions, mss ≤ initialmss ≤ 1460, stopped only in ESTABLISHED) if and only if no late uip_stop is left behind; what is sent fits the buffer |
| TcpInvariant.TickKeepsIff | src/uip/uip.c:733-819 | the same for a timer tick |
| TcpInvariant.PollKeeps | src/uip/uip.c:708-715 | the same for a poll request, without a condition |
| TcpInvariant.OpenKeeps | src/uip/uip.c:1315-1369 | both kinds of open establish the invariant |
| TcpTimers.SilentPeerCloses | src/uip/uip.c:751-774 | with data outstanding and a silent peer, a connection lives for exactly the computed number of ticks; its state is then CLOSED, and the slot free again if and only if the application does not call uip_stop in that callback |
| TcpTimers.LifetimeBound | src/uip/uip.c:771-774 | that number is at most timer + 246 and so at most 501; timer + 99 for a fresh SYN |
| TcpTimers.WaitingEnds | src/uip/uip.c:741-746 | TIME_WAIT and FIN_WAIT_2 end after a fixed number of ticks whatever else arrives, save a reset or the FIN that moves FIN_WAIT_2 on |
| TcpTimers.WaitBounds | src/uip/uip.c:743-744 | that number is 120 in a fresh TIME_WAIT and at most 256 |
| TcpTimers.FinStartsTimeWait | src/uip/uip.c:1776-1782 | a FIN in FIN_WAIT_2 starts a fresh TIME_WAIT, unless the application stops the connection in that callback |
| TcpTimers.LateStopLosesSlot | src/uip/uip.h:591-591 | one event breaks the state invariant only by leaving the stop bit in CLOSED, CLOSING or TIME_WAIT |
| TcpTimers.LostSlotStep | src/uip/uip.c:1394-1399 | one event frees such a slot if and only if it is a reset or the tick that gives it up, without another uip_stop; the acknowledgment of its FIN takes one in CLOSING to a proper TIME_WAIT |
| TcpTimers.LostSlotIsFreedIff | src/uip/uip.c:741-747 | with nothing outstanding, a run of segments, ticks and polls frees it at some point if and only if a reset arrives that is not answered with another uip_stop |
| TcpTimers.TicksFreeLostSlotIff | src/uip/uip.c:751-774 | with something outstanding, ticks free it if and only if it is not stopped again in a tick that gives it up: the one its backoff leads to, or one of those that follow every 256 ticks |
| TcpSystem.UnambiguousOverRuns | src/uip/uip.c:1201-1313 | over every run of segments, ticks, polls and opens, whatever the applications do, no two connections in use have the same ports and remote address |
| TcpSystem.ConsistentOverRunsIff | src/uip/uip.c:1394-1472 | over a run, all connections stay in the state invariant if and only if no step leaves a late uip_stop behind |
| TcpSystem.InitEstablishesInv | src/uip/uip.c:378-414 | `uip_init` establishes both invariants |
| TcpSystem.InputIsIsolated | src/uip/uip.c:1201-1209 | a segment reaches the one connection with its addresses and changes no other, and the answer goes back to its sender |
| TcpSystem.OpensTakeOnlyUnused | src/uip/uip.c:1291-1303 | an open never takes over a connection that is neither closed nor in TIME_WAIT |
| TcpSystem.ConnectReaches | src/uip/uip.c:418-480 | `uip_connect` and two ticks: a SYN with the initial sequence number leaves for the address and port asked for, from a port nobody else uses |
| TcpSystem.ConnectOpens | src/uip/uip.c:441-474 | the active open takes an unused slot for exactly that connection |
| TcpSystem.ListenAccepts | src/uip/uip.c:1284-1391 | a SYN to a listening port opens a connection between its ends in an unused slot, if there is one, and is answered with the SYNACK |
| TcpSystem.StrangersAreReset | src/uip/uip.c:1211-1313 | anything else that belongs to no connection changes nothing and is answered with a reset, unless it is one |
| TcpSystem.FindUnusedFinds | src/uip/uip.c:441-454 | the search takes the first closed slot, else the one longest in TIME_WAIT, and fails only if there is neither |
| TcpSystem.SomePortIsFree | src/uip/uip.c:424-439 | by the pigeonhole principle, one of the first UIP_CONNS + 1 ports tried is free |
| UipStack.Uip.TcpInput | src/uip/uip.c:1185-1313 | the input code, updating the globals in place, is one step of the connection table |
| UipStack.Uip.Found | src/uip/uip.c:1394-1472 | the code behind label found, up to the state switch, computes `Receive` and tells the application exactly what that says |
| UipStack.Uip.SwitchState | src/uip/uip.c:1474-1798 | the switch over the states, LAST_ACK and CLOSING included |
| UipStack.Uip.InSynRcvd | src/uip/uip.c:1480-1497 | its case SYN_RCVD |
| UipStack.Uip.InSynSent | src/uip/uip.c:1499-1557 | its case SYN_SENT |
| UipStack.Uip.InEstablished | src/uip/uip.c:1560-1732 | its case ESTABLISHED |
| UipStack.Uip.TakeFin | src/uip/uip.c:1572-1588 | the peer's FIN: dropped while data is outstanding, otherwise straight to LAST_ACK |
| UipStack.Uip.NoteData | src/uip/uip.c:1616-1638 | new data and the peer's window |
| UipStack.Uip.InFinWait1 | src/uip/uip.c:1743-1770 | its case FIN_WAIT_1 |
| UipStack.Uip.InFinWait2 | src/uip/uip.c:1772-1787 | its case FIN_WAIT_2 |
| UipStack.Uip.AppSend | src/uip/uip.c:1660-1731 | labels appsend and apprexmit: abort, close, how much of the application's data becomes outstanding, and what is sent |
| UipStack.Uip.Periodic | src/uip/uip.c:718-820 | the timer branch is one step of the connection table |
| UipStack.Uip.Retransmission | src/uip/uip.c:770-811 | backoff, and the retransmission that each state calls for |
| UipStack.Uip.PollConn | src/uip/uip.c:708-715 | the poll branch is one step of the connection table |
| UipStack.Uip.FindConnection | src/uip/uip.c:1201-1209 | the demultiplexing loop finds the first match |
| UipStack.Uip.FindSlot | src/uip/uip.c:1291-1303 | the search for an unused slot |
| UipStack.Uip.FoundListen | src/uip/uip.c:1284-1391 | the passive open and its SYNACK |
| UipStack.Uip.FindPort | src/uip/uip.c:423-439 | the port loop terminates, at the first free port behind `lastport` |
| UipStack.Uip.ConnectTo | src/uip/uip.c:418-480 | `uip_connect` is one step of the connection table |
| Checksum.Chksum | src/uip/uip.c:279-308 | the wrap-and-carry loop returns the one's complement sum: congruent to the sum of big-endian words modulo 65535, and zero only for a sum of zero |
| Checksum.OnesSumIsDetermined | src/uip/uip.c:292-296 | those two facts leave one 16-bit value |
| Checksum.ChksumComposes | src/uip/uip.c:339-348 | summing in two calls, split at an even offset, is summing at once |
| Checksum.ChksumIgnoresWordOrder | src/uip/uip.c:289-296 | the sum does not change when the words are permuted |
| Checksum.ZeroSumMeansZeroBytes | src/uip/uip.c:279-308 | the sum is zero if and only if every byte is |
| Checksum.ComplementCompletes | src/uip/uip.c:1855-1857 | the complement of the reported sum in a zeroed field makes the total a multiple of 65535 |
| Checksum.AcceptedIffMultiple | src/uip/uip.c:952-958 | the comparison with 0xffff accepts exactly those totals |
| PacketFormat.TcpChecksumCompletes | src/uip/uip.c:1855-1857 | filling in the TCP checksum, odd lengths included |
| PacketFormat.IpChecksumCompletes | src/uip/uip.c:1872-1874 | filling in the IP checksum |
| PacketFormat.ShownIsData | src/uip/uip.c:1408-1414 | without options in the header, or without data, what the application is shown is the segment's data |
| PacketFormat.ShownIsShifted | src/uip/uip.c:1408-1414 | otherwise it is shifted by the length of the options |
| PacketFormat.ShownInsideIff | src/uip/uip.c:1408-1414 | with the length taken in 16 bits, what is shown lies in the packet if and only if the header length is at least 20 and within the packet, or nothing is shown |
| PacketFormat.PatchedIsModular | src/uip/uip.c:1010-1014 | compare-and-add is one's complement addition, with zero in place of 0xffff |
| PacketFormat.EchoKeepsIcmpSum | src/uip/uip.c:1008-1014 | the echo reply keeps the ICMP sum modulo 65535 |
| PacketFormat.EchoReplyVerifiesIff | src/uip/uip.c:1008-1014 | the reply to a valid request adds up to 0xffff if and only if the message is not blank |
| PacketFormat.BlankRequestFails | src/uip/uip.c:1010-1011 | a valid request whose reply adds up to zero |
| PacketFormat.EchoKeepsIpSum | src/uip/uip.c:1016-1018 | the address swap changes the IP header sum by our address minus the destination, so not at all when the request was for us |
| PacketFormat.HopKeepsIpSumIff | src/uip/uip-fw.c:462-470 | counting down the TTL keeps a valid IP header sum valid if and only if there was a TTL to count down |
| Packets.PacketBuffer.IpChksum | src/uip/uip.c:315-325 | `uip_ipchksum` over the header |
| Packets.PacketBuffer.TcpChksum | src/uip/uip.c:328-352 | `upper_layer_chksum` over pseudo header and segment |
| Packets.PacketBuffer.CheckInput | src/uip/uip.c:853-1196 | the checks on the way to the TCP input code accept exactly the packets with version and length 0x45, a length field within the packet, no fragment, our address unless we have none, TCP, and both checksums valid |
| Packets.PacketBuffer.TcpSendNoconn | src/uip/uip.c:1841-1885 | length, TTL, IP id and both checksums: the packet satisfies both checks and nothing else in it changes |
| Packets.PacketBuffer.TcpSend | src/uip/uip.c:1809-1839 | label tcp_send: the receiver reads back the intended segment |
| Packets.PacketBuffer.TcpSendNoopts | src/uip/uip.c:1805-1808 | a segment without options, with its data untouched |
| Packets.PacketBuffer.TcpSendSyn | src/uip/uip.c:1373-1391 | a SYN or SYNACK, with the MSS option |
| Packets.WireFormat | src/uip/uip.h:1386-1418 | the fields of such a packet are where RFC 791 and RFC 793 have them |
| Packets.PacketBuffer.Reset | src/uip/uip.c:1228-1279 | the reset made in place answers the segment from the right ends, and resets are not answered |
| Packets.PacketBuffer.FlipNumbers | src/uip/uip.c:1241-1267 | the numbers change places and the acknowledgment is incremented |
| Packets.PacketBuffer.IcmpInput | src/uip/uip.c:991-1021 | an echo request becomes its reply in place, anything else is dropped |
| Packets.PacketBuffer.TimeExceeded | src/uip/uip-fw.c:221-273 | the packet is replaced by a valid ICMP message to its sender with the first 28 bytes, unless it was ICMP itself |
| Packets.PacketBuffer.Forward | src/uip/uip-fw.c:404-486 | what is forwarded has a valid IP header whenever what arrived had one, including time-exceeded answers |
| TcpOutput.EveryStepIsSendable | src/uip/uip.c:1803-1839 | whatever a step of the engine sends is a reply that label tcp_send can produce, with its data at the start of the buffer, or, when an active open is refused, the arrived segment turned round |
| TcpOutput.EveryStepFits | src/uip/uip.c:1716-1722 | it fits UIP_BUFSIZE in every reachable state, also behind a late uip_stop |
| TcpOutput.Emit | src/uip/uip.c:1841-1885 | the packet made of it satisfies every check of the input code, its length field is `uip_len`, and the input code reads the same segment out of it |
| TcpOutput.EmitStep | src/uip/uip.c:1803-1885 | whatever a step of the engine sends for any event leaves as such a packet, between the ends of the connection |
| PsockSend.Psock.PsockSend | src/uip/psock.c:175-213 | one invocation of the protothread: its new state, its calls of uip_send, and whether it ends |
| PsockSend.Psock.DataAcked | src/uip/psock.c:159-174 | `data_acked` |
| PsockSend.Psock.SendData | src/uip/psock.c:144-157 | `send_data` |
| PsockSend.Starts | src/uip/psock.c:186-207 | as much of the message as fits a segment is sent at once |
| PsockSend.StaysInFlight | src/uip/psock.c:195-208 | until the acknowledgment a retransmission sends as much as fits by then, and nothing else sends |
| PsockSend.AckEndsCall | src/uip/psock.c:195-208 | the acknowledgment ends the call whatever part had been sent, with nothing left for uip_send if and only if the message fits the segment size of that moment |
| PsockSend.CallIsWholeIff | src/uip/psock.c:144-213 | over one call with any callbacks in between: the whole message is sent, every retransmission repeats all of it, and nothing is left at the end, if and only if it fits the segment size at the start, at each retransmission and at the acknowledgment |
| PsockSend.GrowingWindowDropsTail | src/uip/psock.c:159-173 | a larger segment size at the acknowledgment ends the call with the tail unsent |
| PsockSend.ShrinkingWindowRepeatsTail | src/uip/psock.c:144-173 | a smaller one shortens the retransmission and sends acknowledged bytes again |
| PsockSend.SendsFitSegment | src/uip/psock.c:148-152 | what the thread hands to uip_send never exceeds the segment size |
| PsockDelivery.PsockSendIsReliable | src/uip/psock.c:175-213 | over every run in which each message fits the segment size when it starts, is retransmitted or is acknowledged, with any loss, poll and incoming data, every segment carries the bytes the concatenated messages have at its sequence number, a FIN stands behind the last of them, and the calls that have ended are those whose messages have been acknowledged in full |
| PsockDelivery.CallEndsIffAcknowledged | src/uip/psock.c:159-174 | a call ends if and only if an acknowledgment of exactly its message arrives |
| PsockDelivery.MessagesReachPeer | src/uip/psock.c:175-213 | a peer with the same engine that receives any of these segments, in any order and number, is given a prefix of the messages in call order, and a FIN it takes ends a whole number of them |
| PsockDelivery.EveryEventSteps | src/uip/uip.c:1656-1723 | thread and connection stay in step through every event |
| PsockDelivery.OpenIsConsistent | src/uip/uip.c:460-472 | a connection just opened and a thread that has not run are in step |
| PsockDelivery.StartPutsInFlight | src/uip/uip.c:1690-1701 | the engine puts in flight as much of the message as fits the segment size |
| PsockDelivery.RetransmissionCarries | src/uip/uip.c:1716-1722 | a retransmission under a smaller segment size carries the part that fits, and then what an earlier packet left in the buffer |
| PsockDelivery.PartialCallEnds | src/uip/uip.c:1633-1658 | a call with only its first part in flight ends when that part is acknowledged with a window that fits the message |
| PsockDelivery.MuteNeverAcknowledges | src/uip/uip.c:1434-1469 | a connection without a segment size is never told of an acknowledgment, on which the loop of `psock_send` would not end |
| PsockAgreement.EndedMeansReceived | src/uip/psock.c:175-213 | two engines and any network between them: when the calls on the first k messages have ended, the peer has accepted all of their bytes |
| PsockAgreement.RunAcknowledges | src/uip/uip.c:1814-1817 | an acknowledgment a peer sends in a synchronised state counts what it has accepted by then |
| PsockProgress.AllMessagesArrive | src/uip/psock.c:175-213 | from the SYNACK on, two engines and a line that loses nothing: after a round for each message and one more, the peer has been given all of them in call order and every call has ended |
| PsockProgress.LostAckIsRepaired | src/uip/uip.c:1416-1428 | when an acknowledgment was lost, the repeated message is answered with it and not given again |
| PsockDelivery.MessageInStream | src/uip/psock.c:186-191 | message k is the piece of the stream behind the messages before it |
| PsockDelivery.PollSendsStaleLength | src/uip/uip.c:708-713 | with a silent application, a poll request sends data if and only if `uip_slen` was left non-zero |
| TcpSystem.StaleLengthCrosses | src/uip/uip.c:704-717 | a run that leaves it so: one connection sends in its timer tick, and a poll of another one sends the same bytes to the other peer |
| PsockRead.SegmentationDoesNotMatter | src/uip/psock.c:271-299 | however the stream is cut into segments, the lines completed callback by callback are the lines of the whole stream |
| PsockRead.LinesPartition | src/uip/psock.c:110-142 | the lines and the unfinished rest, put together, are the stream, and the rest holds no end marker |
| PsockRead.LinesAreLines | src/uip/psock.c:122-124 | each line ends with its only end marker |
| PsockRead.Psock.ReadStream | src/uip/psock.c:271-299 | a loop of `psock_readto` over any callbacks yields the lines of the stream, truncated to the buffer, each once |
| PsockRead.Psock.Resume | src/uip/psock.c:281-299 | one callback of that loop |
| PsockRead.Psock.ReadTo | src/uip/psock.c:271-299 | `psock_readto` ends with one line or waits with the rest |
| PsockRead.Psock.BufTo | src/uip/psock.c:110-142 | `buf_bufto` consumes up to the end marker and discards the surplus of a long line |
| PsockRead.Psock.NewData | src/uip/psock.c:251-270 | `psock_newdata` reports a segment once |
| PsockRead.Psock.DataLen | src/uip/psock.c:245-250 | `psock_datalen` is the length of the line or of the buffer, whichever is smaller |
| Ring.QueueIffBelowSize | src/ringbuffer.h:21-72 | a write keeps the ring a queue if and only if the bytes in it stay below its size |
| Ring.ExactFillLooksEmpty | src/ringbuffer.h:23-30 | filling the ring exactly loses everything in it |
| Ring.BulkEqualsBytewise | src/ringbuffer.h:46-72 | the two-part bulk write equals byte-by-byte writes if and only if the block fits the ring or is a whole number of turns |
| Ring.RingBuffer.Write | src/ringbuffer.h:46-72 | `ringbuffer_write` on the array, for any length |
| Ring.RingBuffer.WriteOne | src/ringbuffer.h:40-44 | `ringbuffer_write_one` |
| Ring.RingBuffer.ReadOne | src/ringbuffer.h:33-38 | `ringbuffer_read_one` takes the oldest byte |
| Ring.RingBuffer.Available | src/ringbuffer.h:21-31 | `ringbuffer_available` is the number of bytes in the queue |
| Ring.RingBuffer.AdvanceRead | src/ringbuffer.h:74-83 | `ringbuffer_advance_read` |
| SerialRing.SerialRingIsFifo | src/scif.c:54-86 | over every interleaving of writer and handler, with calls of any length, in which no step moves write_ptr onto read_ptr in a full ring and the handler does not overrun the window, bytes leave in the order written |
| SerialRing.InitiallyFifo | src/scif.c:100-103 | `scif_init` leaves the ring in order |
| SerialRing.FreeSpaceIsNotOverestimated | src/scif.c:56-56 | the writer never over-estimates the free space, also when the handler runs between its two reads of `read_ptr` |
| SerialRing.WriterKeepsFifoIff | src/scif.c:54-60 | a step of the writer keeps the order if and only if it does not move write_ptr onto read_ptr in a full ring |
| SerialRing.UndisturbedCallIff | src/scif.c:54-60 | a call that has passed the wait loop and is left alone keeps the order if and only if it does not fill the ring |
| SerialRing.RelievedFill | src/scif.c:54-82 | a single byte taken by the handler after the wait loop makes an exact fill harmless |
| SerialRing.HandlerKeepsFifoIff | src/scif.c:76-82 | the handler keeps the order if and only if it does not overrun the unwrapped write_ptr |
| SerialRing.HandlerTakes | src/scif.c:79-82 | outside the overrun the handler sends the oldest pending bytes, as many as there are and the FIFO has room for, and leaves the others |
| SerialRing.IdleRingDrains | src/scif.c:79-82 | behind an idle writer, enough interrupts send everything ever written |
| SerialRing.WaitEndsIff | src/scif.c:56-56 | the wait loop lets a call through if and only if it fits beside what is pending |
| SerialRing.CallPublishes | src/scif.c:54-60 | a call that fits with a byte to spare, left alone, is over after seven steps with all of its bytes pending |
| SerialRing.CallIsSent | src/scif.c:54-86 | a call of less than the ring's size gets through once the handler has made room, and then leaves in full behind everything before it |
| SerialRing.WindowIsReached | src/ringbuffer.h:66-71 | a run that reaches that window and sends a byte never written |
| SerialRing.GuardNeverBlocksOneByte | src/scif.c:56-56 | the wait loop never makes a single byte wait, even in a full ring |
| SerialRing.ExactFillLosesAll | src/scif.c:54-60 | a call that fills the ring exactly, of any length, loses every byte in it, its own included |
| Slip.SlipRoundTrip | src/slipdev.c:137-231 | packets sent back to back and arriving in any pieces between any polls are returned exactly once and in order |
| Slip.FramingCodes | src/slipdev.c:137-165 | the bytes that frame and escape are those of RFC 1055 |
| Slip.EncodedFrameDecodes | src/slipdev.c:193-225 | from any decoder state the leading END flushes, and the next packet is decoded intact if and only if it fits the buffer; of a longer one the tail is |
| Slip.StoresPastBufferIff | src/slipdev.c:220-225 | a byte is stored one past `slip_buf` if and only if a packet longer than the buffer arrives |
| Slip.SessionConservesFrames | src/slipdev.c:183-231 | no schedule of arrivals and polls loses, repeats or reorders a frame, valid or not |
| Slip.Slipdev.Send | src/slipdev.c:137-165 | `slipdev_send` writes the encoding of the packet |
| Slip.Slipdev.PollPacket | src/slipdev.c:183-231 | `slipdev_poll`, resumable at any byte, is the decoder |
| ObjectLog.ObjectLog.WriteScatteredObject | src/objectlog.c:96-201 | appends the concatenated list after dropping the shortest prefix of old objects that makes room, but never the last one; the log then holds the kept objects and the new one, byte for byte, if and only if the last entry and the new one fit the ring together, and otherwise the byte where the last entry's header was belongs to the new object, which is stored in either case; an empty list is only counted, and what can never fit is refused |
| ObjectLog.ObjectLog.StoreObject | src/objectlog.c:130-200 | the half of it behind the refusal |
| ObjectLog.ObjectLog.MakeRoom | src/objectlog.c:130-137 | the deletion loop drops the shortest sufficient prefix, or all but the last entry |
| ObjectLog.ObjectLog.WriteFragments | src/objectlog.c:142-196 | the fragment loop lays the object out as its split into fragments, none of which wraps |
| ObjectLog.ObjectLog.GetNextEntry | src/objectlog.c:12-37 | `get_next_entry` moves behind the entry, and returns the first entry for one that fills the ring |
| ObjectLog.ObjectLog.DropFirstEntry | src/objectlog.c:51-56 | `drop_first_entry` |
| ObjectLog.ObjectLog.PointersMeasureEntries | src/objectlog.c:58-61 | the free space is the ring less all entries, and the two entry positions differ if and only if there are two entries |
| ObjectLog.ObjectLog.LogEnd | src/objectlog.c:105-105 | the end of the last entry is `write_ptr`, in an empty log as well |
| ObjectLogLayout.SplitFitsTotalLen | src/objectlog.c:116-123 | the computed total is enough for the object and its headers: wrapping costs at most one more |
| ObjectLogLayout.TotalLenIsTight | src/objectlog.c:116-123 | and it is not too large: exact without wrapping, and at most one too much with it |
| ObjectLogLayout.LengthWrapsIff | src/objectlog.c:107-128 | the 16-bit total is right if and only if it stays below 2^16, so up to 65022 bytes; from 65024 bytes to 64 KiB the test for what can never fit lets the object through in any ring of 517 bytes or more |
| ObjectLogLayout.SplitIsObject | src/objectlog.c:149-170 | the split ends with its one final fragment and holds exactly the data |
| ObjectLog.FitsIffBesideLast | src/objectlog.c:130-137 | after the drop, all kept entries and the new one fit the ring if and only if the last entry and the new one do |
| ObjectLog.HeaderIsHit | src/objectlog.c:142-196 | an entry stored behind one that it does not fit the ring with has one of its bytes where the header of that one was |
| ObjectLog.OverwriteLastEntry | src/objectlog.c:120-137 | two writes to a ring of eight bytes, both accepted: the first entry now reads as the end of the second |
| ObjectLog.ObjectLog.Iterator | src/objectlog.c:223-250 | `objectlog_iterator` finds object i; -k stands for num_entries - k for 0 < k < num_entries, and every other index outside the log gives -1 |
| ObjectLog.ObjectLog.FragmentOfObject | src/objectlog.c:257-304 | a fragment's data is in one piece, and `objectlog_next` leads to the next fragment or ends with -2 |
| ObjectLog.ObjectLog.ReadObject | src/ui.c:148-162 | following the fragments terminates and returns the object that the index names: from 0 for the oldest, or from -1 for the newest |
| ObjectLog.ObjectLog.GetObjectSize | src/objectlog.c:312-335 | `objectlog_get_object_size` is the length of that object |
| Substring.StrstrKmp | src/fxlibc/strstr_base.c:25-68 | returns the leftmost match, with or without case folding, in at most twice as many rounds of the matching loop as the haystack has characters |
| Substring.BuildTable | src/fxlibc/strstr_base.c:32-46 | T is the strong failure function, and the inner loop takes at most as many steps in all as the needle has characters |
| Substring.InheritEntry | src/fxlibc/strstr_base.c:38-39 | the entry when the characters behind the longest border agree |
| Substring.FollowEntry | src/fxlibc/strstr_base.c:43-44 | following the table skips only borders that would mismatch again |
| Substring.NextCandidate | src/fxlibc/strstr_base.c:37-46 | the candidate is always the longest proper border |
| Substring.MismatchSkips | src/fxlibc/strstr_base.c:58-64 | resuming at T[pos] loses no occurrence |
| Substring.BoundedCompare | src/fxlibc/strncasecmp.c:4-12 | zero exactly for equal visible parts, and otherwise the difference at the first differing position (`strncmp` with the fold left out) |
| Substring.StrstrBruteforce | src/fxlibc/strstr_base.c:7-22 | the leftmost match, except for an empty needle in an empty haystack |
| Substring.StrstrBase | src/fxlibc/strstr_base.c:70-94 | whichever algorithm runs, a non-empty needle is found at its leftmost match |
| Substring.LeftmostIsUnique | src/fxlibc/strstr_base.c:85-93 | there is one such result, so the two algorithms agree |
| Substring.FoldsLetters | src/fxlibc/strncasecmp.c:9-11 | ignoring case, two characters are equal if and only if they are the same or the two cases of one letter |

## Left out

- Urgent data, IPv6, UDP and fragment reassembly: compiled out or marked as such in the repository.
- The round-trip estimator: after an undisturbed acknowledgment `rto` is any byte.
- TCP option parsing: the peer's MSS is an arbitrary optional 16-bit value, clipped as in the code; `PacketFormat.Parse` sees an MSS option only where it comes first.
- The addresses and the checks of a packet are modelled in Packets, the state of a connection in Tcp; `TcpOutput.Emit` and `Packets.PacketBuffer.CheckInput` join the two at the segment. They are not one program over one buffer: the engine's buffer holds the part from `uip_appdata` on, and EmitStep takes it to be the same bytes.
- Application data beyond the 1460 bytes of the buffer: `uip_send` copies it over what lies behind; here the copy is clipped. SendsFitSegment says that protosockets never send that much.
- Connections are values in an array, so `uip_conn` is an index; the initial sequence number, the first port and the case that a port lookup meets a listening port of 0 are as in the code, the random values arbitrary.
- PsockSend.Psock.PsockSend: takes `data_acked` before `send_data`, an order C leaves open in `data_acked(s) & send_data(s)`, and excludes an acknowledgment with a segment size of zero, on which the loop would not end; MuteNeverAcknowledges says that the engine never shows one.
- PsockDelivery.PsockSendIsReliable: in each callback in which a message starts, is retransmitted or is acknowledged it fits the segment size shown there, also when the callback comes with the end of the connection; CallIsWholeIff shows why. Poll requests find `uip_slen` zero. Data that arrives while the thread waits in `psock_send` is not read by it.
- PsockDelivery.MessagesReachPeer: starts from a peer that has received nothing, and says that what has arrived is right, not that everything arrives.
- PsockAgreement.EndedMeansReceived: leaves out what a peer sends in SYN_SENT, where the code acknowledges whatever number the slot contains.
- `psock_readbuf` and `psock_generator_send`: the first adds nothing to `psock_readto`, the second sends what a function generates.
- PsockRead.Psock.ReadTo: needs a buffer of at least one byte, below 64 KiB; with none the thread restarts for ever.
- Packets.PacketBuffer.TcpChksum: needs an IP length field of at least 20; below that the code sums over memory outside the buffer. CheckInput takes the outcome of that as a parameter.
- Packets.PacketBuffer.Forward: the cache of recent packets is a parameter, the choice of an interface is not modelled.
- SerialRing: the rings' hardware registers, the interrupt-enable flag and the receive half of the handler; a memcpy of the writer is one step.
- Slip.Slipdev.PollPacket: the model's buffer has the one byte more that the code stores past `slip_buf`; StoresPastBufferIff says when it does.
- ObjectLog.ObjectLog.WriteScatteredObject: needs zero-filled storage of two bytes or more, and a total below 64 KiB; LengthWrapsIff says what becomes of the test for larger ones, but not what is then written.
- ObjectLog.ObjectLog.FragmentOfObject: `iterator == size`, which the code lets through, is not an iterator that `objectlog_iterator` or `objectlog_next` returns.
- Substring.StrstrKmp: needs a non-empty needle; with an empty one the code writes `T[0]` of an allocation of no bytes and reads the needle behind its terminator.
- Substring.StrstrBase: excludes that case, an empty needle whose allocation of no bytes succeeds.
- The user interface, the keyboard, IRC and Hayes text handling, ARP, the neighbor table, timers, statistics and logging: display, input and string work.
