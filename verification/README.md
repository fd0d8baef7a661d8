# Verified models of the firmware's network code

The firmware of this repository carries two small TCP/IP stacks (uIP and the lwIP raw HTTP server) and
its own C library. This project models their most intricate code in Dafny and proves what it is for.

| module | models |
|---|---|
| `Bytes`, `Checksum` | machine integers, four-byte sequence numbers, the Internet checksum |
| `Tcp` | what one segment, tick or poll does to a uIP connection, as functions on connections and segments |
| `Packet`, `Uip` | `uip_process` on the packet buffer and the connection table: a class with one method per label, proved equal to the functions of `Tcp` |
| `TcpTable` | invariants of every reachable connection table; slots and local ports |
| `TcpTimers`, `TcpRtt` | exact timeouts; the 8-bit round-trip estimator |
| `TcpDelivery` | two endpoints over a channel that loses, duplicates and reorders |
| `TcpReplies`, `TcpResend` | what is sent and heard: acknowledgements, retransmissions, windows, flags, addresses |
| `TcpTalk` | two stacks from the first SYN to the last acknowledgement |
| `TcpOptions` | when the option loop ends, and what it finds |
| `TcpEdges` | data after our FIN; connections that can never send; slots that are lost; which bytes are shown |
| `Adjust`, `Forward`, `Split` | checksums adjusted in place; forwarding and its cache; segment splitting |
| `Reass` | the fragment bitmap and the test for a complete packet |
| `Psock`, `Arp` | stream readers; the address table |
| `Ssi`, `Httpd` | server-side includes and the HTTP send path |
| `Libc`, `Decimal` | `strcpy`, `strcmp`, `memmove`; `print_dec` and `atoi` |

`dafny verify dfyconfig.toml` checks everything. Multi-byte packet fields are big-endian, as they lie in
the packet. The application callback is a list of the calls it makes (`uip_send`, `uip_close`, ...), for
all such lists; `tcp_write`, `tcp_sndbuf` and `tcp_mss` answer nondeterministically.

## How the parts fit

`Uip.Stack` is the imperative model. Its methods say how the buffer, the table and the packet left for the
driver follow from the old state, by way of the functions `Tcp.Input`, `Tcp.Timer` and `Tcp.Poll`. The
theorems on what those functions mean (`TcpReplies`, `TcpTalk`) and about runs (`TcpTable.ReachableInv`, `TcpTimers.ClosesExactly`, `TcpDelivery.Delivery`) are about
those functions, so they hold of the methods.

## Where the code does less than its documentation promises

Each item is a theorem for all inputs with its exact condition, and an input for which the code fails.

- The cursor of the option loop of a SYN is 8 bits wide and wraps, so the loop need not end: it ends exactly
  if the walk over the option bytes never comes to the same cursor twice (`TcpOptions.EndsIfNoRevisit`), for
  which it is enough that no option length carries the cursor past 255 (`TcpOptions.NoCarryEnds`). Option
  bytes 1, 3, 255 loop for ever (`TcpOptions.WrapsForEver`).
- The checksum of a TCP packet is computed over the length in the IP header less 20, without a test that this
  is positive: everything read lies in the buffer exactly if the length is at least 20 and the packet ends in
  the buffer (`Packet.ReadsInsideExactly`); a length of 19 passes the header tests (`Packet.OutsideFrame`).
- A poll request does not reset `uip_slen`: bytes left in the buffer are sent as new data exactly when an
  earlier invocation left `uip_slen` positive and the application neither sends, closes nor aborts
  (`TcpDelivery.PollSendsStaleBytes`). A tick of one connection followed by a poll of another does it
  (`TcpDelivery.LeftoverIsSent`). `TcpDelivery.Delivery` is about runs without such a poll.
- The 8-bit fields of the round-trip estimator hold the true values exactly if the deviation is at most 128
  and the true values fit (`TcpRtt.ExactExactly`). On a connection whose estimate is in its normal range that
  is: the retransmission clock is at most `rto + sa - sa / 8` (`TcpRtt.AckIsExact`), which holds over every
  run in which acknowledgements come in time (`TcpRtt.RunStaysCalm`). But `nrtx` is reset by any data of
  the peer after a retransmission, and then the clock can stand above: a run from the start of the engine
  ends with `sa` 253 where -3 is meant (`TcpRtt.EstimatorCanWrap`).
- A connection whose maximum segment size is 0 can never send data, for good (`TcpEdges.StarvedForGood`), and
  in every reachable state no other is starved (`TcpEdges.ReachableSizes`). A passive open leaves it with
  that exactly if the SYN announces 0, or announces nothing and the slot never had a size
  (`TcpEdges.StarvedExactly`); an active open exactly if the SYN ACK announces 0 (`TcpEdges.AnswerSizes`);
  no other operation takes or gives a size (`TcpEdges.ExecSizes`).
- An application that leaves a connection stopped in the callback for its end breaks the invariant of the
  table, and nothing else does (`TcpTable.ExecKeepsInv`): on a RST with nothing outstanding
  (`TcpEdges.StopOnReset`) the slot is lost, until another RST comes for it (`TcpEdges.WedgedStays`,
  `TcpEdges.WedgedForGood`).
- The data an application is shown lies in the packet exactly if the header length, with urgent data that is
  skipped, is between 20 bytes and what the packet has room for (`TcpEdges.ShownInPacket`); a segment of 40
  bytes with a header of 60 acknowledges 65,496 bytes (`TcpEdges.HeaderBeyond`). It is the data of the segment,
  whatever that is, exactly if the header has no options (`TcpEdges.OptionsShift`).
- In-order data is acknowledged but never delivered exactly in FIN_WAIT_1 and FIN_WAIT_2
  (`TcpEdges.DiscardedExactly`), and there it goes unanswered exactly if it comes with the acknowledgement of
  our FIN and without the peer's (`TcpReplies.DataAfterFin`).
- Urgent data is skipped without being acknowledged: a segment that is due is acknowledged in full exactly if
  it has no urgent pointer, or that is 0 (`TcpReplies.UrgentUnacknowledged`).
- `uip_unlisten` stops listening exactly if the port was not listened to twice (`TcpTable.UnlistenExactly`).
- An echo request that carries nothing but zeros is answered with checksum field 0 instead of 0xffff
  (`Adjust.EchoVerifies`, `Adjust.ZeroPing`), and a host without an address answers pings with an IP header
  that verifies only if the address sums happen to agree (`Adjust.EchoHeaderVerifies`).
- The test for a complete reassembled packet does not look at the byte of the bitmap before the last one:
  what it says of the blocks is `Reass.PassesExactly`, it is right exactly if that byte is full or there is
  none (`Reass.CompleteExactly`), and the last eight bytes of a packet of 72 pass (`Reass.HoleUnseen`). The
  guard on the end of a fragment lets through ends that have no place in the bitmap (`Reass.EndHasPlace`).
- An insert due at the very end of a file is not sent, nor any insert when sending starts there
  (`Ssi.ResponseIsExpansion`, `Ssi.LoneTag`). A tag is
  recognised exactly if the scanner that has read everything before it is idle (`Ssi.ReportedIffIdle`), so
  one right after a stray `<` is not (`Ssi.StrayLessThan`, `Ssi.MissedTag`).
- ARP entries for addresses with one half zero are duplicated and the outdated one is found
  (`Arp.HalfZeroLearntTwice`, `Arp.LastLearntIsFound`); entries stamped later than 135 on the 8-bit clock
  never expire (`Arp.ExpiresIfStampedEarly`).
- A reader of `psock` started in a later callback than the one that gave the previous reader its last byte
  misses that callback's data, whatever it is (`Psock.Socket.ReadTo`, `Psock.Socket.NextCallback`,
  `Psock.MissedLine`), and a buffer of size 0 is never filled
  (`Psock.Socket.ReadTo`, `Psock.Socket.ReadBuf`).
- `atoi` of a number below ten times 2^31 gives the number or 2^31 - 1, whichever is less, exactly if the
  number is below 2^32 or its remainder modulo 2^32 is at least 2^31 - 1 (`Decimal.SaturatesExactly`); 2^32
  is read as 0 (`Decimal.WrapsToZero`).

## Model

| member | source | states |
|---|---|---|
| Bytes.Add32 | src/software/firmware_uip/uip/uip.c:247-273 | the byte-wise sum with hand-made carries is addition modulo 2^32 |
| Bytes.Increment | src/software/firmware_uip/uip/uip.c:713-719 | the nested byte increments add 1 modulo 2^32 |
| Bytes.PlusInjective | src/software/firmware_uip/uip/uip.c:247-273 | offsets below 2^32 from one base name different sequence numbers |
| Checksum.Chksum | src/software/firmware_uip/uip/uip.c:279-308 | the loop folds the words of the given bytes, an odd last byte padded |
| Checksum.FoldIsOnesSum | src/software/firmware_uip/uip/uip.c:289-307 | the checksum is the representative modulo 65535 of start plus all words |
| Checksum.OnesCongruent | src/software/firmware_uip/uip/uip.c:289-307 | two sums have the same checksum exactly if both are zero, or neither is and they are congruent modulo 65535 |
| Checksum.WordSumZero | src/software/firmware_uip/uip/uip.c:289-307 | the sum is zero only if every byte is |
| Checksum.FoldComposes | src/software/firmware_uip/uip/uip.c:343-351 | summing in pieces cut at an even offset gives the sum of the whole |
| Checksum.ByteOrderIndependent | src/software/firmware_uip/uip/uip.c:310-314 | exchanging the bytes of every word exchanges the bytes of the sum |
| Checksum.WordSumUpdate | src/software/firmware_uip/uip/uip.c:289-307 | replacing one word changes the sum by the difference |
| Packet.ReadsInsideExactly | src/software/firmware_uip/uip/uip.c:329-352 | every read of the TCP checksum lies in the buffer exactly if the IP length is at least 20 and the packet ends in it |
| Packet.OutsideFrame | src/software/firmware_uip/uip/uip.c:840-946 | a frame with 19 as IP length passes the header tests, and its checksum reads outside |
| Packet.AdmitsExactly | src/software/firmware_uip/uip/uip.c:840-946 | which packets are let in, by the fields of the header: version, header length, length, no fragment, destination, and words that sum to 0 modulo 65535 |
| Packet.IpSumHolds | src/software/firmware_uip/uip/uip.c:317-325 | the header checksum holds exactly if the twenty bytes sum to 0 modulo 65535 |
| Packet.TcpSumHolds | src/software/firmware_uip/uip/uip.c:329-352 | the TCP checksum holds exactly if pseudo-header, written out with protocol number 6 and the TCP length, header and data sum to 0 modulo 65535 |
| Packet.FrameRead | src/software/firmware_uip/uip/uip.h:1386-1420 | headers laid out field by field are read back as the segment |
| Packet.HeadersLaidOut | src/software/firmware_uip/uip/uip.c:1797-1862 | a packet sent has those headers, byte for byte, with TTL 64 and TOS 0 |
| Packet.FlagBytes | src/software/firmware_uip/uip/uip.c:197-203 | the flags bytes of the segments sent |
| Packet.SealedIsAdmitted | src/software/firmware_uip/uip/uip.c:840-946 | what one stack sends, the one it is addressed to admits |
| Packet.NetworkOrder | src/software/firmware_uip/uip/uip.c:247-273 | sequence numbers lie in network order |
| Packet.SealIp | src/software/firmware_uip/uip/uip.c:1861-1862 | storing the complement of the sum over a zero field makes the header sum 0xffff |
| Packet.SealTcp | src/software/firmware_uip/uip/uip.c:1844-1845 | the same for the TCP sum with its pseudo-header |
| Packet.SegOfLengthened | src/software/firmware_uip/uip/uip.c:1829-1841 | length, TTL and urgent pointer are all that the tail changes in a segment |
| Packet.CtlOfByteOf | src/software/firmware_uip/uip/uip.c:1791-1792 | control bits written to the flags byte are read back |
| Uip.Stack.constructor | src/software/firmware_uip/uip/uip.c:379-403 | the table starts with CLOSED slots, no listening port and last port 1024 |
| Uip.Stack.IpChksum | src/software/firmware_uip/uip/uip.c:317-325 | the header checksum, with 0 shown as 0xffff |
| Uip.Stack.TcpChksum | src/software/firmware_uip/uip/uip.c:329-352 | the checksum over pseudo-header, TCP header and data, whenever what is read lies in the buffer |
| Uip.Stack.IpSendNolen | src/software/firmware_uip/uip/uip.c:1847-1862 | the packet leaves with both checksums valid and the same TCP segment |
| Uip.Stack.TcpSendNoconn | src/software/firmware_uip/uip/uip.c:1829-1845 | length field equal to uip_len, both checksums valid, everything else of the segment kept |
| Uip.Stack.TcpSend | src/software/firmware_uip/uip/uip.c:1797-1827 | the segment left is the one the connection owes: numbers, ports, addresses, window and the bytes in the buffer |
| Uip.Stack.TcpSendNodata | src/software/firmware_uip/uip/uip.c:1791-1796 | a segment without data with the given control bits |
| Uip.Stack.TcpSendSyn | src/software/firmware_uip/uip/uip.c:1361-1379 | a SYN or SYN ACK with the maximum-segment-size option |
| Uip.Stack.Send | src/software/firmware_uip/uip/uip.c:1888-1896 | uip_send copies its data and sets uip_slen unless the length is 0 |
| Uip.Stack.Serve | src/software/firmware_uip/uip/uip.h:570-612 | the effect of each application call on flags, length, stopped bit and buffer |
| Uip.Stack.AppCallback | src/software/firmware_uip/uip/uip.c:1645-1646 | a callback shows the connection, flags and new data, and has the effect of the calls made in it |
| Uip.Stack.PrepareSend | src/software/firmware_uip/uip/uip.c:1667-1698 | new data is cut to the segment size, old data keeps its length, nrtx is reset |
| Uip.Stack.AppRexmit | src/software/firmware_uip/uip/uip.c:1699-1720 | data, a bare acknowledgement or nothing is sent |
| Uip.Stack.AppSend | src/software/firmware_uip/uip/uip.c:1648-1720 | abort, close, data or acknowledgement after a callback |
| Uip.Stack.HandleAck | src/software/firmware_uip/uip/uip.c:1422-1460 | an acknowledgement of exactly what is outstanding moves the sequence number, feeds the estimator and clears the length |
| Uip.Stack.EstimateRtt | src/software/firmware_uip/uip/uip.c:1438-1448 | the estimator in signed and unsigned 8-bit arithmetic |
| Uip.Stack.IsOutOfOrder | src/software/firmware_uip/uip/uip.c:1407-1416 | which segments are answered with a bare acknowledgement |
| Uip.Stack.InSynRcvd | src/software/firmware_uip/uip/uip.c:1468-1485 | in SYN_RCVD an acknowledgement of the SYN establishes the connection and delivers data that came with it; anything else is dropped |
| Uip.Stack.InSynSent | src/software/firmware_uip/uip/uip.c:1487-1545 | in SYN_SENT only a SYN ACK for our SYN establishes the connection; anything else aborts it with a RST |
| Uip.Stack.InEstablished | src/software/firmware_uip/uip/uip.c:1548-1720 | in ESTABLISHED: FIN, urgent pointer, new data, window, callback and answer, as Tcp.InEstablished says, down to the bytes of the answer |
| Uip.Stack.TakeFin | src/software/firmware_uip/uip/uip.c:1560-1576 | the peer's FIN is ignored while data is outstanding, else acknowledged with ours |
| Uip.Stack.AbsorbSegment | src/software/firmware_uip/uip/uip.c:1580-1626 | what is taken from a segment before the callback |
| Uip.Stack.InFinWait1 | src/software/firmware_uip/uip/uip.c:1731-1758 | in FIN_WAIT_1: to TIME_WAIT, CLOSING or FIN_WAIT_2, data acknowledged and discarded |
| Uip.Stack.InFinWait2 | src/software/firmware_uip/uip/uip.c:1760-1775 | in FIN_WAIT_2: to TIME_WAIT on a FIN, data acknowledged and discarded |
| Uip.Stack.InLateState | src/software/firmware_uip/uip/uip.c:1721-1786 | in LAST_ACK and CLOSING only the acknowledgement of our FIN counts; TIME_WAIT answers everything with an acknowledgement |
| Uip.Stack.Switch | src/software/firmware_uip/uip/uip.c:1463-1786 | the switch on the connection state does what Tcp.InState says, down to the bytes of the answer |
| Uip.Stack.TakeReset | src/software/firmware_uip/uip/uip.c:1389-1395 | a RST closes the connection and tells the application |
| Uip.Stack.Found | src/software/firmware_uip/uip/uip.c:1382-1463 | a segment for a connection does what Tcp.Arrive says, down to the bytes of the answer |
| Uip.Stack.ParseMss | src/software/firmware_uip/uip/uip.c:1327-1357 | the option loop, whenever it ends: the cursor wraps at 256 as in the source, and the first well-formed maximum-segment-size option it comes to counts |
| Uip.Stack.Reset | src/software/firmware_uip/uip/uip.c:1216-1267 | the RST turns the segment round: numbers exchanged, acknowledgement plus 1, ports and addresses exchanged, valid checksums; none for a RST |
| Uip.Stack.Demux | src/software/firmware_uip/uip/uip.c:1189-1197 | the first active connection with the addresses and ports of the segment |
| Uip.Stack.PickSlot | src/software/firmware_uip/uip/uip.c:1279-1291 | the slot chosen by the scan: the first CLOSED one, else the oldest in TIME_WAIT, else none |
| Uip.Stack.FoundListen | src/software/firmware_uip/uip/uip.c:1272-1379 | a SYN for a listening port fills a slot and is answered with SYN ACK, or is dropped |
| Uip.Stack.Dispatch | src/software/firmware_uip/uip/uip.c:1187-1267 | a segment goes to its connection, to a listening port, or is answered with a RST |
| Uip.Stack.TcpInput | src/software/firmware_uip/uip/uip.c:1173-1184 | segments with a bad checksum change nothing |
| Uip.Stack.Admit | src/software/firmware_uip/uip/uip.c:840-946 | which packets pass the IP tests |
| Uip.Stack.EchoReply | src/software/firmware_uip/uip/uip.c:996-1009 | type, checksum and addresses of the reply; all other bytes stay |
| Uip.Stack.Input | src/software/firmware_uip/uip/uip.c:826-1009 | uip_process(UIP_DATA) as a whole: dropped, answered as a ping, or what Tcp.Input says |
| Uip.Stack.Rexmit | src/software/firmware_uip/uip/uip.c:771-799 | the retransmission of each state |
| Uip.Stack.TimerDue | src/software/firmware_uip/uip/uip.c:740-799 | give up with a RST, or back off and retransmit |
| Uip.Stack.WaitOut | src/software/firmware_uip/uip/uip.c:729-734 | the timer of TIME_WAIT and FIN_WAIT_2 |
| Uip.Stack.Periodic | src/software/firmware_uip/uip/uip.c:706-809 | uip_process(UIP_TIMER) as a whole is Tcp.Timer, and the initial sequence number grows by 1 |
| Uip.Stack.PollRequest | src/software/firmware_uip/uip/uip.c:696-703 | uip_process(UIP_POLL_REQUEST) is Tcp.Poll, with uip_slen as it was |
| Uip.Stack.PickPort | src/software/firmware_uip/uip/uip.c:411-427 | the again loop ends with a port that no connection uses, after one candidate more than there are slots at most |
| Uip.Stack.Connect | src/software/firmware_uip/uip/uip.c:407-471 | the new connection takes a slot and a port no other connection uses |
| Uip.Stack.Listen | src/software/firmware_uip/uip/uip.c:528-537 | the first free entry takes the port |
| Uip.Stack.Unlisten | src/software/firmware_uip/uip/uip.c:517-526 | the first entry with the port is freed |
| TcpTable.ReachableInv | src/software/firmware_uip/uip/uip.c:690-1879 | in every reachable state live connections have distinct endpoints, and len, mss and nrtx keep the bounds of their state |
| TcpTable.ExecKeepsInv | src/software/firmware_uip/uip/uip.c:690-1879 | every segment, tick, poll and API call keeps that invariant, exactly if the application does not leave a connection stopped that is closed or about to be |
| TcpTable.InputKeepsInv | src/software/firmware_uip/uip/uip.c:1187-1379 | a segment keeps it exactly on that condition, also when it opens a connection |
| TcpTable.TimerKeeps | src/software/firmware_uip/uip/uip.c:729-809 | a tick keeps the endpoints of a connection, and its bounds exactly on that condition |
| TcpTable.ArriveKeeps | src/software/firmware_uip/uip/uip.c:1382-1786 | so does a segment, in every state |
| TcpTable.SlotIsBest | src/software/firmware_uip/uip/uip.c:429-447 | the first CLOSED slot, else a TIME_WAIT slot of greatest timer, else none |
| TcpTable.SynDisplacesNothing | src/software/firmware_uip/uip/uip.c:1279-1317 | a SYN changes no slot but the one chosen, which was CLOSED or in TIME_WAIT |
| TcpTable.FreePortIsFree | src/software/firmware_uip/uip/uip.c:411-427 | among one more candidate than there are slots one is unused |
| TcpTable.CandidatesDistinct | src/software/firmware_uip/uip/uip.c:413-417 | successive candidates are different over the wrapping range |
| TcpTable.UpdateFirst | src/software/firmware_uip/uip/uip.c:516-536 | the first entry with the port is replaced, and no other |
| TcpTable.ListenExactly | src/software/firmware_uip/uip/uip.c:528-537 | the port is listened to afterwards exactly if it was, or there was a free entry |
| TcpTable.UnlistenExactly | src/software/firmware_uip/uip/uip.c:517-526 | it is still listened to afterwards exactly if it was entered twice |
| TcpTable.ConnectKeepsInv | src/software/firmware_uip/uip/uip.c:407-471 | an active open keeps endpoints distinct |
| TcpTable.InvGivesRoom | src/software/firmware_uip/uip/uip.c:1303-1317 | the bounds keep every access inside the application area |
| TcpTable.PacketsFit | src/software/firmware_uip/uip/uip.c:1705-1710 | no TCP packet is longer than its headers and one maximum segment |
| TcpTimers.ClosesExactly | src/software/firmware_uip/uip/uip.c:729-799 | with only ticks, a waiting connection is CLOSED after exactly timer + 1 + the sum of the remaining backoffs, or at the end of its wait |
| TcpTimers.TickBurns | src/software/firmware_uip/uip/uip.c:729-799 | each tick lowers that measure by one |
| TcpTimers.FuseBounded | src/software/firmware_uip/uip/uip.c:729-799 | at most 256 ticks in TIME_WAIT and FIN_WAIT_2, at most 501 with outstanding data |
| TcpTimers.BackoffIsShift | src/software/firmware_uip/uip/uip.c:758-761 | the backoff is 3 shifted by the number of retransmissions, at most 4 |
| TcpRtt.NeverWraps | src/software/firmware_uip/uip/uip.c:1437-1450 | over samples of at most b <= 31 ticks sa, sv and rto stay in their bounds |
| TcpRtt.StepSteady | src/software/firmware_uip/uip/uip.c:1437-1450 | one such sample: 8-bit arithmetic is exact |
| TcpRtt.FreshIsSteady | src/software/firmware_uip/uip/uip.c:1304-1307 | both kinds of new connection start in bounds |
| TcpRtt.ExactExactly | src/software/firmware_uip/uip/uip.c:1437-1450 | for any estimate and any sample a connection can give: all three fields are exact exactly if the deviation is at most 128 and the true values lie in a byte |
| TcpRtt.ExactWhenSteady | src/software/firmware_uip/uip/uip.c:1437-1450 | in the normal range one inequality decides that |
| TcpRtt.AckIsExact | src/software/firmware_uip/uip/uip.c:1430-1450 | an acknowledgement leaves the true estimate exactly if the clock is at most rto + sa - sa / 8 |
| TcpRtt.RunStaysCalm | src/software/firmware_uip/uip/uip.c:690-1786 | over any run of segments, ticks, polls and API calls in which the acknowledgements of data never retransmitted come within b ticks, every estimator stays in its bounds |
| TcpRtt.EstimatorCanWrap | src/software/firmware_uip/uip/uip.c:1437-1450 | a run from the initial state after which the acknowledgement of one byte makes sa 253 where -3 is exact |
| TcpDelivery.Delivery | src/software/firmware_uip/uip/uip.c:1382-1786 | over any run of two endpoints the bytes delivered are a prefix of those submitted, and their number is the acknowledged count or that plus len |
| TcpDelivery.MoveKeeps | src/software/firmware_uip/uip/uip.c:690-1786 | every event at one endpoint keeps the two sides linked |
| TcpDelivery.ArriveKeepsLinked | src/software/firmware_uip/uip/uip.c:1382-1786 | the arrival of any segment of the channel, old or new |
| TcpDelivery.EstablishedArrival | src/software/firmware_uip/uip/uip.c:1548-1720 | an arrival in ESTABLISHED |
| TcpDelivery.SynRcvdArrival | src/software/firmware_uip/uip/uip.c:1468-1485 | an arrival in SYN_RCVD |
| TcpDelivery.SynSentArrival | src/software/firmware_uip/uip/uip.c:1487-1545 | an arrival in SYN_SENT |
| TcpDelivery.FinArrival | src/software/firmware_uip/uip/uip.c:1560-1576 | the peer's FIN: everything has been delivered |
| TcpDelivery.TickKeepsLinked | src/software/firmware_uip/uip/uip.c:706-809 | a tick: retransmissions carry the bytes already sent |
| TcpDelivery.AckMeansAll | src/software/firmware_uip/uip/uip.c:1422-1428 | an acknowledgement the engine accepts means that the peer has everything |
| TcpDelivery.NextChunk | src/software/firmware_uip/uip/uip.c:1407-1416 | in-order data is exactly the chunk outstanding at the sender |
| TcpDelivery.PollSendsStaleBytes | src/software/firmware_uip/uip/uip.c:696-703 | when a poll sends bytes that were not submitted |
| TcpDelivery.LeftoverIsSent | src/software/firmware_uip/uip/uip.c:692-703 | a tick on which one application sends leaves uip_slen positive, and the next poll of another idle connection sends what lies in the buffer |
| TcpOptions.EndsIfNoRevisit | src/software/firmware_uip/uip/uip.c:1327-1357 | the option loop ends exactly if its 8-bit cursor never takes a value twice, and then within one round more than there are option bytes |
| TcpOptions.NoCarryEnds | src/software/firmware_uip/uip/uip.c:1327-1357 | it ends if no option length carries the cursor past 255 |
| TcpOptions.WrapsForEver | src/software/firmware_uip/uip/uip.c:1327-1357 | with option bytes 1, 3, 255 the cursor returns to 0 and the loop does not end |
| TcpOptions.OwnSynEnds | src/software/firmware_uip/uip/uip.c:1361-1379 | on the SYN that uIP itself sends it ends and yields the announced size |
| TcpOptions.SizeIsFound | src/software/firmware_uip/uip/uip.c:1327-1357 | after any row of other options, kind 2 with length 4 gives the segment size, and the end of the list gives none |
| TcpReplies.LateIsAcked | src/software/firmware_uip/uip/uip.c:1407-1416 | a segment that carries something else than what is due is answered with what is due, in every state, and changes nothing |
| TcpReplies.AdvanceIsAcked | src/software/firmware_uip/uip/uip.c:1463-1786 | whatever moves rcv_nxt is acknowledged at once with the new number, but for data that comes with the acknowledgement of our FIN |
| TcpReplies.NewDataIsAcked | src/software/firmware_uip/uip/uip.c:1699-1720 | a callback that shows new data is answered with an acknowledgement, whatever calls it makes |
| TcpReplies.DataAfterFin | src/software/firmware_uip/uip/uip.c:1731-1775 | exactly when data after our FIN goes unanswered |
| TcpReplies.RetransmitsAll | src/software/firmware_uip/uip/uip.c:771-799 | a retransmission starts at snd_nxt and takes up as many numbers as are outstanding: SYN, SYN ACK or FIN ACK by state |
| TcpReplies.AsksForData | src/software/firmware_uip/uip/uip.c:780-790 | in ESTABLISHED the application is asked with REXMIT alone, and what it sends goes out as the outstanding bytes |
| TcpReplies.GivesUpWithReset | src/software/firmware_uip/uip/uip.c:740-757 | after 5 or 8 retransmissions: a RST, CLOSED, and TIMEDOUT for the application |
| TcpReplies.AnswersSender | src/software/firmware_uip/uip/uip.c:1187-1379 | every answer goes back to the address and port the segment came from, and a RST is never answered |
| TcpReplies.ReachesOtherEnd | src/software/firmware_uip/uip/uip.c:1189-1197 | what one end sends is taken for the connection with the mirrored endpoints, and for no other |
| TcpReplies.ResetComesBack | src/software/firmware_uip/uip/uip.c:1216-1267 | a RST turned round reaches the connection that sent the segment, and closes it |
| TcpReplies.HeardEstablished | src/software/firmware_uip/uip/uip.c:1548-1646 | when a segment calls the application in ESTABLISHED, and with which flags |
| TcpReplies.HeardElsewhere | src/software/firmware_uip/uip/uip.c:1389-1786 | the same in every other state |
| TcpReplies.HeardIdle | src/software/firmware_uip/uip/uip.c:696-809 | POLL, for an idle established connection and no other idle one |
| TcpReplies.Announces | src/software/firmware_uip/uip/uip.c:1797-1827 | the window announced is the own segment size, or 0 while stopped |
| TcpReplies.KeepsWindow | src/software/firmware_uip/uip/uip.c:1609-1685 | no more is sent at once than the window just announced, unless 0, nor than the segment size |
| TcpReplies.UrgentUnacknowledged | src/software/firmware_uip/uip/uip.c:1594-1607 | exactly when all of a segment is acknowledged |
| TcpReplies.UrgentSkipped | src/software/firmware_uip/uip/uip.c:1594-1607 | the application is shown what is behind the urgent pointer |
| TcpReplies.FinWithData | src/software/firmware_uip/uip/uip.c:1560-1576 | data with the FIN is shown; both are acknowledged exactly if the length is not 65535 |
| TcpReplies.DataWithAck | src/software/firmware_uip/uip/uip.c:1468-1485 | data with the acknowledgement of our SYN ACK is shown |
| TcpReplies.BringsNothing | src/software/firmware_uip/uip/uip.c:1463-1786 | which segments leave a connection as it is, without an answer |
| TcpReplies.OnlyWindow | src/software/firmware_uip/uip/uip.c:1621-1646 | an established connection that is told nothing new takes the window only |
| TcpReplies.TimeWaitAcks | src/software/firmware_uip/uip/uip.c:1777-1778 | TIME_WAIT acknowledges whatever comes and stays |
| TcpReplies.WaitsFromStart | src/software/firmware_uip/uip/uip.c:1731-1786 | TIME_WAIT is entered on three occasions, with its timer at 0 |
| TcpReplies.OpenRefused | src/software/firmware_uip/uip/uip.c:1540-1546 | anything but the SYN ACK for our SYN closes an active open and is answered with a RST |
| TcpReplies.NoSlotNoAnswer | src/software/firmware_uip/uip/uip.c:1279-1300 | a SYN is dropped when every slot is taken |
| TcpReplies.NoSlotNoConnection | src/software/firmware_uip/uip/uip.c:407-447 | uip_connect without a free slot changes the last port only |
| TcpReplies.ResetLeavesLength | src/software/firmware_uip/uip/uip.c:1389-1395 | what is sent in the callback for a RST is not sent, but its length is left in uip_slen |
| TcpResend.ResendsAll | src/software/firmware_uip/uip/uip.c:771-799 | in terms of the stream: a retransmission covers the units from the first unacknowledged to the last sent |
| TcpTalk.Handshake | src/software/firmware_uip/uip/uip.c:407-1545 | from uip_connect and a listening port to two established ends that agree on numbers, with the smaller segment size |
| TcpTalk.Refused | src/software/firmware_uip/uip/uip.c:1216-1267 | a connection to a port nobody listens on is closed, and the application told |
| TcpTalk.Exchange | src/software/firmware_uip/uip/uip.c:696-1720 | what one application sends on a poll the other is shown byte for byte, the first is told, and the ends agree again |
| TcpTalk.Teardown | src/software/firmware_uip/uip/uip.c:1548-1786 | one side closes and the other follows: TIME_WAIT and CLOSED |
| TcpTalk.CloseAtOnce | src/software/firmware_uip/uip/uip.c:1731-1786 | both close at once: the FINs cross and both end in TIME_WAIT |
| TcpTalk.OwnSizeWithoutOption | src/software/firmware_uip/uip/uip.c:1487-1538 | without the option an active open keeps its own segment size |
| TcpTalk.StoppedTakesNothing | src/software/firmware_uip/uip/uip.c:1604-1607 | a stopped connection takes no data and does not answer it |
| TcpTalk.RestartAnnounces | src/software/firmware_uip/uip/uip.h:596-612 | uip_restart announces the open window at once |
| TcpTalk.PollAborts | src/software/firmware_uip/uip/uip.c:1648-1656 | uip_abort sends a RST and closes |
| TcpEdges.DiscardedExactly | src/software/firmware_uip/uip/uip.c:1382-1786 | in-order data is acknowledged without a callback exactly in FIN_WAIT_1 and FIN_WAIT_2 |
| TcpEdges.StarvedExactly | src/software/firmware_uip/uip/uip.c:1303-1357 | a passive open leaves a connection starved exactly if the SYN says 0, or says nothing and the slot had no size |
| TcpEdges.AnswerSizes | src/software/firmware_uip/uip/uip.c:1487-1538 | an active open leaves it without a size exactly if the SYN ACK says 0, or says nothing and there was none |
| TcpEdges.ExecSizes | src/software/firmware_uip/uip/uip.c:690-1786 | for every operation and slot: starved afterwards exactly by one of those two, or as before |
| TcpEdges.ReachableSizes | src/software/firmware_uip/uip/uip.c:690-1786 | in every reachable state a connection is starved exactly if it has no maximum segment size |
| TcpEdges.ShownInPacket | src/software/firmware_uip/uip/uip.c:1396-1402 | what the application is shown lies in the packet exactly if the header is at least 20 bytes and, with the bytes skipped, fits it |
| TcpEdges.OptionsShift | src/software/firmware_uip/uip/uip.c:1396-1402 | what is shown is the data for all contents exactly if there are no options |
| TcpEdges.HeaderBeyond | src/software/firmware_uip/uip/uip.c:1396-1402 | a segment of 40 bytes with a header of 60 is taken for 65,496 bytes of data |
| TcpEdges.StopOnReset | src/software/firmware_uip/uip/uip.c:1389-1395 | a RST on a connection with nothing outstanding leaves its slot unusable exactly if the application leaves it stopped |
| TcpEdges.WedgedStays | src/software/firmware_uip/uip/uip.c:690-1786 | no operation reuses such a slot, and only another RST frees it |
| TcpEdges.WedgedForGood | src/software/firmware_uip/uip/uip.c:690-1786 | the same over whole runs |
| TcpEdges.StarvedForGood | src/software/firmware_uip/uip/uip.c:690-1786 | over any run that does not give its slot to another connection, such a connection stays so and never sends data |
| Adjust.BumpAt | src/software/firmware_uip/uip/uip.c:996-1002 | the adjustment in the byte order of the host adds the same amount in network order |
| Adjust.BumpEitherOrder | src/software/firmware_uip/uip/uip.c:996-1002 | the adjustment commutes with exchanging bytes |
| Adjust.SumUnchanged | src/software/firmware_uip/uip/uip-fw.c:462-470 | lowering one word and adjusting the checksum leaves the sum unchanged modulo 65535 |
| Adjust.StillVerifies | src/software/firmware_uip/uip/uip-fw.c:462-470 | what summed to one zero sums to one or the other; to the second exactly if all bytes are zero |
| Adjust.EchoVerifies | src/software/firmware_uip/uip/uip.c:996-1002 | the reply verifies exactly if the request carries something nonzero |
| Adjust.EchoHeaderVerifies | src/software/firmware_uip/uip/uip.c:1004-1006 | the header, not recomputed, is right exactly if the host address and the request destination have the same sum |
| Adjust.ZeroPing | src/software/firmware_uip/uip/uip.c:996-1002 | the ping whose reply has a wrong checksum |
| Adjust.HopCountsDown | src/software/firmware_uip/uip/uip-fw.c:461-463 | the TTL counts down modulo 256 |
| Adjust.HopVerifies | src/software/firmware_uip/uip/uip-fw.c:462-470 | a header that verified before a hop verifies after it |
| Forward.ForwardPacket | src/software/firmware_uip/uip/uip-fw.c:405-486 | the fate of a packet, with the buffer, the length and the cache afterwards: local, a duplicate, one hop on, or replaced by a time-exceeded message; untouched where nothing is sent |
| Forward.Cache.Find | src/software/firmware_uip/uip/uip-fw.c:425-449 | a packet is a duplicate exactly if an entry in use has its identity |
| Forward.Cache.Register | src/software/firmware_uip/uip/uip-fw.c:281-307 | the entry given up is the first unused one, else the last of least time |
| Forward.Cache.Periodic | src/software/firmware_uip/uip/uip-fw.c:522-531 | every entry in use loses one period |
| Forward.KnownForTwenty | src/software/firmware_uip/uip/uip-fw.c:281-307 | a packet registered is known for exactly 20 periods, and the entry it replaces had no longer to live than any other |
| Forward.DuplicateKnown | src/software/firmware_uip/uip/uip-fw.c:425-479 | a duplicate of a packet that was sent on, one hop less, is recognised for exactly 20 periods |
| Forward.IdentityExactly | src/software/firmware_uip/uip/uip-fw.c:428-445 | two packets have the same identity exactly if identifier, protocol and both addresses agree |
| Forward.OnlyDuplicatesDropped | src/software/firmware_uip/uip/uip-fw.c:425-479 | after a packet was sent on, another is dropped exactly if it agrees with it in those bytes |
| Forward.TimeExceededReads | src/software/firmware_uip/uip/uip-fw.c:221-273 | what the sender reads: type 11, its header and eight bytes more, checksums that hold |
| Forward.MakeTimeExceeded | src/software/firmware_uip/uip/uip-fw.c:221-273 | the message quotes 28 bytes of the packet, goes to its sender, and has valid checksums; none about ICMP |
| Forward.Quote | src/software/firmware_uip/uip/uip-fw.c:231-240 | type, quotation and ICMP checksum |
| Forward.ForwardedVerifies | src/software/firmware_uip/uip/uip-fw.c:452-476 | whatever is forwarded has a valid header checksum and one hop less |
| Split.SplitOutput | src/software/firmware_uip/uip/uip-split.c:48-132 | a full segment leaves as two segments with valid checksums, the halves of the original, whatever its own checksums were; any other packet unchanged |
| Split.CopyDown | src/software/firmware_uip/uip/uip-split.c:109 | the overlapping copy moves the old bytes |
| Split.Renumber | src/software/firmware_uip/uip/uip-split.c:108-115 | data and sequence number of the second half |
| Split.Reseal | src/software/firmware_uip/uip/uip-split.c:65-86 | lengths and checksums after a change of length |
| Split.HalvesBalanced | src/software/firmware_uip/uip/uip-split.c:57-63 | the halves make up the whole, and the second has the odd byte |
| Split.SplitCarriesAll | src/software/firmware_uip/uip/uip-split.c:57-115 | the halves carry exactly the numbered bytes of the original, modulo 2^32, each once |
| Reass.Reassembly.Take | src/software/firmware_uip/uip/uip.c:584-617 | after any sequence of fragments a block is marked exactly if some fragment covers it |
| Reass.Reassembly.Mark | src/software/firmware_uip/uip/uip.c:598-617 | one fragment marks the run of blocks between its ends |
| Reass.Reassembly.Clear | src/software/firmware_uip/uip/uip.c:563-569 | an empty bitmap for a new packet |
| Reass.Reassembly.Complete | src/software/firmware_uip/uip/uip.c:630-647 | the test for a complete packet as the code makes it |
| Reass.PassesExactly | src/software/firmware_uip/uip/uip.c:630-647 | what that test says of the blocks of any bitmap: the byte before the last one is not looked at |
| Reass.CompleteExactly | src/software/firmware_uip/uip/uip.c:630-647 | a packet that passes has all its whole blocks exactly if that byte is full or there is none |
| Reass.HoleUnseen | src/software/firmware_uip/uip/uip.c:630-647 | the last eight bytes of a packet of 72 pass although no other block is there |
| Reass.EndHasPlace | src/software/firmware_uip/uip/uip.c:584-590 | the bitmap has a place for the end of a fragment that the guard admits exactly if the end lies below the last multiple of 64 |
| Reass.BitmapBitsRun | src/software/firmware_uip/uip/uip.c:545-546 | entry s of the table has exactly the bits from s on |
| Reass.CoversRun | src/software/firmware_uip/uip/uip.c:598-617 | a fragment on a block boundary covers a run of blocks |
| Reass.MarkedAcross | src/software/firmware_uip/uip/uip.c:606-617 | two end bytes and the bytes between |
| Psock.Socket.ReadTo | src/software/firmware_uip/uip/psock.c:272-297 | for any cutting into callbacks: as much of the line as fits, with its marker, and the rest still unread; a buffer of size 0 never gets a line. On return the socket is in STATE_READ |
| Psock.Socket.ReadBuf | src/software/firmware_uip/uip/psock.c:299-325 | for any cutting into callbacks: exactly the first bufsize bytes, and the rest still unread; a buffer of size 0 is never filled. On return the socket is in STATE_READ |
| Psock.Socket.BufTo | src/software/firmware_uip/uip/psock.c:110-142 | takes up to the marker, buffers what fits |
| Psock.Socket.BufData | src/software/firmware_uip/uip/psock.c:82-108 | takes what fits and tells whether the buffer is full |
| Psock.Socket.Newdata | src/software/firmware_uip/uip/psock.c:252-270 | which callbacks count as new data |
| Psock.Socket.Await | src/software/firmware_uip/uip/psock.c:282-287 | waiting loses no byte of the stream |
| Psock.Socket.NextCallback | src/software/firmware_uip/uip/psock.c:259-262 | what the next reader still has to read: in STATE_READ the data of the callback is lost to it, and data left over is what lies there now |
| Psock.MissedLine | src/software/firmware_uip/uip/psock.c:252-297 | a reader that takes all of one callback, then a second reader in the next: it finds no line, whatever lines that callback brings |
| Arp.Table.Update | src/software/firmware_uip/uip/uip_arp.c:157-218 | the entry in use for the address, a free one or the oldest is overwritten |
| Arp.Table.Lookup | src/software/firmware_uip/uip/uip_arp.c:380-385 | the first entry with the address |
| Arp.Table.Timer | src/software/firmware_uip/uip/uip_arp.c:141-155 | every used entry of age 120 or more is freed |
| Arp.UpdateRefines | src/software/firmware_uip/uip/uip_arp.c:157-218 | as a map: the new address is known, all others stay, except one of greatest age when the table is full |
| Arp.TimerRefines | src/software/firmware_uip/uip/uip_arp.c:141-155 | as a map: exactly the addresses of age 120 or more are forgotten |
| Arp.LastLearntIsFound | src/software/firmware_uip/uip/uip_arp.c:157-218 | when lookup after update finds the new entry |
| Arp.HalfZeroLearntTwice | src/software/firmware_uip/uip/uip_arp.c:164-193 | an address with one half zero takes any two unused entries, learnt twice, and the old one is found |
| Arp.ExpiresIfStampedEarly | src/software/firmware_uip/uip/uip_arp.c:146-152 | an entry expires after exactly 120 steps or never, by its time stamp |
| Ssi.Step | src/software/firmware_lwip_v2_1_3/lwip_v213/contrib/apps/httpserver_raw/httpd.c:1203-1380 | one byte of the tag scanner; a completed tag has a name of 1 to 8 bytes |
| Ssi.FoundExactly | src/software/firmware_lwip_v2_1_3/lwip_v213/contrib/apps/httpserver_raw/httpd.c:1203-1380 | a name and end are reported exactly if a lead-in, that name and a lead-out, with white space between, start where the scanner is idle and end there |
| Ssi.ReportedIffIdle | src/software/firmware_lwip_v2_1_3/lwip_v213/contrib/apps/httpserver_raw/httpd.c:1203-1380 | a tag of the file is reported exactly if the scanner that has read everything before it is idle |
| Ssi.ExpansionTags | src/software/firmware_lwip_v2_1_3/lwip_v213/contrib/apps/httpserver_raw/httpd.c:1203-1380 | the list of tags that are served is the one list, ordered by their ends, of all tags that start where the scanner is idle |
| Ssi.TagIsFound | src/software/firmware_lwip_v2_1_3/lwip_v213/contrib/apps/httpserver_raw/httpd.c:1203-1380 | a tag that begins where the scanner is idle is reported with its name and end |
| Ssi.StrayLessThan | src/software/firmware_lwip_v2_1_3/lwip_v213/contrib/apps/httpserver_raw/httpd.c:1204-1246 | a tag right after a stray < is never reported |
| Ssi.MissedTag | src/software/firmware_lwip_v2_1_3/lwip_v213/contrib/apps/httpserver_raw/httpd.c:1204-1246 | the shortest such file |
| Ssi.ResponseIsExpansion | src/software/firmware_lwip_v2_1_3/lwip_v213/contrib/apps/httpserver_raw/httpd.c:1147-1495 | what is sent is the file with each insert after its tag, exactly if no insert is due at the very end; if sending starts there, exactly if every insert is empty |
| Ssi.SentIsExpansion | src/software/firmware_lwip_v2_1_3/lwip_v213/contrib/apps/httpserver_raw/httpd.c:1147-1495 | the same from any point of the file on |
| Ssi.InsertIs | src/software/firmware_lwip_v2_1_3/lwip_v213/contrib/apps/httpserver_raw/httpd.c:803-853 | the text for a tag: what the handler gives for the first name equal to it up to a zero byte, or the error marker, written out |
| Ssi.OneTag | src/software/firmware_lwip_v2_1_3/lwip_v213/contrib/apps/httpserver_raw/httpd.c:803-1495 | a file with one tag: the client gets that text right behind it |
| Ssi.TwoTags | src/software/firmware_lwip_v2_1_3/lwip_v213/contrib/apps/httpserver_raw/httpd.c:803-1495 | two tags: the handler is called for the first and then for the second |
| Ssi.LongestName | src/software/firmware_lwip_v2_1_3/lwip_v213/contrib/apps/httpserver_raw/httpd.c:1248-1299 | a name has 1 to 8 bytes |
| Ssi.LoneTag | src/software/firmware_lwip_v2_1_3/lwip_v213/contrib/apps/httpserver_raw/httpd.c:1470-1475 | the shortest file that loses its insert |
| Ssi.FileProgress | src/software/firmware_lwip_v2_1_3/lwip_v213/contrib/apps/httpserver_raw/httpd.c:1181-1186 | sending scanned file data makes progress towards the same whole |
| Ssi.TagStep | src/software/firmware_lwip_v2_1_3/lwip_v213/contrib/apps/httpserver_raw/httpd.c:1325-1340 | completing a tag puts its insert after it |
| Ssi.InsertProgress | src/software/firmware_lwip_v2_1_3/lwip_v213/contrib/apps/httpserver_raw/httpd.c:1432-1449 | sending part of an insert makes progress towards the same whole |
| Httpd.Pcb.Write | src/software/firmware_lwip_v2_1_3/lwip_v213/contrib/apps/httpserver_raw/httpd.c:606-640 | on success a nonempty beginning of the data has been taken; on failure nothing |
| Httpd.BodyStart | src/software/firmware_lwip_v2_1_3/lwip_v213/contrib/apps/httpserver_raw/httpd.c:2177-2187 | an HTTP/0.9 response starts after the first empty line, if there is one before a NUL |
| Httpd.Response.constructor | src/software/firmware_lwip_v2_1_3/lwip_v213/contrib/apps/httpserver_raw/httpd.c:2146-2188 | a response starts with nothing accepted and everything remaining |
| Httpd.Response.GetTagInsert | src/software/firmware_lwip_v2_1_3/lwip_v213/contrib/apps/httpserver_raw/httpd.c:803-853 | the text for a tag: what the handler gives for the first name equal to it, or the marker for an unknown tag |
| Httpd.Response.WriteFile | src/software/firmware_lwip_v2_1_3/lwip_v213/contrib/apps/httpserver_raw/httpd.c:1181-1186 | file data taken is accounted for |
| Httpd.Response.Scan | src/software/firmware_lwip_v2_1_3/lwip_v213/contrib/apps/httpserver_raw/httpd.c:1203-1380 | one round of the scanner keeps what remains to be sent and gets nearer to the end |
| Httpd.Response.ScanName | src/software/firmware_lwip_v2_1_3/lwip_v213/contrib/apps/httpserver_raw/httpd.c:1248-1299 | in a tag name the code takes the step of the scanner, byte by byte |
| Httpd.Response.ScanLeadout | src/software/firmware_lwip_v2_1_3/lwip_v213/contrib/apps/httpserver_raw/httpd.c:1302-1380 | in the lead-out too; the last byte of a tag loads its insert |
| Httpd.Response.SendTag | src/software/firmware_lwip_v2_1_3/lwip_v213/contrib/apps/httpserver_raw/httpd.c:1387-1466 | one round of TAG_SENDING: data up to the tag, the insert, and back to scanning |
| Httpd.Response.ScanAndSend | src/software/firmware_lwip_v2_1_3/lwip_v213/contrib/apps/httpserver_raw/httpd.c:1196-1468 | the loop ends, by a lexicographic measure, and keeps accepted plus remaining |
| Httpd.Response.SendDataSsi | src/software/firmware_lwip_v2_1_3/lwip_v213/contrib/apps/httpserver_raw/httpd.c:1147-1495 | one call keeps accepted plus remaining |
| Httpd.Response.Send | src/software/firmware_lwip_v2_1_3/lwip_v213/contrib/apps/httpserver_raw/httpd.c:1504-1563 | what has been accepted is always a prefix of the response, and all of it when the connection is closed |
| Libc.Strcpy | src/software/firmware_uip/system.c:251-291 | the string and its zero are copied, and nothing else changes, for every alignment |
| Libc.CopyWord | src/software/firmware_uip/system.c:264-287 | a word is stored whole, or byte by byte up to its first zero |
| Libc.ZeroMaskFindsZero | src/software/firmware_uip/system.c:267-269 | the mask is nonzero exactly if a byte is zero |
| Libc.Strcmp | src/software/firmware_uip/system.c:293-341 | the bytewise comparison of the two strings, for every alignment |
| Libc.CompareOrders | src/software/firmware_uip/system.c:293-341 | its sign is the order of the dictionary on unsigned bytes |
| Libc.CompareEqual | src/software/firmware_uip/system.c:293-341 | that comparison is 0 exactly for equal strings, and antisymmetric |
| Libc.VerdictDecides | src/software/firmware_uip/system.c:309-340 | equal words without a zero decide nothing, any others decide the comparison |
| Libc.Memmove | src/software/firmware_uip/system.c:207-229 | the old contents of the source are copied, under any overlap |
| Decimal.PrintDec | src/software/firmware_uip/system.c:27-37 | the decimal digits, 10 at most, from a buffer of ten |
| Decimal.AtoiLoop | src/software/firmware_uip/system.c:358-379 | spaces, sign, digits and the overflow test |
| Decimal.DigitsDenote | src/software/firmware_uip/system.c:27-37 | what is printed denotes the number, in decimal digits without a leading zero |
| Decimal.SignsAndSpaces | src/software/firmware_uip/system.c:358-379 | spaces and one sign are read over, and a minus negates |
| Decimal.PrintThenParse | src/software/firmware_uip/system.c:358-379 | parsing what was printed gives the number, or 2^31 - 1 if it is larger; with a minus sign its negative |
| Decimal.ParseBeyond | src/software/firmware_uip/system.c:369-376 | past the range of int the first digits that exceed it decide: what is left of them in 32 bits goes on if it is not negative |
| Decimal.SaturatesExactly | src/software/firmware_uip/system.c:358-379 | for numbers below ten times 2^31: the number or 2^31 - 1, whichever is less, exactly if it is below 2^32 or its remainder modulo 2^32 is at least 2^31 - 1 |
| Decimal.WrapsToZero | src/software/firmware_uip/system.c:369-376 | 2^32 is read as 0 |

## Left out

- TcpDelivery.Delivery: one incarnation of a connection and fewer than 2^32 - 2 bytes each way; old segments of other incarnations are not on the channel, and the application keeps the contract of `TcpDelivery.Polite` (it resends the same bytes, closes only when nothing is outstanding, leaves no connection stopped that is over).
- TcpDelivery.Delivery: polls that find leftovers in `uip_slen` are excluded; `TcpDelivery.PollSendsStaleBytes` says what they do.
- TcpTable.ReachableInv: assumes that the application leaves no connection stopped in the callback for its end, which `TcpTable.ExecKeepsInv` shows to be necessary; `TcpEdges.WedgedForGood` says what happens otherwise.
- Uip.Stack.ParseMss: requires that the option loop ends, as do `Uip.Stack.InSynSent`, `Uip.Stack.FoundListen`, `Uip.Stack.Dispatch` and `Uip.Stack.Input` where they reach it; on a SYN for which it does not (exactly: `TcpOptions.EndsIfNoRevisit`) the source never returns, and nothing is said.
- Uip.Stack.Input: requires of a TCP packet that passes the header tests that the checksum reads inside the buffer (`Packet.ReadsInsideExactly`). The source does not ensure it: it subtracts 20 without a test, and `uip_len` counts the link-level header (`main.c`, 92-96; `uip.c`, 856), so the length test lets 14 bytes too many through.
- Uip.Stack.AppCallback: `uip_connect`, `uip_listen` and `uip_unlisten` made inside a callback are not modelled, only `uip_send`, `uip_close`, `uip_abort`, `uip_stop` and `uip_restart`.
- Uip.Stack.AppCallback: data that reaches beyond the buffer, which takes a header length or urgent pointer beyond the packet (`TcpEdges.ShownInPacket`, `TcpEdges.HeaderBeyond`), is shown as empty; the source shows the memory behind it.
- Uip.Stack.EchoReply: a message shorter than 4 bytes is answered from what the buffer held before, as in the source; the checksum theorem is about messages that hold their checksum.
- Forward.ForwardPacket: the choice of an interface and `UIP_BROADCAST` are not modelled; the cache is never empty, as in the source.
- Reass.Reassembly.Take: for fragments whose end has a place in the bitmap (`Reass.EndHasPlace`); the source writes beyond it for the others. The buffer copies and the timer are not modelled (the feature is switched off in the configuration).
- Psock.Socket.ReadTo: the send side of psock is not modelled.
- Split.SplitOutput: `uip_appdata` stands at the start of the data when a full segment is split, where `uip.c`, 1700, and `uip-fw.c`, 473, leave it; more than two bytes further on the copy would leave the buffer.
- Httpd.Response.Send: tags included, inserts in one part, the whole file in memory; POST, keep-alive, dynamic headers, asynchronous reads, connection killing and CGI are not modelled. What a handler may write beyond its 192-byte buffer is not modelled.
- Libc.Strcpy: the two strings do not overlap; memory ends on a word boundary, so the aligned word that holds the final zero can be read.
- Decimal.AtoiLoop: signed overflow wraps, which the C standard leaves undefined.
- Memory-mapped devices, interrupts, `printf`, system calls and the flash tools: device input and output.
- UDP, IPv6, ping-based address configuration, statistics and logging: compiled out.
- The other uIP applications (smtp, telnetd, webclient, dhcpc, resolv), memory pools and timers: thin clients that would add only easy members.
