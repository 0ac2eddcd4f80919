# FusionFS core: reliable transfer, hash table, cache queues, digest

FusionFS moves file data between nodes with UDT, finds files through ZHT, and evicts cached files with a Clock
or an LFU queue. This project models the algorithms behind these and proves what they promise, over every run.

## How the model is built

**The transfer protocol** (`Protocol.dfy`) is one direction of a UDT stream connection as a state machine: the
sending half of one endpoint, the receiving half of its peer, and the packets in flight. The network may deliver a
packet any number of times, in any order, or never (`Deliver` leaves the packet in flight, `Lose` takes it away).
Sequence numbers are unbounded there. The steps are those of sections 6.1 and 6.2 of draft-gg-udt-03 as the code
takes them: `send`, `recv`, `packData`, `processData`, full and lite ACK, ACK2, loss reports, and the EXP timeout.
The congestion window is an arbitrary number at every step, time is a free choice of events.
`ProtocolLaws.dfy` says of every step, without naming it, what it does and when: how much is taken, which packet goes
out under which windows, what a report, an ACK and a timeout change, what an arrival reports.
`ProtocolSafety.dfy` has the invariant, `ProtocolRuns.dfy` the theorems about all runs, `ProtocolProgress.dfy` the
absence of deadlock on unbounded numbers, `FlightSize.dfy` the exact bound on what is outstanding. `CircleRuns.dfy` has
the same steps with the receiver's comparisons of acknowledgements on the circle of 31-bit numbers, `CircleProgress.dfy`
and `CircleStuck.dfy` say exactly when such a connection can still finish.

**The endpoint objects** are classes that hold 31-bit numbers and change in place. `SenderHalf.UdtSender` and
`ReceiverHalf.UdtReceiver` are the two halves of `CUDT` (their fields are disjoint, so the split loses nothing); every
method's contract says which protocol step it performs on the unbounded state. They are built from the two loss lists
(`SenderLoss`, `ReceiverLoss`: interval lists threaded through arrays, with the theory of the intervals in
`LossNodes`), the growable sending ring (`SenderBuffer`) and the receiving ring (`ReceiverBuffer`). `Endpoints.dfy`
closes the circle: what those methods ask of their callers holds in every reachable state of the protocol, for every
packet that is less than half the circle of sequence numbers old. `Connection.UdtConnection` puts the two objects and
the packets in flight together: each of its methods is one event of a connection, carried out on the objects, and is
proved to be that step (of `Protocol`, or of `CircleRuns` where ACKs are compared), so the theorems about runs on the
circle are theorems about the objects that change in place.

**Message mode**: `Messages.dfy` (fragments), `MessageRing.dfy` (`scanMsg` and `readMsg` as functions),
`MessageRuns.dfy` (all interleavings of submitting, arriving, acknowledging and reading); `RcvBuffer.ScanMsg` and
`RcvBuffer.ReadMsg` are the in-place loops, proved equal to those functions.

**Stand-alone structures**, each in the form the code has: the send-scheduling heap (`SendSchedule`), the chained hash
table (`HashTable`), the Clock and LFU queues on cyclic doubly linked lists (`InodeRing`, `ClockCache`, `LfuCache`),
and streaming MD5 (`Md5`). The hash function and the MD5 block function are parameters: any function will do.

## What came out differently from the obvious claim

- The receiver's loss list gets as many slots as the flight size. What is missing always fits it if and only if the
  receive buffer, or the sending buffer plus one, is at most two larger than that (`FlightSize.GapFitsList`). The
  sender's list gets twice the window of the handshake; what is outstanding always fits that if and only if the same
  bound is at most one larger than the list (`FlightSize.SpanFitsList`). Setting UDT_FC does not look at the receive
  buffer (src/udt/src/core.cpp:254-267), so it can choose a flight size for which a run puts more into the receiver's
  list than it has slots for, and a smaller one still for which the sender's list is too small.
- The last confirmed ACK falls behind without bound while no ACK2 arrives, and the comparison with it is on the circle.
  Nothing wrong is ever delivered (`CircleRuns.SafeOnCircle`), but the absence of deadlock does not carry over to
  31 bits. With no packet in flight, everything accepted can still be delivered if and only if the sender's window, as
  the last full ACK left it, covers all of it, or the receiver can come, within that window, to a number that compares
  as newer than the last confirmed ACK (`CircleStuck.FinishesIff`); that is so whenever the next ACK is less than half
  a turn past the confirmed one (`CircleProgress.NearFinishes`). `CircleStuck.CanGetStuck` is a run, half a turn
  without an ACK2, after which not one more byte is ever delivered (`CircleStuck.NothingMore`); such runs exist if and
  only if two blocks fit the sending buffer (`CircleStuck.GetsStuckIff`).
- `CSndUList::remove_` sifts only down. Removing a node from the middle keeps the heap in order exactly when the node
  that fills the hole is not due before the one above the hole (`SendSchedule.SendHeap.RemoveNode`);
  `SendSchedule.InteriorRemovalCanBreakOrder` is a heap where it is not.
- `CSndUList::update` does not grow the array, so it needs a free place for a node that is off the heap.
- `CRcvLossList::remove(s1, s2)` in its wrapped branch never removes 2^31 - 1; the contract says so.
- `NoVoHT::resize` clears the element count and does not rebuild it. After any run the count is the number of keys if
  and only if no `put` of the run made a table grow that was not empty (`HashTable.CountRightWhen`, for a load factor
  that is not negative); once behind, it stays behind (`HashTable.CountStaysBehind`). `HashTable.CountAfterResize` ends
  with -1 in an empty table. `get("")` never finds anything.
- `readMsg` is meant to return part of a message that is larger than the receive buffer. It returns nothing, whether
  the scan finds that message, which it does until all of it is acknowledged, or not (`MessageRing.LongMessageIsStuck`).
- `scanMsg` does not look at a packet that has arrived exactly at the ACK position when nothing is acknowledged and
  nothing lies beyond. A read is right if and only if that packet is not a whole message that needs no ACK
  (`MessageRing.ReadMsgReadsWell`); `MessageRing.UnorderedCanBeOverlooked` is such a ring.

## Model

| member | source | states |
|---|---|---|
| ProtocolRuns.DeliveredIsPrefix | src/udt/src/core.cpp:1727-2444 | in every run over a losing, duplicating, reordering network the bytes recv returned are a prefix of the bytes send accepted |
| ProtocolRuns.NothingLost | src/udt/src/core.cpp:1727-2444 | in every run the accepted bytes are exactly those delivered, then those waiting at the receiver, then those still in the sending buffer past the receiver's ACK point |
| ProtocolRuns.NeverBroken | src/udt/src/core.cpp:1988-1994 | no run of two honest ends declares the peer broken, neither by the ACK check nor by the range checks of a loss report |
| ProtocolRuns.LossListsFit | src/udt/src/core.cpp:765-766 | m_iSndLastDataAck <= m_iSndLastAck <= curr + 1 in every run, and both loss sets span less than the largest window ever advertised, or the receive buffer |
| ProtocolRuns.RunForward | src/udt/src/core.cpp:1959-2024 | along every run the acknowledgement points of both ends never move back and history is only appended to |
| ProtocolRuns.SameNumberSamePayload | src/udt/src/core.cpp:2271-2319 | a sequence number carries the same payload in every packet of a run that ever carries it, however often it is retransmitted |
| ProtocolSafety.StepKeeps | src/udt/src/core.cpp:1727-2444 | every step of either end or the network keeps the whole invariant: history, retransmission identity, span bound, slots, delivered bytes, cross-knowledge and the truth of all packets in flight |
| ProtocolSafety.ArrivedKeeps | src/udt/src/core.cpp:2405-2441 | storing an admitted packet keeps each ring slot empty exactly when its number is missing or beyond the largest received, and filled with the block first sent under that number |
| ProtocolSafety.AckKeepsReceiver | src/udt/src/core.cpp:1739-1768 | an ACK moves past filled slots only, so no slot between the read position and the ACK position is ever empty |
| ProtocolLaws.SendFillsBuffer | src/udt/src/core.cpp:1015-1122 | send takes a prefix of the data in full payloads and one rest, and takes less than all only when the sending buffer is full afterwards |
| ProtocolLaws.PackResendsFirst | src/udt/src/core.cpp:2271-2305 | whenever something is marked lost, the smallest marked number goes out with its own block and is no longer marked |
| ProtocolLaws.PackObeysWindows | src/udt/src/core.cpp:2308-2319 | with nothing lost a new packet goes out if and only if a block waits and both the flow window and the congestion window have room for one more; it carries the next number and the next block |
| ProtocolLaws.PackWithinWindows | src/udt/src/core.cpp:2310-2312 | after a new packet no more is outstanding than either window allows |
| ProtocolLaws.LiteAckMoves | src/udt/src/core.cpp:1958-1970 | a lite ACK moves the ACK mark up to its number and shrinks the window by as much, so the sender may send no further than before |
| ProtocolLaws.FullAckFrees | src/udt/src/core.cpp:1984-2024 | a full ACK of what was never sent breaks the connection; any other never moves a mark back, frees exactly the blocks below it and unmarks exactly the numbers below it |
| ProtocolLaws.ReportIsTaken | src/udt/src/core.cpp:2115-2159 | a report breaks the connection if and only if one of its ranges ends before it begins or past the largest number sent; up to there it marks exactly the reported numbers not yet acknowledged |
| ProtocolLaws.ExpireMarks | src/udt/src/core.cpp:2612-2623 | for every number: marked after a timeout if and only if it was before, or nothing was, something waits, and it is sent and not acknowledged |
| ProtocolLaws.GapIsReported | src/udt/src/core.cpp:2418-2424 | an arrival sends a loss report if and only if it leaves new numbers missing, and the report covers exactly these |
| ProtocolLaws.ArrivalIsStored | src/udt/src/core.cpp:2405-2441 | an arrival is taken if and only if its number lies in the free part of the receive window; then it, and nothing else, is newly here, its payload in its slot |
| ProtocolLaws.NextAckIsFirstMissing | src/udt/src/core.cpp:1739-1742 | everything from the ACK position up to the next ACK number has arrived and that number has not; no other number is so |
| ProtocolLaws.LiteAckCarries | src/udt/src/core.cpp:1744-1756 | a lite ACK carries the first missing number, unless that equals the last confirmed one |
| ProtocolLaws.FullAckCarries | src/udt/src/core.cpp:1739-1826 | the ACK timer moves the ACK position to the first missing number and sends it, with the room left or 2, exactly when it is new or to be repeated and compares as newer than the last confirmed one |
| ProtocolLaws.ConfirmationMoves | src/udt/src/core.cpp:2077-2098 | an ACK2 moves the confirmed mark up to the number its ACK carried, never back |
| ProtocolLaws.RecvEmptiesBuffer | src/udt/src/core.cpp:1190-1208 | recv falls short only when nothing acknowledged is left |
| ProtocolLaws.StartsEmpty | src/udt/src/core.cpp:750-767 | the handshake state: nothing sent, received or marked, and a window of the smaller of receive buffer and flight size |
| ProtocolProgress.CanAlwaysFinish | src/udt/src/core.cpp:2259-2344 | no deadlock on unbounded numbers: after any run, with every packet in flight lost and a congestion window of one, some continuation without further losses delivers everything accepted |
| ProtocolProgress.OpenWindow | src/udt/src/core.cpp:1785-1802 | on unbounded numbers a receiver that has read everything can always reopen the sender's window, also when its ACK was lost before |
| CircleRuns.CircleStepKeeps | src/udt/src/core.cpp:1727-2444 | with ACKs compared on the circle, too, every step keeps the whole invariant, and no acknowledged number gets half a turn and more past the last confirmed one |
| CircleRuns.LessThanATurn | src/udt/src/core.cpp:1744-1793 | the next ACK and all that the sender may send stay less than a whole turn past the last confirmed ACK, so a full ACK is never taken for a confirmed one |
| CircleRuns.CircleIsProtocol | src/udt/src/core.cpp:1739-1826 | while the next ACK is less than half a turn past the last confirmed one, every step on the circle is the protocol's |
| CircleRuns.SafeOnCircle | src/udt/src/core.cpp:1727-2444 | in every run on the circle the delivered bytes are a prefix of the accepted ones and the sender is not broken |
| CircleProgress.NearFinishes | src/udt/src/core.cpp:1739-1826 | while the next ACK is less than half a turn past the last confirmed one, some continuation without further losses delivers everything accepted |
| CircleStuck.FinishesIff | src/udt/src/core.cpp:1739-1826 | with no packet in flight everything can still be delivered if and only if the sender's limit covers it or the receiver can come to a number that compares as newer |
| CircleStuck.NeverFinishes | src/udt/src/core.cpp:1785-1802 | where that condition fails, something accepted is never delivered, in any continuation whatever |
| CircleStuck.NothingMore | src/udt/src/core.cpp:1785-1802 | once the receiver has read all that the sender may send and its next ACK compares as older, no continuation delivers one more byte |
| CircleStuck.CanGetStuck | src/udt/src/core.cpp:1793 | such a state is reached, half a turn past the last confirmed ACK, with data still to be sent, by every connection whose sending buffer takes two blocks |
| CircleStuck.CanGetFar | src/udt/src/core.cpp:1793 | with a sending buffer as large as the receive buffer it is also reached more than half a turn past the last confirmed ACK |
| CircleStuck.GetsStuckIff | src/udt/src/core.cpp:1785-1802 | some run gets to where not everything can be delivered if and only if the sending buffer takes two blocks |
| FlightSize.SpanFitsList | src/udt/src/core.cpp:254-267 | for all settings: the outstanding packets fit the 2 x window loss list of the sender in every run if and only if the receive buffer less one, or the sending buffer, is no larger than the list |
| FlightSize.GapFitsList | src/udt/src/core.cpp:761-767 | for all settings: any two missing numbers are less than the receiver's list of flight-size slots apart in every run if and only if the receive buffer less three, or the sending buffer less two, is smaller than the flight size |
| FlightSize.WidestSpan | src/udt/src/core.cpp:2311-2319 | some run leaves as many packets outstanding as the receive buffer has usable slots, or the sending buffer has blocks |
| FlightSize.WidestGap | src/udt/src/core.cpp:2418-2424 | some run has the last of these arrive first, so that all others are missing |
| Endpoints.WindowFitsList | src/udt/src/core.cpp:765 | the room the sender's loss list needs is there in every reachable world when the receiver's list is large enough for the receive buffer |
| Endpoints.AcksComparable | src/udt/src/core.cpp:1959-1996 | every ACK in flight compares correctly with the sender's 31-bit marks and is at most curr + 1 |
| Endpoints.ReportComparable | src/udt/src/core.cpp:2115-2151 | every range of a loss report in flight compares correctly with what is outstanding and lies within it |
| Endpoints.DataComparable | src/udt/src/core.cpp:2405-2407 | every data packet in flight lies within half the circle of the receiver's ACK position |
| Endpoints.AckCoversFilled | src/udt/src/core.cpp:1739-1768 | no slot up to the next ACK number is empty in any reachable world |
| Endpoints.ReportMarks | src/udt/src/core.cpp:2115-2151 | a loss report over sent numbers makes the sender's loss set grow by exactly the reported numbers that are not acknowledged, and breaks nothing |
| Endpoints.FreshReportMarksMissing | src/udt/src/core.cpp:1859-1879 | end to end: a periodic report, sent and delivered, marks only numbers that the receiver is missing, and all of them from the last ACK on when it covers all |
| SenderHalf.UdtSender.Send | src/udt/src/core.cpp:1015-1122 | send without the waiting: the same bytes are accepted and the same blocks queued as in the protocol step (how many: ProtocolLaws.SendFillsBuffer) |
| SenderHalf.UdtSender.PackData | src/udt/src/core.cpp:2271-2344 | retransmission first, else a new packet if both windows allow: number and payload of the protocol's packet, and its new sender state (which: ProtocolLaws.PackResendsFirst, ProtocolLaws.PackObeysWindows) |
| SenderHalf.UdtSender.ProcessLiteAck | src/udt/src/core.cpp:1958-1970 | a lite ACK is the protocol's step on 31-bit numbers |
| SenderHalf.UdtSender.ProcessFullAck | src/udt/src/core.cpp:1984-2024 | a full ACK is the protocol's step: guard, window, freed blocks, trimmed loss list |
| SenderHalf.UdtSender.ProcessNak | src/udt/src/core.cpp:2115-2159 | the words of a loss report are read back into ranges and processed as in the protocol, with the range checks |
| SenderHalf.UdtSender.Expire | src/udt/src/core.cpp:2612-2623 | on a timeout the loss list is the protocol's: everything unacknowledged is marked, only if nothing was (ProtocolLaws.ExpireMarks) |
| ReceiverHalf.UdtReceiver.ProcessData | src/udt/src/core.cpp:2405-2441 | an arriving packet has the protocol's effect on ring, loss list and largest number, and causes exactly its loss report (when and which: ProtocolLaws.GapIsReported) |
| ReceiverHalf.UdtReceiver.SendFullAck | src/udt/src/core.cpp:1739-1826 | the ACK number, the moved ACK position and the packet (number, free buffer of at least 2), for any distance to the last confirmed ACK |
| ReceiverHalf.FullAckExact | src/udt/src/core.cpp:1739-1826 | the timer does what the protocol says if and only if there is nothing new or the next ACK compares as newer than the last confirmed one; otherwise at most the ACK position moves |
| ReceiverHalf.NearIsConfirmable | src/udt/src/core.cpp:1793 | the comparison comes out right as long as the next ACK is less than half a turn past the last confirmed one |
| ReceiverHalf.SilentWhenFar | src/udt/src/core.cpp:1793 | between half a turn and a whole turn past the last confirmed ACK no full ACK is sent, and the timer does not change that |
| ReceiverHalf.LiteAckExact | src/udt/src/core.cpp:1744-1756 | a lite ACK is the protocol's unless the next number has come round to the last confirmed one |
| ReceiverHalf.UdtReceiver.SendLiteAck | src/udt/src/core.cpp:1744-1756 | the first missing number, by ProtocolLaws.LiteAckCarries, unless it equals the last confirmed one on the circle |
| ReceiverHalf.UdtReceiver.ProcessAck2 | src/udt/src/core.cpp:2077-2098 | a confirmed ACK that compares as newer moves m_iRcvLastAckAck, never back |
| ReceiverHalf.UdtReceiver.SendNak | src/udt/src/core.cpp:1859-1879 | a periodic report covers only missing numbers, and all of them when it fits the packet |
| ReceiverHalf.UdtReceiver.Recv | src/udt/src/core.cpp:1190-1208 | recv without the waiting returns the protocol's bytes |
| Connection.UdtConnection.DeliveredIsPrefix | src/udt/src/core.cpp:1727-2444 | on the objects: the bytes their recv calls returned are a prefix of those their send calls took |
| Connection.UdtConnection.constructor | src/udt/src/core.cpp:750-767 | a new connection is the initial world: both ends at the first number, nothing marked, the window the smaller of receive buffer and flight size |
| Connection.UdtConnection.Send | src/udt/src/core.cpp:1015-1122 | one send is the protocol's step; it accepts the first bytes of the data, fewer than all only when the sending buffer is full afterwards |
| Connection.UdtConnection.Recv | src/udt/src/core.cpp:1190-1208 | one recv is the protocol's step; what it returns extends the bytes delivered, and is less than asked for only when nothing acknowledged is left |
| Connection.UdtConnection.Pack | src/udt/src/core.cpp:2271-2344 | packing is the protocol's step on the wire: the least marked number first; with none, the next number if and only if a block waits and both windows have room; never more outstanding than either window |
| Connection.UdtConnection.Expire | src/udt/src/core.cpp:2612-2623 | the timeout is the protocol's step: it marks exactly what is sent and not acknowledged, and changes nothing when something is marked |
| Connection.UdtConnection.SendFullAck | src/udt/src/core.cpp:1739-1826 | the ACK timer is the step on the circle, at any distance from the last confirmed ACK: it acknowledges up to the first missing number, and the packet carries that with the room left or 2 |
| Connection.UdtConnection.SendLiteAck | src/udt/src/core.cpp:1744-1756 | a lite ACK is the step on the circle and carries the first missing number |
| Connection.UdtConnection.SendNak | src/udt/src/core.cpp:1859-1879 | the words of the report encode ranges that are missing, within the packet, and all of them when they fit, and that report is then in flight |
| Connection.UdtConnection.DeliverData | src/udt/src/core.cpp:2405-2441 | any data packet in flight, new, old or repeated, is handled as the protocol says; the words it returns decode to exactly the numbers newly missing, and there are none if and only if nothing is |
| Connection.UdtConnection.DeliverLiteAck | src/udt/src/core.cpp:1958-1970 | any lite ACK in flight is handled as the protocol says |
| Connection.UdtConnection.DeliverFullAck | src/udt/src/core.cpp:1984-2024 | any full ACK in flight is handled as the protocol says and breaks nothing |
| Connection.UdtConnection.DeliverAck2 | src/udt/src/core.cpp:2077-2098 | any ACK2 in flight is handled as the step on the circle says, whether its entry is still stored or not: the confirmed mark becomes the stored number if and only if that compares as newer |
| Connection.UdtConnection.DeliverNak | src/udt/src/core.cpp:2115-2159 | the words of any report in flight are handled as the protocol says and break nothing |
| ReceiverHalf.ImmediateReportIs | src/udt/src/core.cpp:1840-1851 | the report of a new gap, one word or two, encodes exactly that gap |
| LossReport.DecodeEncode | src/udt/src/list.cpp:682-703 | section 6.4 of draft-gg-udt-03: reading back the words of any list of intervals yields those intervals |
| SeqNo.OffExact | src/udt/src/common.h:228-237 | seqoff recovers the distance of any two numbers less than half the circle apart |
| SeqNo.CmpExact | src/udt/src/common.h:222-223 | seqcmp has the sign of the unbounded comparison inside such a window |
| SeqNo.CmpIsOrder | src/udt/src/common.h:222-223 | inside a window seqcmp is a strict total order |
| SeqNo.LenExact | src/udt/src/common.h:225-226 | seqlen counts the inclusive circular range |
| SeqNo.IncExact | src/udt/src/common.h:239-243 | incseq and decseq are the successor and predecessor on the circle |
| SeqNo.IncByAdds | src/udt/src/common.h:239-246 | increments compose, and incseq and decseq undo each other, for every sequence number |
| SeqNo.OffArrives | src/udt/src/common.h:228-246 | moving by the offset always arrives, however far apart two numbers are |
| SenderLoss.SndLossList.Insert | src/udt/src/list.cpp:85-255 | within the array's span insert adds exactly [s1, s2] to the set and returns how many numbers are new; placement, order, links, length and hint stay right |
| SenderLoss.SndLossList.Remove | src/udt/src/list.cpp:257-367 | remove deletes exactly the numbers up to seqno |
| SenderLoss.SndLossList.GetLostSeq | src/udt/src/list.cpp:376-418 | removes and returns the smallest number, -1 when the set is empty |
| ReceiverLoss.RcvLossList.Insert | src/udt/src/list.cpp:453-499 | appending above the maximum adds exactly [s1, s2] |
| ReceiverLoss.RcvLossList.Remove | src/udt/src/list.cpp:501-629 | removes one number, at the head, the tail, an end or by a split, and says whether it was there; the backward links stay inverse to the forward ones |
| ReceiverLoss.RcvLossList.RemoveRange | src/udt/src/list.cpp:631-647 | removes a range, except 2^31 - 1 when the range wraps |
| ReceiverLoss.RcvLossList.Find | src/udt/src/list.cpp:649-667 | tells whether any missing number lies in a range |
| ReceiverLoss.RcvLossList.GetFirstLostSeq | src/udt/src/list.cpp:674-680 | the smallest missing number, -1 if none |
| ReceiverLoss.RcvLossList.GetLossArray | src/udt/src/list.cpp:682-703 | writes the encoding of a prefix of the intervals, never past the limit, and all of them unless the limit is reached |
| ReceiverLoss.RcvLossList.RangesCover | src/udt/src/list.cpp:682-703 | the intervals of the list cover exactly the missing numbers |
| SenderBuffer.SndBuffer.AddBuffer | src/udt/src/buffer.cpp:120-164 | the data is queued behind what waits, cut into payloads with first and last marked; nothing that waits or was sent changes, also when the ring grows |
| SenderBuffer.SndBuffer.Increase | src/udt/src/buffer.cpp:285-342 | a unit of free blocks is linked in behind the last block; the ring stays one cycle and the used blocks stay first |
| SenderBuffer.SndBuffer.ReadData | src/udt/src/buffer.cpp:217-230 | the first form returns the next unsent payload |
| SenderBuffer.SndBuffer.ReadDataAt | src/udt/src/buffer.cpp:232-266 | the second form returns the payload `offset` blocks past the first unacknowledged one |
| SenderBuffer.SndBuffer.AckData | src/udt/src/buffer.cpp:268-278 | frees exactly the first `offset` payloads and keeps the distance to the unsent ones |
| ReceiverBuffer.RcvBuffer.AddData | src/udt/src/buffer.cpp:374-389 | stores a packet in the slot `offset` past the ACK position unless that is taken, in stream and in message mode |
| ReceiverBuffer.RcvBuffer.ReadBuffer | src/udt/src/buffer.cpp:391-426 | reads through wrap-around and notch as the stream ring does; units that leave the ring are free again |
| ReceiverBuffer.RcvBuffer.AckData | src/udt/src/buffer.cpp:467-475 | moves the ACK position, in both modes |
| StreamRing.ReadTakesPrefix | src/udt/src/buffer.cpp:391-426 | a read returns exactly the first min(len, available) unread acknowledged bytes and leaves the rest |
| ReceiverBuffer.RcvBuffer.ScanMsg | src/udt/src/buffer.cpp:546-652 | skipping, searching and the ACK test of scanMsg compute the specified ring and message |
| ReceiverBuffer.RcvBuffer.ReadMsg | src/udt/src/buffer.cpp:498-537 | copies, frees or marks the units of the message as specified; units that leave the ring are free again |
| MessageRing.ReadMsgReadsWell | src/udt/src/buffer.cpp:498-652 | a read returns the first whole message that is there unread and acknowledged or unordered, cut to len, or nothing when there is none, if and only if the ring does not just hold one whole unordered message at the ACK position, nothing acknowledged; then it returns nothing |
| MessageRing.UnorderedCanBeOverlooked | src/udt/src/buffer.cpp:549-550 | such a ring: the message may be read, and is not returned |
| MessageRing.SkipKeeps | src/udt/src/buffer.cpp:553-595 | skipping gives back only units that were read before, and stops at an unread message |
| MessageRing.FindFirst | src/udt/src/buffer.cpp:597-640 | the search finds the deliverable message that ends first and misses none |
| MessageRing.LongMessageIsStuck | src/udt/src/buffer.cpp:643-649 | a message that fills the ring without its end is found exactly until all of it is acknowledged, and nothing of it is ever returned |
| MessageRuns.LongMessageFills | src/udt/src/buffer.cpp:374-389 | a message of at least as many packets as the ring has slots fills it that way when it arrives in order |
| MessageRuns.FilledForGood | src/udt/src/buffer.cpp:498-652 | once it has, no run ever returns anything again |
| MessageRuns.MessagesExactlyOnce | src/udt/src/buffer.cpp:498-652 | in every interleaving each read returns one whole message, none twice, order-flagged ones only after all earlier ones, and whatever was passed was returned |
| Messages.MessageAt | src/udt/src/buffer.cpp:134-154 | fragmentation round trip: a stretch of packets framed as one message carries the bytes and the order flag of exactly one submitted message |
| Messages.StreamFramed | src/udt/src/buffer.cpp:134-154 | the fragment flags of consecutive messages frame the packet stream without gaps |
| SendSchedule.SendHeap.InsertNode | src/udt/src/queue.cpp:355-401 | insert_ adds the node once, keeps the heap order and every node's own place, and interrupts exactly when the node is first, which in an ordered heap is when it is due before all others |
| SendSchedule.SendHeap.RemoveNode | src/udt/src/queue.cpp:403-442 | remove_ takes out exactly the node, keeps the places, and keeps the order if and only if the moved node is not due before the one above the hole |
| SendSchedule.SendHeap.Insert | src/udt/src/queue.cpp:255-280 | insert grows the array when it is full, loses nothing, and interrupts exactly when the new node is due before all others |
| SendSchedule.SendHeap.Update | src/udt/src/queue.cpp:282-304 | update makes the node due at once, or leaves it when it is scheduled and not to be moved; an ordered heap stays in order if and only if nothing was moved, or the root was and no other node is due earlier, or the node that filled the hole is not due before the one above; it interrupts the timer if and only if the node was moved or added and is first, or was the only other node |
| SendSchedule.SendHeap.Pop | src/udt/src/queue.cpp:306-336 | pop takes the node due first, not before its time, and puts it back at its next time |
| SendSchedule.SendHeap.GetNextProcTime | src/udt/src/queue.cpp:345-353 | the next processing time is the least of all |
| SendSchedule.RootIsLeast | src/udt/src/queue.cpp:306-318 | in an ordered heap the root carries the least time |
| SendSchedule.InteriorRemovalCanBreakOrder | src/udt/src/queue.cpp:412-434 | a heap of six nodes where removing the fourth breaks the order |
| HashTable.NoVoHT.Put | src/zht/src/common/novoht.cpp:99-142 | put updates the map at one key, also when it resizes; the size doubles if and only if the count has reached the load; a right element count stays right if and only if the table does not grow or was empty |
| HashTable.NoVoHT.Get | src/zht/src/common/novoht.cpp:144-153 | get returns the last value put under a non-empty key and not removed, and nothing for the empty key |
| HashTable.NoVoHT.Remove | src/zht/src/common/novoht.cpp:156-187 | remove deletes exactly one key and returns 0, or -1 when it is absent; the count stays as far off the number of keys as it was |
| HashTable.NoVoHT.Resize | src/zht/src/common/novoht.cpp:214-234 | relinking every pair in place keeps the map: each pair is in exactly the bucket of its key in the larger table |
| HashTable.CountRightWhen | src/zht/src/common/novoht.cpp:99-234 | after any run the count is the number of keys if and only if no put of the run made a table grow that was not empty |
| HashTable.CountStaysBehind | src/zht/src/common/novoht.cpp:99-234 | a count below the number of keys stays below it in every run |
| HashTable.KeysPerBucket | src/zht/src/common/novoht.cpp:99-234 | in every run from an empty table with load factor f > 0 there are at most 2 * f + 1 keys a bucket, although growing loses the count, and a grown size n has taken at least n * f / 2 puts |
| HashTable.CountAfterResize | src/zht/src/common/novoht.cpp:221-222 | after a resize the element count can be -1 in an empty table |
| ClockCache.ClockQueue.Find | src/clock.c:31-51 | finds the file's inode once around from the head, or none |
| ClockCache.ClockQueue.Insque | src/clock.c:115-145 | marks the file when it is there, else lets it in just before the hand |
| ClockCache.ClockQueue.RemQ | src/clock.c:78-108 | links the inode out and moves head, tail and hand off it |
| ClockCache.ClockQueue.Remque | src/clock.c:160-195 | the sweep ends and evicts what the specification says, with the bits it passed cleared |
| ClockCache.ClockQueue.Rmelem | src/clock.c:207-217 | exactly the named file leaves the queue |
| ClockCache.EvictsFirstClear | src/clock.c:180-195 | the first clear entry from the hand on is evicted, or the hand's own when all are marked; the others keep their order from the new hand |
| ClockCache.FirstInFirstOut | src/clock.c:115-217 | in every run of insertions, evictions and removals without repeated references the files evicted are those that came in, in that order, less those removed by name; files may come back |
| LfuCache.LfuQueue.InsertAccess | src/util.c:372-432 | an access counts the file once more and puts it behind all files that are not used more often |
| LfuCache.LfuQueue.GetPos | src/util.c:442-487 | finds the place behind all entries that are not used more often |
| LfuCache.LfuQueue.RemqueHead | src/util.c:519-543 | evicts the head and nothing else |
| LfuCache.LfuQueue.Rmelem | src/util.c:579-605 | exactly the named file leaves, at either end or in between |
| LfuCache.EvictsLeastFrequent | src/util.c:372-543 | in every run the head was accessed least since it entered and longest ago among those, and the queue holds exactly the files accessed that did not leave |
| LfuCache.RunKeeps | src/util.c:372-543 | over every run the queue is sorted by count with ties in the order of last access, and every count is exact |
| Md5.Md5State.Append | src/udt/src/md5.cpp:322-358 | appending any bytes absorbs whole blocks, buffers the rest and counts the bits with the carry |
| Md5.Md5State.Finish | src/udt/src/md5.cpp:360-381 | the digest of the message padded by sections 3.1 and 3.2 of RFC 1321, and, for that padded message and any chain of registers over its blocks, the last registers written low-order byte first |
| Md5.DigestOfPieces | src/udt/src/md5.cpp:322-381 | however a message is cut into pieces, the digest is that of the whole, with the same two statements |
| Md5.PaddedIff | src/udt/src/md5.cpp:360-381 | the padded message is exactly: the message, 0x80, the fewest zeros that fill whole blocks, and the length in bits modulo 2^64 in eight bytes that read low-order first as that number |
| Md5.DigestIff | src/udt/src/md5.cpp:379-380 | the digest is exactly the sixteen bytes whose four groups read low-order first as the four registers |
| Md5.InitialBytes | src/udt/src/md5.cpp:311-320 | section 3.3 of RFC 1321: the first registers are the bytes 01 23 .. 32 10, low-order first |
| Md5.DigestIs | src/udt/src/md5.cpp:322-381 | pad the message, let its blocks take the registers on one after the other from their first value, write them out: that is the digest |
| Md5.CountAdds | src/udt/src/md5.cpp:333-337 | the two-word bit count with its wrapped carry test is exact modulo 2^64 |

## Left out

- Threads, locks, condition waits and clocks: protocol actions are atomic steps, time is a choice of events.
- Sockets, addresses, the UDP channel, the handshake and the connection registry.
- Congestion control and rate estimation: the window is any number at any step.
- The table of sent ACKs (CACKWindow): an ACK2 finds its entry or not, as a free choice.
- TTL expiry and message drop requests, which stream mode never reaches (its ttl is -1).
- The file variants of the buffers (addBufferFromFile, readBufferToFile), where a short read leaves the block count wrong.
- The final "connection broken" timeout after 16 expirations; a broken connection takes no further steps.
- An initial sequence number of 0, for which the code starts from -1: the endpoint constructors take 1 and above.
- A flight size of 2^29 packets or more: the loss lists of the endpoint classes are smaller than half the circle.
- 32-bit overflow of buffer sizes times payload size in send, and of the doubled size in NoVoHT; sizes are unbounded.
- The limit of 2^28 bytes per md5_append above which a shift overflows: the shift is taken as wrap-around.
- Endpoints: packets older than half the circle of sequence numbers, which no 31-bit comparison can place.
- Endpoints.WindowFitsList: asks for a receive buffer at most two packets larger than the flight size, as do the endpoint
  objects; a small sending buffer would allow more.
- ReceiverHalf.UdtReceiver.SendNak: the timer that calls it is commented out in this version; the step is kept.
- SenderHalf.UdtSender.ProcessNak: a report that ends inside a range, where the code reads past its end.
- SendSchedule.SendHeap.Update: asks for a free place; without one the code writes behind its array.
- SendSchedule.SendHeap.Pop: the timer interrupts it causes while it takes the root out and puts it back, and the condition
  variable that insert_ signals for the first node.
- ClockCache.ClockQueue.Remque: asks for a non-empty queue; on an empty one the code logs and follows a null pointer.
- LfuCache.LfuQueue.RemqueHead: asks for a non-empty queue, for the same reason.
- The LRU queue, which is the LFU queue without counts, and the list-plus-index cache of file locations.
- HashTable.NoVoHT.Put: the load test in floating point is taken over the reals.
- Writing, marking and reading back the table's file; the table is the one without a file.
- CCache, whose overflow path copies one bucket over another.
- md5_process itself, ZHT networking, FUSE callbacks, logging and generated code.
